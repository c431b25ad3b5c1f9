/** Paths as lists of components: what they mean, and the normal form that has the same meaning. */
module Paths {
  import opened Words
  import opened Entries

  const SLASH: Byte := 0x2F

  /** A component list walked from a directory: names go down, `..` goes up (and stays at the root), `.` stays. */
  function Act(stack: seq<Bytes>, components: seq<Bytes>): seq<Bytes>
    decreases |components|
  {
    if components == [] then stack
    else Act(StepTo(stack, components[0]), components[1..])
  }

  function StepTo(stack: seq<Bytes>, component: Bytes): seq<Bytes> {
    if component == DOT then stack
    else if component == DOTDOT then if stack == [] then [] else stack[..|stack| - 1]
    else stack + [component]
  }

  predicate IsName(component: Bytes) {
    component != DOT && component != DOTDOT
  }

  predicate AllNames(components: seq<Bytes>) {
    forall i :: 0 <= i < |components| ==> IsName(components[i])
  }

  /** What one more component does to a normal form. */
  function Push(absolute: bool, normal: seq<Bytes>, component: Bytes): seq<Bytes> {
    if component == DOT then normal
    else if component == DOTDOT then
      if normal != [] && normal[|normal| - 1] != DOTDOT then normal[..|normal| - 1]
      else if !absolute then normal + [DOTDOT]
      else normal
    else normal + [component]
  }

  /** The normal form `path_normalize` computes. */
  function Norm(absolute: bool, components: seq<Bytes>): seq<Bytes> {
    if components == [] then []
    else Push(absolute, Norm(absolute, components[..|components| - 1]), components[|components| - 1])
  }

  /** No `.`, and `..` only in front, where an absolute path has none at all. */
  ghost predicate IsCanonical(absolute: bool, components: seq<Bytes>) {
    && (forall i :: 0 <= i < |components| ==> components[i] != DOT)
    && (forall i, j :: 0 <= i < j < |components| && components[j] == DOTDOT ==> components[i] == DOTDOT)
    && (absolute ==> AllNames(components))
  }

  lemma {:induction false} ActAppend(stack: seq<Bytes>, a: seq<Bytes>, b: seq<Bytes>)
    ensures Act(stack, a + b) == Act(Act(stack, a), b)
    decreases |a|
  {
    if a == [] {
      assert a + b == b;
    } else {
      assert (a + b)[0] == a[0] && (a + b)[1..] == a[1..] + b;
      ActAppend(StepTo(stack, a[0]), a[1..], b);
    }
  }

  lemma ActSnoc(stack: seq<Bytes>, a: seq<Bytes>, c: Bytes)
    ensures Act(stack, a + [c]) == StepTo(Act(stack, a), c)
  {
    ActAppend(stack, a, [c]);
    assert [c][1..] == [];
    assert Act(Act(stack, a), [c]) == Act(StepTo(Act(stack, a), c), []);
  }

  lemma {:induction false} ActNames(stack: seq<Bytes>, names: seq<Bytes>)
    requires AllNames(names)
    ensures Act(stack, names) == stack + names
    decreases |names|
  {
    if names == [] {
      assert stack + names == stack;
    } else {
      assert IsName(names[0]);
      assert AllNames(names[1..]);
      ActNames(stack + [names[0]], names[1..]);
      assert names == [names[0]] + names[1..];
    }
  }

  // ----- the normal form -----

  lemma {:induction false} NormCanonical(absolute: bool, components: seq<Bytes>)
    ensures IsCanonical(absolute, Norm(absolute, components))
    decreases |components|
  {
    if components != [] {
      NormCanonical(absolute, components[..|components| - 1]);
    }
  }

  lemma {:induction false} NormOfCanonical(absolute: bool, components: seq<Bytes>)
    requires IsCanonical(absolute, components)
    ensures Norm(absolute, components) == components
    decreases |components|
  {
    if components != [] {
      var n := |components| - 1;
      var init, last := components[..n], components[n];
      assert components == init + [last];
      assert IsCanonical(absolute, init);
      NormOfCanonical(absolute, init);
      if last == DOTDOT && init != [] {
        assert components[n - 1] == DOTDOT;
        assert init[n - 1] == components[n - 1];
      }
      assert absolute ==> IsName(components[n]);
      assert components[n] != DOT;
    }
  }

  /** Normalizing twice is normalizing once. */
  lemma NormIdempotent(absolute: bool, components: seq<Bytes>)
    ensures Norm(absolute, Norm(absolute, components)) == Norm(absolute, components)
  {
    NormCanonical(absolute, components);
    NormOfCanonical(absolute, Norm(absolute, components));
  }

  /** A relative path and its normal form lead to the same place from everywhere. */
  lemma {:induction false} NormKeepsMeaning(base: seq<Bytes>, components: seq<Bytes>)
    ensures Act(base, Norm(false, components)) == Act(base, components)
    decreases |components|
  {
    if components != [] {
      var n := |components| - 1;
      var init, last := components[..n], components[n];
      assert components == init + [last];
      NormKeepsMeaning(base, init);
      NormCanonical(false, init);
      PushKeepsMeaning(base, Norm(false, init), last);
      ActSnoc(base, init, last);
    }
  }

  lemma PushKeepsMeaning(base: seq<Bytes>, normal: seq<Bytes>, c: Bytes)
    requires IsCanonical(false, normal)
    ensures Act(base, Push(false, normal, c)) == StepTo(Act(base, normal), c)
  {
    if c == DOT {
    } else if c == DOTDOT && normal != [] && normal[|normal| - 1] != DOTDOT {
      var n := |normal| - 1;
      assert normal == normal[..n] + [normal[n]];
      ActSnoc(base, normal[..n], normal[n]);
    } else {
      ActSnoc(base, normal, c);
    }
  }

  /** The normal form of an absolute path is the place it leads to from the root. */
  lemma {:induction false} NormIsPlace(components: seq<Bytes>)
    ensures Norm(true, components) == Act([], components)
    decreases |components|
  {
    if components != [] {
      var n := |components| - 1;
      var init, last := components[..n], components[n];
      assert components == init + [last];
      NormIsPlace(init);
      NormCanonical(true, init);
      ActSnoc([], init, last);
      var normal := Norm(true, init);
      assert normal != [] ==> IsName(normal[|normal| - 1]);
    }
  }

  lemma NormNames(components: seq<Bytes>)
    ensures AllNames(Norm(true, components))
  {
    NormCanonical(true, components);
  }

  /** A relative path may be normalized before or after it is joined to an absolute one. */
  lemma NormJoins(base: seq<Bytes>, components: seq<Bytes>)
    ensures Norm(true, base + components) == Norm(true, base + Norm(false, components))
    ensures Norm(true, base + components) == Norm(true, Norm(true, base) + components)
  {
    hide *;
    NormIsPlace(base + components);
    NormIsPlace(base + Norm(false, components));
    NormIsPlace(Norm(true, base) + components);
    ActAppend([], base, components);
    ActAppend([], base, Norm(false, components));
    ActAppend([], Norm(true, base), components);
    NormKeepsMeaning(Act([], base), components);
    NormIsPlace(base);
    NormNames(base);
    ActNames([], Norm(true, base));
    assert [] + Norm(true, base) == Norm(true, base);
  }

  // ----- two relative paths mean the same exactly if they have the same normal form -----

  /** How many `..` a canonical list starts with. */
  function Ups(components: seq<Bytes>): (k: nat)
    ensures k <= |components| && (forall i :: 0 <= i < k ==> components[i] == DOTDOT)
    ensures k < |components| ==> components[k] != DOTDOT
  {
    if components == [] || components[0] != DOTDOT then 0 else 1 + Ups(components[1..])
  }

  /** From a place deep enough, a canonical list removes as many names as it has `..` and adds its own names. */
  lemma CanonicalActs(base: seq<Bytes>, components: seq<Bytes>)
    requires IsCanonical(false, components) && Ups(components) <= |base|
    ensures Act(base, components) == base[..|base| - Ups(components)] + components[Ups(components)..]
  {
    var k := Ups(components);
    assert components == components[..k] + components[k..];
    ActAppend(base, components[..k], components[k..]);
    ActUps(base, components[..k]);
    forall i | 0 <= i < |components[k..]| ensures IsName(components[k..][i]) {
      assert components[k] != DOTDOT && components[k + i] == components[k..][i];
    }
    ActNames(base[..|base| - k], components[k..]);
  }

  lemma {:induction false} ActUps(base: seq<Bytes>, ups: seq<Bytes>)
    requires |ups| <= |base| && forall i :: 0 <= i < |ups| ==> ups[i] == DOTDOT
    ensures Act(base, ups) == base[..|base| - |ups|]
    decreases |ups|
  {
    if ups != [] {
      ActUps(base[..|base| - 1], ups[1..]);
    }
  }

  /** A name different from `a`. */
  function OtherName(a: Bytes): (n: Bytes)
    ensures n != a && IsName(n)
  {
    if a == [0x61] then [0x62] else [0x61]
  }

  lemma SameUps(x: seq<Bytes>, y: seq<Bytes>)
    requires Ups(x) == Ups(y) && x != y
    ensures x[Ups(x)..] != y[Ups(y)..]
  {
    var k := Ups(x);
    assert x == x[..k] + x[k..] && y == y[..k] + y[k..] && x[..k] == y[..k];
  }

  lemma FirstDiffers(base: seq<Bytes>, n: nat, x: seq<Bytes>, y: seq<Bytes>)
    requires 0 < n <= |base| && (y != [] ==> y[0] != base[0])
    ensures base[..n] + x != y
  {
    assert (base[..n] + x)[0] == base[0];
  }

  /** Two different canonical lists lead to different places from some directory. */
  lemma CanonicalDiffer(x: seq<Bytes>, y: seq<Bytes>) returns (base: seq<Bytes>)
    requires IsCanonical(false, x) && IsCanonical(false, y) && x != y && Ups(x) <= Ups(y)
    ensures AllNames(base) && Act(base, x) != Act(base, y)
  {
    hide Act, StepTo, Ups, IsCanonical;
    var k, m := Ups(x), Ups(y);
    var other := OtherName(if m < |y| then y[m] else []);
    base := seq(m, _ => other);
    CanonicalActs(base, x);
    CanonicalActs(base, y);
    assert Act(base, y) == y[m..];
    if k == m {
      SameUps(x, y);
      assert Act(base, x) == x[k..];
    } else {
      FirstDiffers(base, m - k, x[k..], y[m..]);
    }
  }

  /** The normal form of a relative path is complete for its meaning. */
  lemma SameMeaningIffSameNormalForm(x: seq<Bytes>, y: seq<Bytes>)
    ensures (forall base :: AllNames(base) ==> Act(base, x) == Act(base, y)) <==> Norm(false, x) == Norm(false, y)
  {
    var nx, ny := Norm(false, x), Norm(false, y);
    NormCanonical(false, x);
    NormCanonical(false, y);
    if nx == ny {
      forall base | AllNames(base) ensures Act(base, x) == Act(base, y) {
        NormKeepsMeaning(base, x);
        NormKeepsMeaning(base, y);
      }
    } else {
      var base;
      if Ups(nx) <= Ups(ny) {
        base := CanonicalDiffer(nx, ny);
      } else {
        base := CanonicalDiffer(ny, nx);
      }
      NormKeepsMeaning(base, x);
      NormKeepsMeaning(base, y);
    }
  }
}
