/** `path_t`: splitting a path string, normalizing the components in place, and building an absolute path. */
module PathBuffers {
  import opened Options
  import opened Words
  import opened Entries
  import opened Paths

  const MAX_COMPONENTS: nat := 16
  const MAX_NAME: nat := 64
  const OUTPUT_CAPACITY: nat := 256

  predicate IsAbsolute(path: Bytes) {
    path != [] && path[0] == SLASH
  }

  /** The components between slashes; a slash at the very end starts none. */
  function SplitAll(b: Bytes): seq<Bytes>
    decreases |b|
  {
    if b == [] then [] else [Before(b, SLASH)] + SplitAll(After(b, SLASH))
  }

  /** The bytes after the first `x`. */
  function After(b: Bytes, x: Byte): (r: Bytes)
    ensures b != [] ==> |r| < |b|
  {
    if IndexOf(b, x) < |b| then b[IndexOf(b, x) + 1..] else []
  }

  function Parts(path: Bytes): (parts: seq<Bytes>) {
    SplitAll(if IsAbsolute(path) then path[1..] else path)
  }

  lemma {:induction false} PartsHaveNoSlash(b: Bytes)
    ensures forall i :: 0 <= i < |SplitAll(b)| ==> SLASH !in SplitAll(b)[i]
    decreases |b|
  {
    if b != [] {
      PartsHaveNoSlash(After(b, SLASH));
    }
  }

  /** The limits of `path_t`. */
  ghost predicate Fits(parts: seq<Bytes>) {
    |parts| <= MAX_COMPONENTS && forall i :: 0 <= i < |parts| ==> |parts[i]| < MAX_NAME
  }

  /** The names with a slash between any two. */
  function Joined(names: seq<Bytes>): Bytes {
    if names == [] then []
    else if |names| == 1 then names[0]
    else names[0] + [SLASH] + Joined(names[1..])
  }

  function AbsolutePath(names: seq<Bytes>): Bytes {
    [SLASH] + Joined(names)
  }

  lemma {:induction false} JoinedSnoc(names: seq<Bytes>, c: Bytes)
    requires names != []
    ensures Joined(names + [c]) == Joined(names) + [SLASH] + c
    decreases |names|
  {
    var longer := names + [c];
    assert longer[0] == names[0] && longer[1..] == names[1..] + [c];
    if |names| > 1 {
      JoinedSnoc(names[1..], c);
    }
  }

  lemma IndexOfUnique(b: Bytes, x: Byte, i: nat)
    requires i <= |b| && (i < |b| ==> b[i] == x) && forall j :: 0 <= j < i ==> b[j] != x
    ensures IndexOf(b, x) == i
  {
  }

  lemma SplitCons(name: Bytes, more: Bytes)
    requires SLASH !in name
    ensures SplitAll(name + [SLASH] + more) == [name] + SplitAll(more)
  {
    hide SplitAll;
    assert name + [SLASH] + more == name + ([SLASH] + more);
    FirstOf(name, [SLASH] + more);
    assert ([SLASH] + more)[1..] == more;
    SplitFirst(name + [SLASH] + more);
  }

  lemma SplitFirst(b: Bytes)
    requires b != []
    ensures SplitAll(b) == [Before(b, SLASH)] + SplitAll(After(b, SLASH))
  {
  }

  lemma SplitOne(name: Bytes)
    requires SLASH !in name
    ensures SplitAll(name) == if name == [] then [] else [name]
  {
    FirstOf(name, []);
    assert name + [] == name;
  }

  /** A path built from names splits into them again, except that an empty name at the end is lost. */
  lemma {:induction false} SplitJoined(names: seq<Bytes>)
    requires forall i :: 0 <= i < |names| ==> SLASH !in names[i]
    ensures SplitAll(Joined(names))
            == if names != [] && names[|names| - 1] == [] then names[..|names| - 1] else names
    decreases |names|
  {
    hide SplitAll;
    if names == [] {
      SplitOne([]);
    } else if |names| == 1 {
      SplitOne(names[0]);
      assert names == [names[0]];
    } else {
      var rest := names[1..];
      assert Joined(names) == names[0] + [SLASH] + Joined(rest);
      SplitCons(names[0], Joined(rest));
      SplitJoined(rest);
      assert names == [names[0]] + rest;
    }
  }

  /** A name followed by nothing or by a slash and more. */
  lemma FirstOf(name: Bytes, more: Bytes)
    requires SLASH !in name && (more != [] ==> more[0] == SLASH)
    ensures Before(name + more, SLASH) == name && After(name + more, SLASH) == if more == [] then [] else more[1..]
  {
    IndexOfUnique(name + more, SLASH, |name|);
  }

  /** The string of an absolute path splits back into its components exactly if the last of them is not empty. */
  lemma SplitsBackIff(names: seq<Bytes>)
    requires forall i :: 0 <= i < |names| ==> SLASH !in names[i]
    ensures IsAbsolute(AbsolutePath(names))
    ensures Parts(AbsolutePath(names)) == names <==> names == [] || names[|names| - 1] != []
  {
    SplitJoined(names);
    assert AbsolutePath(names)[1..] == Joined(names);
  }

  class PathBuffer {
    const components: array<Bytes>
    var count: nat
    var absolute: bool

    ghost predicate Valid()
      reads this
    {
      components.Length == MAX_COMPONENTS && count <= MAX_COMPONENTS
    }

    ghost function List(): seq<Bytes>
      requires Valid()
      reads this, components
    {
      components[..count]
    }

    constructor ()
      ensures Valid() && fresh(components) && List() == [] && !absolute
    {
      components := new Bytes[MAX_COMPONENTS](_ => []);
      count, absolute := 0, false;
    }

    /** `path_split`, onto a buffer whose old contents do not matter. */
    method Split(path: Bytes) returns (ok: bool)
      requires Valid()
      modifies this, components
      ensures Valid()
      ensures ok == Fits(Parts(path))
      ensures ok ==> absolute == IsAbsolute(path) && List() == Parts(path)
    {
      hide SplitAll, Before, After, Fits;
      count, absolute := 0, false;
      NothingFits();
      var i := 0;
      if |path| > 0 && path[0] == SLASH {
        absolute := true;
        i := 1;
      }
      assert path[0..] == path;
      assert List() == [];
      while i < |path|
        invariant Valid() && absolute == IsAbsolute(path)
        invariant i <= |path| && Parts(path) == List() + SplitAll(path[i..])
        invariant Fits(List())
      {
        ghost var before, rest := List(), path[i..];
        SplitStep(Parts(path), before, rest);
        if count >= MAX_COMPONENTS {
          return false;
        }
        var component, j;
        ok, component, j := ReadComponent(path, i);
        if !ok {
          return;
        }
        components[count] := component;
        count := count + 1;
        assert List() == before + [component];
        i := if j < |path| then j + 1 else j;
      }
      NothingLeft(path);
      assert List() + [] == List();
      ok := true;
    }

    /** Joins `input` to `current` unless it is absolute, normalizes, and writes the result behind a slash. */
    static method BuildAbsolute(current: Bytes, input: Bytes) returns (output: Option<Bytes>)
      ensures output == if Buildable(current, input) then Some(AbsolutePath(Combined(current, input))) else None
    {
      var path := new PathBuffer();
      var ok;
      if |input| > 0 && input[0] == SLASH {
        ok := path.Split(input);
      } else {
        ok := path.Concatenate(current, input);
      }
      if !ok {
        return None;
      }
      path.Normalize();
      output := path.Print();
    }

    /** The two splits and the copying of `path_build_absolute`. */
    method Concatenate(current: Bytes, input: Bytes) returns (ok: bool)
      requires Valid()
      modifies this, components
      ensures Valid()
      ensures ok == (Fits(Parts(current)) && Fits(Parts(input)) && |Parts(current)| + |Parts(input)| <= MAX_COMPONENTS)
      ensures ok ==> absolute == IsAbsolute(current) && List() == Parts(current) + Parts(input)
    {
      hide Fits, Parts, IsAbsolute;
      var base := new PathBuffer();
      var rest := new PathBuffer();
      ok := base.Split(current);
      if !ok {
        return;
      }
      ok := rest.Split(input);
      if !ok {
        return;
      }
      if base.count + rest.count > MAX_COMPONENTS {
        return false;
      }
      absolute, count := base.absolute, 0;
      CopyFrom(base);
      CopyFrom(rest);
      assert List() == Parts(current) + Parts(input);
    }

    /** Appends the components of another buffer. */
    method CopyFrom(other: PathBuffer)
      requires Valid() && other.Valid() && other != this && other.components != components
      requires count + other.count <= MAX_COMPONENTS
      modifies this`count, components
      ensures Valid() && List() == old(List()) + other.List()
    {
      var i := 0;
      while i < other.count
        invariant 0 <= i <= other.count && count == old(count) + i && components.Length == MAX_COMPONENTS
        invariant components[..count] == old(components[..count]) + other.components[..i]
        invariant other.components[..] == old(other.components[..])
      {
        components[count] := other.components[i];
        count := count + 1;
        i := i + 1;
      }
    }

    /** `path_normalize`, in place: `write` never overtakes `read`. */
    method Normalize()
      requires Valid()
      modifies this`count, components
      ensures Valid() && List() == Norm(absolute, old(List()))
    {
      hide Norm, Push;
      var write, read := 0, 0;
      NormNothing(absolute);
      ghost var list := List();
      while read < count
        invariant 0 <= write <= read <= count == old(count) && Valid()
        invariant components[..write] == Norm(absolute, list[..read])
        invariant forall k :: read <= k < count ==> components[k] == list[k]
      {
        NormStep(absolute, list, read);
        write := Place(write, components[read]);
        read := read + 1;
      }
      assert list[..read] == list;
      count := write;
    }

    /** The loop body of `path_normalize`: one component onto the first `write` ones. */
    method Place(write: nat, component: Bytes) returns (write': nat)
      requires Valid() && write < MAX_COMPONENTS
      modifies components
      ensures write' <= write + 1
      ensures components[..write'] == Push(absolute, old(components[..write]), component)
      ensures forall k :: write < k < MAX_COMPONENTS ==> components[k] == old(components[k])
    {
      ghost var normal := components[..write];
      write' := write;
      if component == DOT {
        return;
      }
      if component == DOTDOT {
        if write > 0 && components[write - 1] != DOTDOT {
          write' := write - 1;
          assert components[..write'] == normal[..write'];
        } else if !absolute {
          components[write] := component;
          write' := write + 1;
          assert components[..write'] == normal + [DOTDOT];
        }
        return;
      }
      components[write] := component;
      write' := write + 1;
      assert components[..write'] == normal + [component];
    }

    /** The output loop of `path_build_absolute`. */
    method Print() returns (output: Option<Bytes>)
      requires Valid()
      ensures output == if |AbsolutePath(List())| < OUTPUT_CAPACITY then Some(AbsolutePath(List())) else None
    {
      var text: Bytes := [SLASH];
      var i := 0;
      while i < count
        invariant 0 <= i <= count
        invariant text == AbsolutePath(components[..i]) && |text| < OUTPUT_CAPACITY
      {
        PrintStep(components[..count], i);
        assert components[..count][..i] == components[..i] && components[..count][..i + 1] == components[..i + 1];
        var separator := if i != 0 then 1 else 0;
        if |text| + separator + |components[i]| >= OUTPUT_CAPACITY {
          return None;
        }
        text := text + (if i != 0 then [SLASH] else []) + components[i];
        i := i + 1;
      }
      output := Some(text);
    }
  }

  /** The inner loop of `path_split`: the bytes up to the next slash. */
  method ReadComponent(path: Bytes, i: nat) returns (ok: bool, component: Bytes, j: nat)
    requires i < |path|
    ensures ok == (|Before(path[i..], SLASH)| < MAX_NAME)
    ensures ok ==> i <= j <= |path| && component == Before(path[i..], SLASH) && (component == [] ==> j < |path|)
    ensures ok ==> path[if j < |path| then j + 1 else j..] == After(path[i..], SLASH)
  {
    component, j := [], i;
    while j < |path| && path[j] != SLASH
      invariant i <= j <= |path| && component == path[i..j] && |component| < MAX_NAME
      invariant forall k :: i <= k < j ==> path[k] != SLASH
    {
      if |component| >= MAX_NAME - 1 {
        assert forall k :: 0 <= k <= j - i ==> path[i..][k] == path[i + k] != SLASH;
        return false, component, j;
      }
      component := component + [path[j]];
      j := j + 1;
    }
    IndexOfUnique(path[i..], SLASH, j - i);
    assert path[i..][..j - i] == path[i..j];
    ok := true;
  }

  lemma NormStep(absolute: bool, list: seq<Bytes>, i: nat)
    requires i < |list|
    ensures Norm(absolute, list[..i + 1]) == Push(absolute, Norm(absolute, list[..i]), list[i])
  {
    assert list[..i + 1][..i] == list[..i];
  }

  lemma NormNothing(absolute: bool)
    ensures Norm(absolute, []) == []
  {
  }

  lemma NothingFits()
    ensures Fits([])
  {
  }

  lemma NothingLeft(path: Bytes)
    ensures SplitAll(path[|path|..]) == []
  {
  }

  /** What the next component has to do with the limits. */
  lemma SplitStep(parts: seq<Bytes>, before: seq<Bytes>, rest: Bytes)
    requires rest != [] && parts == before + SplitAll(rest) && Fits(before)
    ensures parts == (before + [Before(rest, SLASH)]) + SplitAll(After(rest, SLASH))
    ensures |before| >= MAX_COMPONENTS || |Before(rest, SLASH)| >= MAX_NAME ==> !Fits(parts)
    ensures !(|before| >= MAX_COMPONENTS || |Before(rest, SLASH)| >= MAX_NAME) ==> Fits(before + [Before(rest, SLASH)])
  {
    assert SplitAll(rest) == [Before(rest, SLASH)] + SplitAll(After(rest, SLASH));
    assert parts[|before|] == Before(rest, SLASH);
  }

  lemma PrintStep(names: seq<Bytes>, i: nat)
    requires i < |names|
    ensures AbsolutePath(names[..i + 1])
            == AbsolutePath(names[..i]) + (if i != 0 then [SLASH] else []) + names[i]
    ensures |AbsolutePath(names[..i + 1])| <= |AbsolutePath(names)|
  {
    assert names[..i + 1] == names[..i] + [names[i]];
    if i != 0 {
      JoinedSnoc(names[..i], names[i]);
    }
    JoinedGrows(names, i + 1);
  }

  lemma {:induction false} JoinedGrows(names: seq<Bytes>, i: nat)
    requires 0 < i <= |names|
    ensures |Joined(names[..i])| <= |Joined(names)|
    decreases |names| - i
  {
    if i < |names| {
      assert names[..i + 1] == names[..i] + [names[i]];
      JoinedSnoc(names[..i], names[i]);
      JoinedGrows(names, i + 1);
    } else {
      assert names[..i] == names;
    }
  }

  /** The normalized components `path_build_absolute` writes out. */
  function Combined(current: Bytes, input: Bytes): seq<Bytes> {
    if IsAbsolute(input) then Norm(true, Parts(input))
    else Norm(IsAbsolute(current), Parts(current) + Parts(input))
  }

  /** When `path_build_absolute` succeeds. */
  ghost predicate Buildable(current: Bytes, input: Bytes) {
    && Fits(Parts(input))
    && (IsAbsolute(input) || (Fits(Parts(current)) && |Parts(current)| + |Parts(input)| <= MAX_COMPONENTS))
    && |AbsolutePath(Combined(current, input))| < OUTPUT_CAPACITY
  }

  lemma {:induction false} NormFrom(absolute: bool, components: seq<Bytes>)
    ensures forall c :: c in Norm(absolute, components) ==> c in components
    decreases |components|
  {
    if components != [] {
      NormFrom(absolute, components[..|components| - 1]);
    }
  }

  lemma {:induction false} NormShorter(absolute: bool, components: seq<Bytes>)
    ensures |Norm(absolute, components)| <= |components|
    decreases |components|
  {
    if components != [] {
      NormShorter(absolute, components[..|components| - 1]);
    }
  }

  /** What can be built is within the limits of `path_t` again. */
  lemma CombinedFits(current: Bytes, input: Bytes)
    requires Buildable(current, input)
    ensures Fits(Combined(current, input))
  {
    hide SplitAll, Norm, Joined;
    NormFrom(true, Parts(input));
    NormShorter(true, Parts(input));
    NormFrom(IsAbsolute(current), Parts(current) + Parts(input));
    NormShorter(IsAbsolute(current), Parts(current) + Parts(input));
    forall i | 0 <= i < |Combined(current, input)| ensures |Combined(current, input)[i]| < MAX_NAME {
      assert Combined(current, input)[i] in Combined(current, input);
    }
  }

  lemma CombinedHasNoSlash(current: Bytes, input: Bytes)
    ensures forall i :: 0 <= i < |Combined(current, input)| ==> SLASH !in Combined(current, input)[i]
  {
    hide SplitAll, Norm;
    var a, b := if IsAbsolute(current) then current[1..] else current, if IsAbsolute(input) then input[1..] else input;
    PartsHaveNoSlash(a);
    PartsHaveNoSlash(b);
    NormFrom(true, Parts(input));
    NormFrom(IsAbsolute(current), Parts(current) + Parts(input));
    forall i | 0 <= i < |Combined(current, input)| ensures SLASH !in Combined(current, input)[i] {
      assert Combined(current, input)[i] in Combined(current, input);
    }
  }

  /** A string with a slash, at its first one. */
  lemma CutAtSlash(x: Bytes) returns (name: Bytes, rest: Bytes)
    requires SLASH in x
    ensures x == name + [SLASH] + rest && SLASH !in name
  {
    var i := IndexOf(x, SLASH);
    assert i < |x|;
    name, rest := x[..i], x[i + 1..];
  }

  /** A string that does not end in a slash, a slash and another string split into the components of both. */
  lemma {:induction false} SplitAppended(x: Bytes, y: Bytes)
    requires x != [] && x[|x| - 1] != SLASH
    ensures SplitAll(x + [SLASH] + y) == SplitAll(x) + SplitAll(y)
    decreases |x|
  {
    hide SplitAll;
    if SLASH in x {
      var name, rest := CutAtSlash(x);
      assert rest[|rest| - 1] == x[|x| - 1];
      SplitAppended(rest, y);
      assert x + [SLASH] + y == name + [SLASH] + (rest + [SLASH] + y);
      SplitCons(name, rest + [SLASH] + y);
      SplitCons(name, rest);
    } else {
      SplitCons(x, y);
      SplitOne(x);
    }
  }

  /** Following two relative inputs one after the other is following them joined by a slash: the same components, and
      the joined input can be built if the three lists of components fit into one buffer, which the single steps do not
      need. */
  lemma BuildComposes(current: Bytes, x: Bytes, y: Bytes)
    requires IsAbsolute(current) && !IsAbsolute(x) && !IsAbsolute(y) && x != [] && x[|x| - 1] != SLASH
    requires var names := Combined(current, x); names == [] || names[|names| - 1] != []
    ensures Combined(AbsolutePath(Combined(current, x)), y) == Combined(current, x + [SLASH] + y)
    ensures Buildable(current, x) && Buildable(AbsolutePath(Combined(current, x)), y) ==>
              (Buildable(current, x + [SLASH] + y)
               <==> |Parts(current)| + |Parts(x)| + |Parts(y)| <= MAX_COMPONENTS)
  {
    hide Norm, SplitAll, Joined;
    CombinedHasNoSlash(current, x);
    SplitsBackIff(Combined(current, x));
    SplitAppended(x, y);
    assert (x + [SLASH] + y)[0] == x[0];
    NormJoins(Parts(current) + Parts(x), Parts(y));
    assert Parts(current) + (Parts(x) + Parts(y)) == Parts(current) + Parts(x) + Parts(y);
  }
}
