/** The file allocation table as a sequence of 28-bit entries indexed by cluster number, and the
    cluster chains threaded through it. Entries 0 and 1 are reserved. */
module Chains {

  const CLUSTER_FREE: nat := 0
  const CLUSTER_EOC: nat := 0x0FFF_FFFF
  const CLUSTER_LAST: nat := 0x0FFF_FFF8
  const INVALID_CLUSTER: nat := 0xFFFF_FFFF

  type Fat = seq<nat>

  predicate InRange(fat: Fat, c: nat) {
    2 <= c < |fat|
  }

  /** What `fat32_next_cluster` answers: the successor, or INVALID_CLUSTER at the end of a chain. */
  function Next(fat: Fat, c: nat): nat {
    if !InRange(fat, c) || fat[c] >= CLUSTER_LAST then INVALID_CLUSTER else fat[c]
  }

  ghost predicate Distinct(s: seq<nat>) {
    forall i, j :: 0 <= i < j < |s| ==> s[i] != s[j]
  }

  ghost predicate AllInRange(fat: Fat, s: seq<nat>) {
    forall i :: 0 <= i < |s| ==> InRange(fat, s[i])
  }

  /** `s` lists the clusters of an acyclic, end-marked chain of `fat`. */
  ghost predicate IsChain(fat: Fat, s: seq<nat>) {
    && |s| > 0
    && AllInRange(fat, s)
    && Distinct(s)
    && forall i {:trigger Next(fat, s[i])} :: 0 <= i < |s| ==>
         Next(fat, s[i]) == if i + 1 < |s| then s[i + 1] else INVALID_CLUSTER
  }

  ghost predicate Disjoint(s: seq<nat>, t: seq<nat>) {
    forall i, j :: 0 <= i < |s| && 0 <= j < |t| ==> s[i] != t[j]
  }

  // ----- pigeonhole -----

  ghost function Elements(s: seq<nat>): set<nat> {
    set x | x in s
  }

  ghost function Below(n: nat): (r: set<nat>)
    ensures |r| == n
    ensures forall x: nat :: x in r <==> x < n
  {
    if n == 0 then {} else Below(n - 1) + {n - 1}
  }

  lemma {:induction false} DistinctCardinality(s: seq<nat>)
    requires Distinct(s)
    ensures |Elements(s)| == |s|
  {
    if s != [] {
      var init, last := s[..|s| - 1], s[|s| - 1];
      DistinctCardinality(init);
      assert Elements(s) == Elements(init) + {last} by {
        assert s == init + [last];
      }
      assert last !in Elements(init);
    }
  }

  lemma SubsetCardinality(a: set<nat>, b: set<nat>)
    requires a <= b
    ensures |a| <= |b|
    ensures |a| == |b| ==> a == b
  {
    assert b == a + (b - a);
  }

  /** A duplicate-free list of clusters is no longer than the volume, and one of that length is all of it. */
  lemma Pigeonhole(fat: Fat, s: seq<nat>)
    requires |fat| >= 2 && AllInRange(fat, s) && Distinct(s)
    ensures |s| <= |fat| - 2
    ensures |s| == |fat| - 2 ==> forall c: nat :: InRange(fat, c) ==> c in s
  {
    var elements, low, all := Elements(s), Below(2), Below(|fat|);
    DistinctCardinality(s);
    assert elements !! low;
    assert |elements + low| == |elements| + |low|;
    SubsetCardinality(elements + low, all);
    if |s| == |fat| - 2 {
      forall c: nat | InRange(fat, c) ensures c in s {
        assert c in all;
      }
    }
  }

  // ----- chains as values -----

  /** The FAT determines a chain from its first cluster. */
  lemma ChainUnique(fat: Fat, s: seq<nat>, t: seq<nat>)
    requires |fat| < CLUSTER_LAST
    requires IsChain(fat, s) && IsChain(fat, t) && s[0] == t[0]
    ensures s == t
  {
    var n := if |s| <= |t| then |s| else |t|;
    ChainsAgree(fat, s, t, n - 1);
    assert Next(fat, s[n - 1]) == Next(fat, t[n - 1]);
  }

  lemma {:induction false} ChainsAgree(fat: Fat, s: seq<nat>, t: seq<nat>, n: nat)
    requires |fat| < CLUSTER_LAST
    requires IsChain(fat, s) && IsChain(fat, t) && s[0] == t[0]
    requires n < |s| && n < |t|
    ensures forall i :: 0 <= i <= n ==> s[i] == t[i]
  {
    if n > 0 {
      ChainsAgree(fat, s, t, n - 1);
      assert Next(fat, s[n - 1]) == s[n] && Next(fat, t[n - 1]) == t[n];
    }
  }

  /** A chain depends only on the entries of its own clusters. */
  lemma ChainFrame(fat: Fat, fat': Fat, s: seq<nat>)
    requires IsChain(fat, s) && |fat'| == |fat|
    requires forall i :: 0 <= i < |s| ==> fat'[s[i]] == fat[s[i]]
    ensures IsChain(fat', s)
  {
    forall i | 0 <= i < |s| ensures Next(fat', s[i]) == Next(fat, s[i]) {
    }
  }

  /** Linking a cluster that is not on the chain behind its last cluster lengthens the chain by that one. */
  lemma ChainExtend(fat: Fat, s: seq<nat>, c: nat, fat': Fat)
    requires |fat| < CLUSTER_LAST
    requires IsChain(fat, s) && InRange(fat, c) && c !in s
    requires fat' == fat[s[|s| - 1] := c][c := CLUSTER_EOC]
    ensures IsChain(fat', s + [c])
  {
    var t := s + [c];
    forall i | 0 <= i < |t|
      ensures Next(fat', t[i]) == if i + 1 < |t| then t[i + 1] else INVALID_CLUSTER
    {
      if i < |s| - 1 {
        assert Next(fat, s[i]) == s[i + 1];
        assert fat'[s[i]] == fat[s[i]];
      }
    }
  }

  /** The rest of a chain is a chain. */
  lemma ChainSuffix(fat: Fat, s: seq<nat>, k: nat)
    requires IsChain(fat, s) && k < |s|
    ensures IsChain(fat, s[k..])
  {
    var t := s[k..];
    forall i | 0 <= i < |t|
      ensures Next(fat, t[i]) == if i + 1 < |t| then t[i + 1] else INVALID_CLUSTER
    {
      assert Next(fat, s[k + i]) == if k + i + 1 < |s| then s[k + i + 1] else INVALID_CLUSTER;
    }
  }

  /** No cluster of a chain is marked free. */
  lemma ChainNotFree(fat: Fat, s: seq<nat>)
    requires IsChain(fat, s)
    ensures forall i :: 0 <= i < |s| ==> fat[s[i]] != CLUSTER_FREE
  {
    forall i | 0 <= i < |s| ensures fat[s[i]] != CLUSTER_FREE {
      assert Next(fat, s[i]) != CLUSTER_FREE;
    }
  }

  // ----- free clusters -----

  /** The free clusters from `i` on, in increasing order. */
  function FreeFrom(fat: Fat, i: nat): (s: seq<nat>)
    ensures forall j :: 0 <= j < |s| ==> i <= s[j] < |fat| && fat[s[j]] == CLUSTER_FREE
    decreases |fat| - i
  {
    if i >= |fat| then []
    else if fat[i] == CLUSTER_FREE then [i] + FreeFrom(fat, i + 1)
    else FreeFrom(fat, i + 1)
  }

  /** It lists exactly the free entries, each once, lowest first. */
  lemma {:induction false} FreeFromExact(fat: Fat, i: nat)
    ensures forall c: nat :: c in FreeFrom(fat, i) <==> i <= c < |fat| && fat[c] == CLUSTER_FREE
    ensures Increasing(FreeFrom(fat, i))
    decreases |fat| - i
  {
    if i < |fat| {
      FreeFromExact(fat, i + 1);
    }
  }

  ghost predicate Increasing(s: seq<nat>) {
    forall j, k :: 0 <= j < k < |s| ==> s[j] < s[k]
  }

  function FreeClusters(fat: Fat): seq<nat> {
    FreeFrom(fat, 2)
  }

  /** The lowest free cluster, or 0 when the volume is full. */
  function LowestFree(fat: Fat): nat {
    if FreeClusters(fat) == [] then 0 else FreeClusters(fat)[0]
  }

  lemma {:induction false} FreeFromSame(fat: Fat, fat': Fat, i: nat)
    requires |fat| == |fat'|
    requires forall c :: i <= c < |fat| ==> (fat[c] == CLUSTER_FREE <==> fat'[c] == CLUSTER_FREE)
    ensures FreeFrom(fat, i) == FreeFrom(fat', i)
    decreases |fat| - i
  {
    if i < |fat| {
      FreeFromSame(fat, fat', i + 1);
    }
  }

  /** Marking the lowest free cluster as used takes it off the front of the free list. */
  lemma {:induction false} FreeFromTake(fat: Fat, fat': Fat, i: nat)
    requires FreeFrom(fat, i) != [] && |fat| == |fat'|
    requires fat'[FreeFrom(fat, i)[0]] != CLUSTER_FREE
    requires forall c :: i <= c < |fat| && c != FreeFrom(fat, i)[0]
                         ==> (fat[c] == CLUSTER_FREE <==> fat'[c] == CLUSTER_FREE)
    ensures FreeFrom(fat', i) == FreeFrom(fat, i)[1..]
    decreases |fat| - i
  {
    FreeFromExact(fat, i);
    if fat[i] == CLUSTER_FREE {
      FreeFromSame(fat, fat', i + 1);
    } else {
      FreeFromTake(fat, fat', i + 1);
    }
  }

  // ----- allocation of a whole chain -----

  /** `fat` after the clusters of `s` have been marked and linked one after the other. */
  function Linked(fat: Fat, s: seq<nat>): (r: Fat)
    requires forall i :: 0 <= i < |s| ==> s[i] < |fat|
    ensures |r| == |fat|
  {
    if s == [] then fat
    else
      var last: nat := s[|s| - 1];
      var marked: Fat := Linked(fat, s[..|s| - 1])[last := CLUSTER_EOC];
      if |s| == 1 then marked else marked[s[|s| - 2] := last]
  }

  /** Linking makes `s` one chain and leaves every other entry alone. */
  lemma {:induction false} LinkedIsChain(fat: Fat, s: seq<nat>)
    requires |fat| < CLUSTER_LAST
    requires s != [] && AllInRange(fat, s) && Distinct(s)
    ensures IsChain(Linked(fat, s), s)
    ensures forall c: nat :: c < |fat| && c !in s ==> Linked(fat, s)[c] == fat[c]
  {
    var init: seq<nat>, last: nat := s[..|s| - 1], s[|s| - 1];
    if init != [] {
      LinkedIsChain(fat, init);
      var before: Fat := Linked(fat, init);
      assert last !in init;
      assert s == init + [last];
      assert Linked(fat, s) == before[init[|init| - 1] := last][last := CLUSTER_EOC];
      ChainExtend(before, init, last, Linked(fat, s));
    } else {
      assert Linked(fat, s) == fat[last := CLUSTER_EOC];
    }
  }

  // ----- freeing -----

  /** `fat` with every cluster of `s` marked free. */
  function Cleared(fat: Fat, s: seq<nat>): (r: Fat)
    ensures |r| == |fat|
    ensures forall c :: 0 <= c < |fat| ==> r[c] == if c in s then CLUSTER_FREE else fat[c]
  {
    seq(|fat|, c requires 0 <= c < |fat| => if c in s then CLUSTER_FREE else fat[c])
  }

  /** The clusters met when following `fat` from `c`, each listed once, after those in `seen`. */
  ghost function Trail(fat: Fat, c: nat, seen: seq<nat>): (t: seq<nat>)
    requires |fat| >= 2 && AllInRange(fat, seen) && Distinct(seen)
    ensures AllInRange(fat, t) && Distinct(t)
    decreases |fat| - |seen|
  {
    Pigeonhole(fat, seen);
    if !InRange(fat, c) || c in seen then seen
    else if fat[c] >= CLUSTER_LAST then seen + [c]
    else Trail(fat, fat[c], seen + [c])
  }

  /** Following `fat` from `c` meets every cluster of the volume and then comes back to one of them. */
  ghost predicate LoopsThroughAll(fat: Fat, c: nat)
    requires |fat| >= 2
  {
    var t := Trail(fat, c, []);
    |t| > 0 && |t| == |fat| - 2 && fat[t[|t| - 1]] in t
  }

  /** On a chain the trail from position `i` is the rest of the chain. */
  lemma {:induction false} TrailOfChain(fat: Fat, s: seq<nat>, i: nat)
    requires 2 <= |fat| < CLUSTER_LAST && IsChain(fat, s) && i < |s|
    ensures Trail(fat, s[i], s[..i]) == s
    decreases |s| - i
  {
    assert Next(fat, s[i]) == if i + 1 < |s| then s[i + 1] else INVALID_CLUSTER;
    assert s[..i + 1] == s[..i] + [s[i]];
    if i + 1 < |s| {
      TrailOfChain(fat, s, i + 1);
    } else {
      assert s[..i + 1] == s;
    }
  }

  /** A chain is its own trail, and following it never comes back: the guard against cyclic tables cannot fire. */
  lemma ChainTrail(fat: Fat, s: seq<nat>)
    requires 2 <= |fat| < CLUSTER_LAST && IsChain(fat, s)
    ensures Trail(fat, s[0], []) == s
    ensures !LoopsThroughAll(fat, s[0])
  {
    TrailOfChain(fat, s, 0);
    assert s[..0] == [];
    assert Next(fat, s[|s| - 1]) == INVALID_CLUSTER;
  }

  /** A state of the freeing loop: the clusters of `seen` have been freed, and unless the walk has met one of them
      again, it goes on at `cluster`. */
  ghost predicate Freeing(table: Fat, first: nat, fat: Fat, cluster: nat, freed: nat, seen: seq<nat>, cameBack: bool) {
    && |table| >= 2 && AllInRange(table, seen) && Distinct(seen)
    && fat == Cleared(table, seen)
    && Trail(table, first, []) == (if cameBack then seen else Trail(table, cluster, seen))
    && (cameBack ==> cluster == 0 && |seen| < |table| - 2)
    && (!cameBack ==> freed == |seen| && (seen != [] ==> cluster == table[seen[|seen| - 1]]))
  }

  lemma FreeingStep(table: Fat, first: nat, fat: Fat, cluster: nat, freed: nat, seen: seq<nat>)
    requires Freeing(table, first, fat, cluster, freed, seen, false)
    requires InRange(table, cluster) && freed < |table| - 2
    ensures cluster in seen ==> fat[cluster] == CLUSTER_FREE
                                && Freeing(table, first, fat[cluster := CLUSTER_FREE], 0, freed + 1, seen, true)
    ensures cluster !in seen ==> fat[cluster] == table[cluster]
    ensures cluster !in seen && fat[cluster] < CLUSTER_LAST ==>
              Freeing(table, first, fat[cluster := CLUSTER_FREE], fat[cluster], freed + 1, seen + [cluster], false)
    ensures cluster !in seen && fat[cluster] >= CLUSTER_LAST ==>
              && fat[cluster := CLUSTER_FREE] == Cleared(table, Trail(table, first, []))
              && Trail(table, first, []) == seen + [cluster]
  {
    if cluster in seen {
      assert fat[cluster := CLUSTER_FREE] == Cleared(table, seen);
    } else {
      assert fat[cluster := CLUSTER_FREE] == Cleared(table, seen + [cluster]);
    }
  }

  /** The walk has freed as many clusters as there are and is inside the table again. */
  lemma FreeingAborts(table: Fat, first: nat, fat: Fat, cluster: nat, freed: nat, seen: seq<nat>)
    requires Freeing(table, first, fat, cluster, freed, seen, false)
    requires InRange(table, cluster) && freed == |table| - 2
    ensures LoopsThroughAll(table, first) && fat == Cleared(table, Trail(table, first, []))
  {
    Pigeonhole(table, seen);
    assert cluster in seen;
  }

  lemma FreeingEnds(table: Fat, first: nat, fat: Fat, cluster: nat, freed: nat, seen: seq<nat>, cameBack: bool)
    requires Freeing(table, first, fat, cluster, freed, seen, cameBack) && !InRange(table, cluster)
    ensures !LoopsThroughAll(table, first) && fat == Cleared(table, Trail(table, first, []))
  {
  }

  /** On a well-formed chain, freeing marks exactly its clusters. */
  lemma FreeingAChain(fat: Fat, s: seq<nat>)
    requires 2 <= |fat| < CLUSTER_LAST && IsChain(fat, s)
    ensures Cleared(fat, Trail(fat, s[0], [])) == Cleared(fat, s)
    ensures !LoopsThroughAll(fat, s[0])
  {
    ChainTrail(fat, s);
  }

  /** Freeing a chain that has just been allocated restores the table. */
  lemma FreeUndoesAllocate(fat0: Fat, n: nat)
    requires 2 <= |fat0| < CLUSTER_LAST && 0 < n <= |FreeClusters(fat0)|
    ensures var s := FreeClusters(fat0)[..n];
            var fat := Linked(fat0, s);
            Cleared(fat, Trail(fat, s[0], [])) == fat0
  {
    FreeFromExact(fat0, 2);
    var s := FreeClusters(fat0)[..n];
    LinkedIsChain(fat0, s);
    FreeingAChain(Linked(fat0, s), s);
  }

  // ----- growing a chain one cluster at a time -----

  /** The chain `s` of `fat0` has become the chain `t` of `fat` by taking the lowest free clusters in order. */
  ghost predicate Grown(fat0: Fat, s: seq<nat>, fat: Fat, t: seq<nat>) {
    && |fat| == |fat0| && s <= t && IsChain(fat, t)
    && |t| - |s| <= |FreeClusters(fat0)|
    && t[|s|..] == FreeClusters(fat0)[..|t| - |s|]
    && FreeClusters(fat) == FreeClusters(fat0)[|t| - |s|..]
    && forall c: nat :: c < |fat| && c !in t ==> fat[c] == fat0[c]
  }

  lemma GrownStart(fat: Fat, s: seq<nat>)
    requires IsChain(fat, s)
    ensures Grown(fat, s, fat, s)
  {
  }

  lemma GrownStep(fat0: Fat, s: seq<nat>, fat: Fat, t: seq<nat>, c: nat, fat': Fat)
    requires |fat| < CLUSTER_LAST && Grown(fat0, s, fat, t)
    requires c == LowestFree(fat) != 0 && c !in t
    requires fat' == fat[t[|t| - 1] := c][c := CLUSTER_EOC]
    requires IsChain(fat', t + [c])
    ensures Grown(fat0, s, fat', t + [c])
  {
    var n, free := |t| - |s|, FreeClusters(fat0);
    assert FreeClusters(fat') == FreeClusters(fat)[1..] by {
      ChainNotFree(fat, t);
      FreeFromTake(fat, fat', 2);
    }
    TakeNext(free, t, s, c);
    forall x: nat | x < |fat'| && x !in t + [c] ensures fat'[x] == fat0[x] {
      assert x !in t && x != c && x != t[|t| - 1];
    }
  }

  lemma TakeNext(free: seq<nat>, t: seq<nat>, s: seq<nat>, c: nat)
    requires s <= t && |t| - |s| < |free| && t[|s|..] == free[..|t| - |s|] && c == free[|t| - |s|]
    ensures s <= t + [c] && (t + [c])[|s|..] == free[..|t| - |s| + 1]
    ensures free[|t| - |s|..][1..] == free[|t| - |s| + 1..]
  {
    assert (t + [c])[|s|..] == t[|s|..] + [c];
  }
}
