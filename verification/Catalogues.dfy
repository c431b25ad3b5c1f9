/** When a whole volume is consistent: every chain well formed, no two sharing a cluster, every chain but the
    root directory's owned by exactly one directory entry. Stated on the FAT and the cluster contents. */
module Catalogues {
  import opened Options
  import opened Words
  import opened Chains
  import opened Entries
  import opened Slots
  import opened Listings
  import opened Namespaces

  predicate IsDotName(name: Bytes) {
    name == DOT || name == DOTDOT
  }

  /** What an entry owns: the chain that starts at its cluster, unless it is one of the dot entries. */
  function LinkOf(e: DirEntry): Link {
    if !IsShown(e) || IsDotName(DisplayName(e.name)) || e.Cluster() == 0 then Nothing
    else if e.IsDirectory() then OwnsDirectory(e.Cluster())
    else OwnsFile(e.Cluster())
  }

  function LinksOf(slots: Directory): (links: Links)
    ensures |links| == |slots|
    ensures forall k :: 0 <= k < |slots| ==> links[k] == LinkOf(slots[k])
  {
    seq(|slots|, k requires 0 <= k < |slots| => LinkOf(slots[k]))
  }

  /** Dot names are directories' names, directories have a cluster, volume labels are plain. */
  ghost predicate GoodEntry(e: DirEntry) {
    && (IsShown(e) && IsDotName(DisplayName(e.name)) ==> e.IsDirectory())
    && (IsShown(e) && e.IsDirectory() ==> e.Cluster() != 0)
    && (!IsFree(e) && e.HasVolumeBit() ==> e.attributes == ATTR_VOLUME_ID || e.attributes == ATTR_LFN)
  }

  ghost predicate GoodSlots(slots: Directory) {
    && WellEnded(slots)
    && forall k :: 0 <= k < |slots| ==> GoodEntry(slots[k])
  }

  lemma GoodSlotsArePlain(slots: Directory)
    requires GoodSlots(slots)
    ensures PlainVolumeBits(slots)
  {
    forall k | 0 <= k < |slots| && !IsFree(slots[k]) && slots[k].HasVolumeBit()
      ensures slots[k].attributes == ATTR_VOLUME_ID || slots[k].attributes == ATTR_LFN
    {
      assert GoodEntry(slots[k]);
    }
  }

  type ChainMap = map<nat, seq<nat>>

  ghost predicate ChainOk(fat: Fat, chains: ChainMap, c: nat)
    requires c in chains
  {
    IsChain(fat, chains[c]) && chains[c][0] == c
  }

  ghost predicate ChainsOk(fat: Fat, chains: ChainMap) {
    && 2 <= |fat| < CLUSTER_LAST
    && (forall c :: c in chains ==> ChainOk(fat, chains, c))
    && (forall c, x :: c in chains && x in chains && c != x ==> Disjoint(chains[c], chains[x]))
  }

  ghost predicate InData(data: seq<Bytes>, s: seq<nat>) {
    forall i :: 0 <= i < |s| ==> s[i] < |data|
  }

  ghost predicate SameOn(data: seq<Bytes>, data': seq<Bytes>, s: seq<nat>) {
    |data| == |data'| && InData(data, s) && forall i :: 0 <= i < |s| ==> data'[s[i]] == data[s[i]]
  }

  /** The directory whose chain is `s` has good slots and owns `links`. */
  ghost predicate DirectoryOk(data: seq<Bytes>, s: seq<nat>, links: Links) {
    && InData(data, s)
    && LinksOf(ChainSlots(data, s)) == links
    && GoodSlots(ChainSlots(data, s))
  }

  /** Every chain of a file or directory, by first cluster, and who owns it. */
  datatype Catalogue = Catalogue(chains: ChainMap, ns: Namespace)

  ghost predicate Consistent(fat: Fat, data: seq<Bytes>, cat: Catalogue) {
    && |fat| == |data|
    && ChainsOk(fat, cat.chains)
    && cat.ns.Ok()
    && cat.chains.Keys == cat.ns.owner.Keys + {cat.ns.root}
    && forall d :: d in cat.ns.tree ==> DirectoryOk(data, cat.chains[d], cat.ns.tree[d])
  }

  lemma ConsistentParts(fat: Fat, data: seq<Bytes>, cat: Catalogue)
    requires Consistent(fat, data, cat)
    ensures |fat| == |data| && 2 <= |fat| < CLUSTER_LAST && ChainsOk(fat, cat.chains) && cat.ns.Ok()
    ensures cat.chains.Keys == cat.ns.owner.Keys + {cat.ns.root}
    ensures cat.ns.tree.Keys <= cat.chains.Keys && cat.ns.root in cat.ns.tree
  {
  }

  /** The catalogue once the directory at `d` has the chain `s'` and the slots `slots'`, and who owns what has not
      changed. */
  ghost function WithSlots(cat: Catalogue, d: nat, s': seq<nat>, slots': Directory): Catalogue {
    Catalogue(cat.chains[d := s'], cat.ns.(tree := cat.ns.tree[d := LinksOf(slots')]))
  }

  /** The catalogue once the directory at `d` has the slots `slots'` and the chain at `c` is gone. */
  ghost function WithoutChain(cat: Catalogue, d: nat, c: nat, slots': Directory): Catalogue {
    Catalogue(cat.chains - {c},
              Namespace(cat.ns.root, cat.ns.tree[d := LinksOf(slots')] - {c}, cat.ns.owner - {c}))
  }

  /** Of all the clusters only those of `s` have changed, and now hold the slots `slots`. */
  ghost predicate SlotsRewritten(data0: seq<Bytes>, data: seq<Bytes>, s: seq<nat>, slots: Directory) {
    && |data| == |data0| && InData(data, s) && ChainSlots(data, s) == slots
    && forall x: nat :: x < |data| && x !in s ==> data[x] == data0[x]
  }

  ghost function SlotsAt(data: seq<Bytes>, chains: ChainMap, d: nat): Directory {
    if d in chains && InData(data, chains[d]) then ChainSlots(data, chains[d]) else []
  }

  lemma DirectoryKnown(fat: Fat, data: seq<Bytes>, cat: Catalogue, d: nat)
    requires Consistent(fat, data, cat) && d in cat.ns.tree
    ensures d in cat.chains && ChainOk(fat, cat.chains, d) && DirectoryOk(data, cat.chains[d], cat.ns.tree[d])
    ensures SlotsAt(data, cat.chains, d) == ChainSlots(data, cat.chains[d])
    ensures PlainVolumeBits(SlotsAt(data, cat.chains, d))
    ensures LinksOf(SlotsAt(data, cat.chains, d)) == cat.ns.tree[d] && GoodSlots(SlotsAt(data, cat.chains, d))
    ensures IsChain(fat, cat.chains[d]) && cat.chains[d][0] == d && InData(data, cat.chains[d])
  {
    assert DirectoryOk(data, cat.chains[d], cat.ns.tree[d]);
    GoodSlotsArePlain(ChainSlots(data, cat.chains[d]));
  }

  // ----- parents -----

  /** The entry the directory at `d` lists under `name`. */
  ghost function EntryIn(data: seq<Bytes>, cat: Catalogue, d: nat, name: Bytes): Option<DirEntry> {
    FindListed(Listing(SlotsAt(data, cat.chains, d)), name)
  }

  /** `..` leads to the directory that owns this one, the root has none; no directory has an empty name. */
  ghost predicate ParentsOk(data: seq<Bytes>, cat: Catalogue) {
    forall d :: d in cat.ns.tree ==> ParentOk(data, cat, d)
  }

  ghost predicate ParentOk(data: seq<Bytes>, cat: Catalogue, d: nat) {
    var up, unnamed := EntryIn(data, cat, d, DOTDOT), EntryIn(data, cat, d, []);
    && (up.Some? ==> d in cat.ns.owner && up.value.Cluster() == cat.ns.owner[d].dir)
    && (unnamed.Some? ==> !unnamed.value.IsDirectory())
  }

  // ----- where directories hang -----

  /** The depth of every directory: each lies below the one that owns it. */
  ghost predicate Ranked(ns: Namespace, depth: map<nat, nat>) {
    && depth.Keys == ns.tree.Keys
    && forall d :: d in ns.tree && d != ns.root ==> IsBelow(ns, depth, d)
  }

  ghost predicate IsBelow(ns: Namespace, depth: map<nat, nat>, d: nat) {
    d in depth && d in ns.owner && ns.owner[d].dir in depth && depth[ns.owner[d].dir] < depth[d]
  }

  /** No directories own each other in a circle, so every one of them hangs from the root. */
  ghost predicate Rooted(ns: Namespace) {
    exists depth :: Ranked(ns, depth)
  }

  lemma AboveIsDirectory(ns: Namespace, depth: map<nat, nat>, d: nat)
    requires ns.Ok() && Ranked(ns, depth) && d in ns.tree && d != ns.root
    ensures d in depth && d in ns.owner && ns.owner[d].dir in ns.tree && ns.owner[d].dir in depth
    ensures depth[ns.owner[d].dir] < depth[d]
  {
    assert IsBelow(ns, depth, d);
  }

  /** The directories between the root and `d`, each owned by the one before. */
  lemma {:induction false} HangsFromRoot(ns: Namespace, depth: map<nat, nat>, d: nat) returns (path: seq<nat>)
    requires ns.Ok() && Ranked(ns, depth) && d in ns.tree
    ensures path != [] && path[0] == ns.root && path[|path| - 1] == d
    ensures forall i :: 0 <= i < |path| ==> path[i] in ns.tree
    ensures forall i :: 0 < i < |path| ==> path[i] in ns.owner && ns.owner[path[i]].dir == path[i - 1]
    decreases if d in depth then depth[d] else 0
  {
    hide Ranked, Namespace.Ok;
    if d == ns.root {
      path := [d];
    } else {
      AboveIsDirectory(ns, depth, d);
      var up := HangsFromRoot(ns, depth, ns.owner[d].dir);
      path := up + [d];
    }
  }

  // ----- chains -----

  /** A chain grows, or a new one appears, out of free clusters only: the others are not affected. */
  lemma ChainsGrow(fat: Fat, chains: ChainMap, c: nat, t: seq<nat>, fat': Fat)
    requires ChainsOk(fat, chains) && t != [] && t[0] == c
    requires Grown(fat, if c in chains then chains[c] else [], fat', t)
    ensures ChainsOk(fat', chains[c := t])
    ensures forall x :: x in chains && x != c ==> Disjoint(chains[x], t)
  {
    var s := if c in chains then chains[c] else [];
    var chains' := chains[c := t];
    forall x | x in chains && x != c
      ensures Disjoint(chains[x], t) && IsChain(fat', chains[x])
    {
      assert ChainOk(fat, chains, x);
      NewClustersDisjoint(fat, s, fat', t, chains[x]);
    }
    forall x | x in chains' ensures ChainOk(fat', chains', x) {
      assert x != c ==> ChainOk(fat, chains, x);
    }
  }

  /** A chain disjoint from `s` stays a chain and disjoint when `s` grows to `t`. */
  lemma NewClustersDisjoint(fat: Fat, s: seq<nat>, fat': Fat, t: seq<nat>, other: seq<nat>)
    requires Grown(fat, s, fat', t) && IsChain(fat, other) && Disjoint(other, s)
    ensures Disjoint(other, t) && IsChain(fat', other)
  {
    ChainNotFree(fat, other);
    forall i, j | 0 <= i < |other| && 0 <= j < |t| ensures other[i] != t[j] {
      if j >= |s| {
        assert t[j] == t[|s|..][j - |s|] == FreeClusters(fat)[j - |s|];
      }
    }
    ChainFrame(fat, fat', other);
  }

  /** Freeing one chain leaves the others as they are. */
  lemma ChainsFree(fat: Fat, chains: ChainMap, c: nat, fat': Fat)
    requires ChainsOk(fat, chains) && c in chains && fat' == Cleared(fat, chains[c])
    ensures ChainsOk(fat', chains - {c})
  {
    var chains' := chains - {c};
    forall x | x in chains' ensures ChainOk(fat', chains', x) {
      assert ChainOk(fat, chains, x);
      assert Disjoint(chains[x], chains[c]);
      ChainFrame(fat, fat', chains[x]);
    }
  }

  /** No chain contains the lowest free cluster. */
  lemma FreeIsUnused(fat: Fat, chains: ChainMap)
    requires ChainsOk(fat, chains)
    ensures forall x :: x in chains ==> LowestFree(fat) !in chains[x]
  {
    if LowestFree(fat) != 0 {
      forall x | x in chains ensures LowestFree(fat) !in chains[x] {
        assert ChainOk(fat, chains, x);
        ChainNotFree(fat, chains[x]);
      }
    } else {
      forall x | x in chains ensures LowestFree(fat) !in chains[x] {
        assert ChainOk(fat, chains, x);
      }
    }
  }

  // ----- directories -----

  lemma DirectoryFrame(data: seq<Bytes>, data': seq<Bytes>, s: seq<nat>, links: Links)
    requires DirectoryOk(data, s, links) && SameOn(data, data', s)
    ensures DirectoryOk(data', s, links) && ChainSlots(data', s) == ChainSlots(data, s)
  {
    ChainSlotsFrame(data, data', s);
  }

  /** A directory the emptiness test passes owns nothing. */
  lemma EmptyOwnsNothing(slots: Directory)
    requires GoodSlots(slots) && !Found(slots, NotDot)
    ensures OwnsNothing(LinksOf(slots))
  {
    var f := First(slots, NotDot);
    forall k | 0 <= k < |slots| ensures LinkOf(slots[k]).Nothing? {
      if k < f {
        assert Judge(slots[k], NotDot) == Skip;
        AttributeBits();
      } else if f < k {
        assert Judge(slots[f], NotDot) == Stop;
        assert IsFree(slots[k]);
      }
    }
  }

  // ----- putting a changed volume together -----

  /** Outside the chains in `touched` nothing has changed. */
  ghost predicate Kept(data: seq<Bytes>, chains: ChainMap, data': seq<Bytes>, chains': ChainMap, touched: set<nat>) {
    && |data'| == |data|
    && forall x :: x in chains && x !in touched ==>
         x in chains' && chains'[x] == chains[x] && SameOn(data, data', chains[x])
  }

  lemma KeptAll(fat: Fat, data: seq<Bytes>, cat: Catalogue, touched: set<nat>)
    requires Consistent(fat, data, cat)
    ensures Kept(data, cat.chains, data, cat.chains, touched)
  {
    forall x | x in cat.chains ensures SameOn(data, data, cat.chains[x]) {
      assert ChainOk(fat, cat.chains, x);
    }
  }

  /** A directory that was not touched has the slots it had. */
  lemma KeptSlots(fat: Fat, data: seq<Bytes>, cat: Catalogue, data': seq<Bytes>, chains': ChainMap, touched: set<nat>,
                  d: nat)
    requires Consistent(fat, data, cat) && Kept(data, cat.chains, data', chains', touched)
    requires d in cat.ns.tree && d !in touched
    ensures SlotsAt(data', chains', d) == SlotsAt(data, cat.chains, d)
  {
    DirectoryKnown(fat, data, cat, d);
    ChainSlotsFrame(data, data', cat.chains[d]);
  }

  lemma Rebuilt(fat: Fat, data: seq<Bytes>, cat: Catalogue, fat': Fat, data': seq<Bytes>, cat': Catalogue,
                touched: set<nat>)
    requires Consistent(fat, data, cat)
    requires ChainsOk(fat', cat'.chains) && |fat'| == |data'| && cat'.ns.Ok()
    requires cat'.chains.Keys == cat'.ns.owner.Keys + {cat'.ns.root}
    requires Kept(data, cat.chains, data', cat'.chains, touched)
    requires forall x :: x in cat'.ns.tree && x !in touched ==> x in cat.ns.tree && cat'.ns.tree[x] == cat.ns.tree[x]
    requires forall x :: x in cat'.ns.tree && x in touched ==> DirectoryOk(data', cat'.chains[x], cat'.ns.tree[x])
    ensures Consistent(fat', data', cat')
  {
    forall x | x in cat'.ns.tree ensures DirectoryOk(data', cat'.chains[x], cat'.ns.tree[x]) {
      if x !in touched {
        DirectoryFrame(data, data', cat.chains[x], cat.ns.tree[x]);
      }
    }
  }

  /** Changes confined to two chains, one of them grown out of free clusters, keep the others. */
  lemma KeptOutside(fat: Fat, data: seq<Bytes>, chains: ChainMap, c: nat, t: seq<nat>, fat': Fat, data': seq<Bytes>,
                    d: nat)
    requires ChainsOk(fat, chains) && |fat| == |data| == |data'| && d in chains && t != [] && t[0] == c
    requires Grown(fat, if c in chains then chains[c] else [], fat', t)
    requires forall x: nat :: x < |data'| && x !in t && x !in chains[d] ==> data'[x] == data[x]
    ensures ChainsOk(fat', chains[c := t])
    ensures Kept(data, chains, data', chains[c := t], {c, d})
  {
    ChainsGrow(fat, chains, c, t, fat');
    forall x | x in chains && x !in {c, d} ensures SameOn(data, data', chains[x]) {
      assert ChainOk(fat, chains, x) && Disjoint(chains[x], chains[d]) && Disjoint(chains[x], t);
    }
  }

  // ----- other catalogues -----

  /** Another catalogue of the same chains, files and directories. */
  ghost predicate SameShape(cat: Catalogue, cat': Catalogue) {
    cat'.chains == cat.chains && cat'.ns.root == cat.ns.root && cat'.ns.tree.Keys == cat.ns.tree.Keys
  }

  lemma SameShapeParts(cat: Catalogue, cat': Catalogue)
    requires SameShape(cat, cat')
    ensures cat'.chains == cat.chains && cat'.ns.root == cat.ns.root && cat'.ns.tree.Keys == cat.ns.tree.Keys
  {
  }

  lemma SameShapeItself(cat: Catalogue)
    ensures SameShape(cat, cat)
  {
  }

  lemma OwnersKnown(fat: Fat, data: seq<Bytes>, cat: Catalogue)
    requires Consistent(fat, data, cat)
    ensures cat.ns.Ok() && cat.ns.owner.Keys == cat.chains.Keys - {cat.ns.root}
  {
    hide ChainsOk, DirectoryOk, Namespace.OwnerOk, Namespace.LinkOk;
  }

  lemma OwnsCluster(link: Link, x: nat)
    requires link.Owns(x)
    ensures !link.Nothing? && link.cluster == x
  {
  }

  /** The slot that owns the chain at `x`. */
  lemma OwnerSlot(fat: Fat, data: seq<Bytes>, cat: Catalogue, x: nat)
    requires Consistent(fat, data, cat) && x in cat.ns.owner
    ensures var home := cat.ns.owner[x];
            && home.dir in cat.ns.tree && home.slot < |SlotsAt(data, cat.chains, home.dir)|
            && LinkOf(SlotsAt(data, cat.chains, home.dir)[home.slot]).Owns(x)
  {
    hide ChainsOk, ChainSlots, IsShown, DisplayName, IsDotName;
    assert cat.ns.OwnerOk(x);
    DirectoryKnown(fat, data, cat, cat.ns.owner[x].dir);
  }

  lemma SlotsAre(data: seq<Bytes>, chains: ChainMap, d: nat)
    requires d in chains && InData(data, chains[d])
    ensures SlotsAt(data, chains, d) == ChainSlots(data, chains[d])
  {
  }
}
