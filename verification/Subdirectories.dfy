/** Making a directory: its first cluster is taken before the name and the parent have been checked, so every
    later failure has to give it back. */
module Subdirectories {
  import opened Options
  import opened Words
  import opened Chains
  import opened Fat32
  import opened Entries
  import opened Slots
  import opened Listings
  import opened Directories
  import opened Iterators
  import opened Namespaces
  import opened Catalogues
  import opened FileSystems

  /** The chain `t` exists beside those of the catalogue; nothing owns it yet. */
  ghost predicate Orphan(fat: Fat, data: seq<Bytes>, cat: Catalogue, t: seq<nat>) {
    && Consistent(fat, data, cat)
    && t != [] && t[0] !in cat.chains
    && ChainsOk(fat, cat.chains[t[0] := t])
  }

  /** Taking the lowest free cluster leaves it as an orphan; giving it back restores the table. */
  lemma OrphanMade(fat0: Fat, data0: seq<Bytes>, cat: Catalogue, fat: Fat, data: seq<Bytes>, c: nat, zeros: Bytes)
    requires Consistent(fat0, data0, cat) && c == LowestFree(fat0) != 0 && c < |fat0|
    requires fat == fat0[c := CLUSTER_EOC] && data == data0[c := zeros]
    ensures Orphan(fat, data, cat, [c]) && Consistent(fat0, data, cat)
    ensures Kept(data0, cat.chains, data, cat.chains, {})
    ensures FreeClusters(fat) == FreeClusters(fat0)[1..]
    ensures Cleared(fat, Trail(fat, c, [])) == fat0
  {
    hide DirectoryOk, Namespace.Ok;
    ConsistentParts(fat0, data0, cat);
    FreeFromTake(fat0, fat, 2);
    FreeIsUnused(fat0, cat.chains);
    NewCluster(fat0, c, fat);
    OwnRoot(fat0, cat.chains, c);
    ChainsGrow(fat0, cat.chains, c, [c], fat);
    ChainsSubset(fat, cat.chains, c, [c]);
    forall x | x in cat.chains ensures SameOn(data0, data, cat.chains[x]) {
      assert ChainOk(fat0, cat.chains, x);
    }
    Rebuilt(fat0, data0, cat, fat, data, cat, {});
    Rebuilt(fat0, data0, cat, fat0, data, cat, {});
  }

  lemma NewCluster(fat0: Fat, c: nat, fat: Fat)
    requires 2 <= |fat0| < CLUSTER_LAST && c == LowestFree(fat0) != 0 && c < |fat0| && fat == fat0[c := CLUSTER_EOC]
    ensures Grown(fat0, [], fat, [c])
    ensures Cleared(fat, Trail(fat, c, [])) == fat0
  {
    var s: seq<nat> := [c];
    assert Next(fat, s[0]) == INVALID_CLUSTER;
    assert IsChain(fat, s);
    FreeFromTake(fat0, fat, 2);
    ChainTrail(fat, s);
    assert Cleared(fat, s) == fat0;
  }

  lemma OwnRoot(fat: Fat, chains: ChainMap, c: nat)
    requires ChainsOk(fat, chains) && forall x :: x in chains ==> c !in chains[x]
    ensures c !in chains
  {
    forall x | x in chains ensures x in chains[x] {
      assert ChainOk(fat, chains, x);
    }
  }

  lemma ChainsSubset(fat: Fat, chains: ChainMap, c: nat, t: seq<nat>)
    requires ChainsOk(fat, chains[c := t]) && c !in chains
    ensures ChainsOk(fat, chains)
  {
    var more := chains[c := t];
    forall x | x in chains ensures ChainOk(fat, chains, x) {
      assert ChainOk(fat, more, x);
    }
    forall x, y | x in chains && y in chains && x != y ensures Disjoint(chains[x], chains[y]) {
      assert more[x] == chains[x] && more[y] == chains[y];
    }
  }

  // ----- the contents of a new directory -----

  /** The entries `.` and `..` as `directory_create` makes them. */
  function DotName(n: nat): RawName
    requires n <= 8
  {
    seq<Byte>(11, i => if i < n then PERIOD else SPACE)
  }

  function DotEntry(n: nat, cluster: nat): DirEntry
    requires n <= 8 && cluster < TWO_32
  {
    NewEntry(DotName(n), ATTR_DIRECTORY, cluster)
  }

  lemma DotEntryFacts(n: nat, cluster: nat)
    requires 1 <= n <= 2 && 0 < cluster < TWO_32
    ensures var e := DotEntry(n, cluster);
            && DisplayName(e.name) == (if n == 1 then DOT else DOTDOT)
            && IsShown(e) && e.IsDirectory() && e.Cluster() == cluster
            && GoodEntry(e) && LinkOf(e) == Nothing
  {
    AttributeBits();
    var e := DotEntry(n, cluster);
    ClusterRoundTrip(DirEntry(DotName(n), ATTR_DIRECTORY, Zeros(8), 0, Zeros(4), 0, 0), cluster);
    assert DisplayName(DotName(1)) == DOT by { DotDisplayed(1); }
    assert DisplayName(DotName(2)) == DOTDOT by { DotDisplayed(2); }
  }

  lemma DotDisplayed(n: nat)
    requires 1 <= n <= 2
    ensures DisplayName(DotName(n)) == if n == 1 then DOT else DOTDOT
  {
    var name := DotName(n);
    var base, extension := name[..8], name[8..];
    assert extension[0] == SPACE;
    assert Before(extension, SPACE) == [];
    assert IndexOf(base, SPACE) == n by {
      assert base[0] == PERIOD && base[n] == SPACE;
      assert base[1..][0] == name[1];
      if n == 2 {
        assert base[1..][1..][0] == name[2];
      }
    }
    assert Before(base, SPACE) == if n == 1 then DOT else DOTDOT;
  }

  /** The slots of a directory just made at `cluster` in the one at `parent`. */
  ghost function FreshDirectory(cluster: nat, parent: nat, per: nat): (slots: Directory)
    requires cluster < TWO_32 && parent < TWO_32 && per >= 2
    ensures |slots| == per
  {
    EmptySlots(per)[0 := DotEntry(1, cluster)][1 := DotEntry(2, parent)]
  }

  lemma FreshDirectoryFacts(cluster: nat, parent: nat, per: nat)
    requires 0 < cluster < TWO_32 && 0 < parent < TWO_32 && per >= 2
    ensures var slots := FreshDirectory(cluster, parent, per);
            GoodSlots(slots) && OwnsNothing(LinksOf(slots))
    ensures First(EmptySlots(per), FreeSlot) == 0
    ensures First(EmptySlots(per)[0 := DotEntry(1, cluster)], FreeSlot) == 1
  {
    var slots := FreshDirectory(cluster, parent, per);
    DotEntryFacts(1, cluster);
    DotEntryFacts(2, parent);
    forall k | 2 <= k < per ensures IsFree(slots[k]) && IsEnd(slots[k]) {
      assert slots[k] == EmptySlots(per)[k];
    }
    forall k | 0 <= k < per ensures GoodEntry(slots[k]) && LinkOf(slots[k]) == Nothing {
    }
    FirstUnique(EmptySlots(per), FreeSlot, 0);
    FirstUnique(EmptySlots(per)[0 := DotEntry(1, cluster)], FreeSlot, 1);
  }

  /** The catalogue with a new directory at `c`, owned by slot `k` of `d`. */
  ghost function WithDirectory(cat: Catalogue, d: nat, s': seq<nat>, slots': Directory, c: nat, slots: Directory,
                               k: nat)
    : Catalogue
  {
    Catalogue(cat.chains[c := [c]][d := s'],
              Namespace(cat.ns.root, cat.ns.tree[d := LinksOf(slots')][c := LinksOf(slots)],
                        cat.ns.owner[c := Home(d, k)]))
  }

  /** The cluster `c`, taken before, has become a directory below `d`, entered by `entry`. */
  ghost predicate Laid(fat1: Fat, data1: seq<Bytes>, cat: Catalogue, d: nat, c: nat, entry: DirEntry, per: Positive,
                       fat: Fat, data: seq<Bytes>, cat': Catalogue) {
    && c < |data| == |data1| == |fat1| && c < TWO_32 && d < TWO_32 && per >= 2
    && d in cat.chains && InData(data1, cat.chains[d]) && cat.chains[d] != []
    && var s, slots := cat.chains[d], SlotsAt(data1, cat.chains, d);
       var s' := ChainAfterCreate(fat1, slots, s);
       && HasRoom(fat1, slots) && EntryCreated(fat1, data1, s, entry, per, fat, data[c := data1[c]], s')
       && SlotsOf(data[c]) == FreshDirectory(c, d, per)
       && cat' == WithDirectory(cat, d, s', Inserted(slots, entry, per), c, FreshDirectory(c, d, per),
                                First(slots, FreeSlot))
  }

  lemma LaidParts(fat1: Fat, data1: seq<Bytes>, cat: Catalogue, d: nat, c: nat, entry: DirEntry, per: Positive,
                  fat: Fat, data: seq<Bytes>, cat': Catalogue)
    requires Laid(fat1, data1, cat, d, c, entry, per, fat, data, cat')
    ensures c < |data| == |data1| == |fat1| && c < TWO_32 && d < TWO_32 && per >= 2
    ensures d in cat.chains && InData(data1, cat.chains[d]) && cat.chains[d] != []
    ensures var s, slots := cat.chains[d], SlotsAt(data1, cat.chains, d);
            var s' := ChainAfterCreate(fat1, slots, s);
            && slots == ChainSlots(data1, s)
            && HasRoom(fat1, slots) && EntryCreated(fat1, data1, s, entry, per, fat, data[c := data1[c]], s')
            && SlotsOf(data[c]) == FreshDirectory(c, d, per)
            && cat' == WithDirectory(cat, d, s', Inserted(slots, entry, per), c, FreshDirectory(c, d, per),
                                     First(slots, FreeSlot))
  {
  }

  /** Such a directory keeps the volume consistent. */
  lemma LaidKeeps(fat1: Fat, data1: seq<Bytes>, cat: Catalogue, d: nat, c: nat, entry: DirEntry, per: Positive,
                  fat: Fat, data: seq<Bytes>, cat': Catalogue)
    requires Orphan(fat1, data1, cat, [c]) && d in cat.ns.tree
    requires LinkOf(entry) == OwnsDirectory(c) && GoodEntry(entry) && IsShown(entry)
    requires Laid(fat1, data1, cat, d, c, entry, per, fat, data, cat')
    ensures Consistent(fat, data, cat') && Entered(data1, cat, d, c, entry, per, data, cat')
  {
    hide *;
    LaidParts(fat1, data1, cat, d, c, entry, per, fat, data, cat');
    OrphanParts(fat1, data1, cat, c);
    ConsistentParts(fat1, data1, cat);
    DirectoryKnown(fat1, data1, cat, d);
    LaidRange(fat1, data1, cat, d, c);
    FreshDirectoryFacts(c, d, per);
    var s' := ChainAfterCreate(fat1, SlotsAt(data1, cat.chains, d), cat.chains[d]);
    var data2 := data[c := data1[c]];
    var _ := DirectoryEntered(fat1, data1, cat, d, c, entry, per, fat, data2, s', data, FreshDirectory(c, d, per));
    EnteredWhen(data1, cat, d, c, entry, per, data, cat');
  }

  lemma LaidRange(fat1: Fat, data1: seq<Bytes>, cat: Catalogue, d: nat, c: nat)
    requires Orphan(fat1, data1, cat, [c]) && d in cat.ns.tree
    ensures 0 < c && 0 < d && c !in cat.chains
  {
    NoChainAtZero(fat1, data1, cat);
    assert ChainOk(fat1, cat.chains[c := [c]], c);
    assert InRange(fat1, c);
  }

  lemma EnteredWhen(data1: seq<Bytes>, cat: Catalogue, d: nat, c: nat, entry: DirEntry, per: Positive,
                    data: seq<Bytes>, cat': Catalogue)
    requires 0 < c < TWO_32 && d < TWO_32 && per >= 2 && c !in cat.chains
    requires Kept(data1, cat.chains, data, cat'.chains, {d}) && cat'.ns.root == cat.ns.root
    requires cat'.ns.owner == cat.ns.owner[c := Home(d, First(SlotsAt(data1, cat.chains, d), FreeSlot))]
    requires cat'.ns.tree.Keys == cat.ns.tree.Keys + {c}
    requires SlotsAt(data, cat'.chains, d) == Inserted(SlotsAt(data1, cat.chains, d), entry, per)
    requires SlotsAt(data, cat'.chains, c) == FreshDirectory(c, d, per)
    ensures Entered(data1, cat, d, c, entry, per, data, cat')
  {
    hide Kept, SlotsAt, Inserted, FreshDirectory, First;
  }

  /** The new directory is entered below `d`, owned by the slot the entry went into. */
  lemma DirectoryEntered(fat1: Fat, data1: seq<Bytes>, cat: Catalogue, d: nat, c: nat, entry: DirEntry, per: Positive,
                         fat: Fat, data2: seq<Bytes>, s': seq<nat>, data: seq<Bytes>, slots: Directory)
    returns (cat': Catalogue)
    requires Orphan(fat1, data1, cat, [c]) && d in cat.ns.tree
    requires LinkOf(entry) == OwnsDirectory(c) && GoodEntry(entry) && IsShown(entry)
    requires InData(data1, cat.chains[d]) && cat.chains[d] != [] && IsChain(fat1, cat.chains[d])
    requires HasRoom(fat1, ChainSlots(data1, cat.chains[d]))
    requires EntryCreated(fat1, data1, cat.chains[d], entry, per, fat, data2, s')
    requires |data| == |data2| && c < |data| && SlotsOf(data[c]) == slots && GoodSlots(slots)
    requires OwnsNothing(LinksOf(slots))
    requires forall x: nat :: x < |data| && x != c ==> data[x] == data2[x]
    ensures Consistent(fat, data, cat') && Kept(data1, cat.chains, data, cat'.chains, {d})
    ensures cat'.ns.root == cat.ns.root
    ensures cat'.ns.owner == cat.ns.owner[c := Home(d, First(SlotsAt(data1, cat.chains, d), FreeSlot))]
    ensures cat'.ns.tree.Keys == cat.ns.tree.Keys + {c}
    ensures SlotsAt(data, cat'.chains, d) == Inserted(SlotsAt(data1, cat.chains, d), entry, per)
    ensures SlotsAt(data, cat'.chains, c) == slots
    ensures var before := SlotsAt(data1, cat.chains, d);
            cat' == WithDirectory(cat, d, s', Inserted(before, entry, per), c, slots, First(before, FreeSlot))
  {
    hide *;
    ShownIsLive(entry);
    OrphanParts(fat1, data1, cat, c);
    ConsistentParts(fat1, data1, cat);
    DirectoryKnown(fat1, data1, cat, d);
    var s, before := cat.chains[d], ChainSlots(data1, cat.chains[d]);
    var chains1: ChainMap := cat.chains[c := [c]];
    CreatedGrows(fat1, data1, s, entry, per, fat, data2, s');
    assert c in chains1 && chains1[c] == [c] && c != d && chains1[d] == s;
    KeptOutside(fat1, data1, chains1, d, s', fat, data2, d);
    ChainsPair(fat, chains1[d := s'], c, d);
    var links := LinksOf(Inserted(before, entry, per));
    InsertedGood(before, entry, per);
    EnteredSlots(data2, data, s', c, Inserted(before, entry, per), slots);
    var ns' := Namespace(cat.ns.root, cat.ns.tree[d := links][c := LinksOf(slots)],
                         cat.ns.owner[c := Home(d, First(before, FreeSlot))]);
    SlotGainsOwner(cat.ns, d, First(before, FreeSlot), links, c, Some(LinksOf(slots)), ns');
    cat' := Catalogue(chains1[d := s'], ns');
    WithDirectoryIs(cat, d, s', Inserted(before, entry, per), c, slots, First(before, FreeSlot));
    EnteredKept(fat1, data1, cat, d, c, data2, data, cat'.chains);
    assert chains1[d := s'][d] == s' && chains1[d := s'][c] == [c];
    SlotsMakeDirectory(data, cat'.chains, d, Inserted(before, entry, per));
    SlotsMakeDirectory(data, cat'.chains, c, slots);
    KeptMore(data1, cat.chains, data, cat'.chains, {d}, {c, d});
    Rebuilt(fat1, data1, cat, fat, data, cat', {c, d});
  }

  lemma WithDirectoryIs(cat: Catalogue, d: nat, s': seq<nat>, slots': Directory, c: nat, slots: Directory, k: nat)
    ensures WithDirectory(cat, d, s', slots', c, slots, k)
            == Catalogue(cat.chains[c := [c]][d := s'],
                         Namespace(cat.ns.root, cat.ns.tree[d := LinksOf(slots')][c := LinksOf(slots)],
                                   cat.ns.owner[c := Home(d, k)]))
  {
  }

  lemma OrphanParts(fat: Fat, data: seq<Bytes>, cat: Catalogue, c: nat)
    requires Orphan(fat, data, cat, [c])
    ensures Consistent(fat, data, cat) && c !in cat.chains && c !in cat.ns.owner && c != cat.ns.root
    ensures c !in cat.ns.tree
    ensures ChainsOk(fat, cat.chains[c := [c]])
  {
    ConsistentParts(fat, data, cat);
  }

  lemma ChainsPair(fat: Fat, chains: ChainMap, c: nat, d: nat)
    requires ChainsOk(fat, chains) && c in chains && d in chains && c != d && chains[c] == [c]
    ensures c !in chains[d]
  {
    assert Disjoint(chains[c], chains[d]);
    assert chains[c][0] == c;
  }

  lemma EnteredSlots(data2: seq<Bytes>, data: seq<Bytes>, s': seq<nat>, c: nat, slots': Directory, slots: Directory)
    requires InData(data2, s') && ChainSlots(data2, s') == slots' && c !in s'
    requires |data| == |data2| && c < |data| && SlotsOf(data[c]) == slots
    requires forall x: nat :: x < |data| && x != c ==> data[x] == data2[x]
    ensures InData(data, s') && ChainSlots(data, s') == slots'
    ensures InData(data, [c]) && ChainSlots(data, [c]) == slots
  {
    ChainSlotsFrame(data2, data, s');
    ChainSlotsAppend(data, [], c);
    assert [] + [c] == [c];
  }

  lemma EnteredKept(fat1: Fat, data1: seq<Bytes>, cat: Catalogue, d: nat, c: nat,
                    data2: seq<Bytes>, data: seq<Bytes>, chains': ChainMap)
    requires Orphan(fat1, data1, cat, [c]) && d in cat.chains && |data| == |data2|
    requires Kept(data1, cat.chains[c := [c]], data2, chains', {d, d})
    requires forall x: nat :: x < |data| && x != c ==> data[x] == data2[x]
    ensures Kept(data1, cat.chains, data, chains', {d})
  {
    hide ChainOk, Consistent, IsChain;
    var chains1: ChainMap := cat.chains[c := [c]];
    forall x | x in cat.chains && x !in {d}
      ensures x in chains' && chains'[x] == cat.chains[x] && SameOn(data1, data, cat.chains[x])
    {
      assert x in chains1 && chains1[x] == cat.chains[x] && x != c;
      ChainsPair(fat1, chains1, c, x);
    }
  }

  // ----- directory_create -----

  /** The directory at the lowest free cluster has been made below `parent` under `leaf`. */
  ghost predicate DirectoryMade(fat0: Fat, data0: seq<Bytes>, cat: Catalogue, data: seq<Bytes>, cat': Catalogue,
                                parent: nat, leaf: Bytes, per: Positive) {
    var c, slots := LowestFree(fat0), SlotsAt(data0, cat.chains, parent);
    && 0 < c < TWO_32 && parent < TWO_32 && per >= 2 && c !in cat.chains
    && Kept(data0, cat.chains, data, cat'.chains, {parent})
    && cat'.ns.owner == cat.ns.owner[c := Home(parent, First(slots, FreeSlot))]
    && cat'.ns.tree.Keys == cat.ns.tree.Keys + {c}
    && Accepted(leaf)
    && SlotsAt(data, cat'.chains, parent) == Inserted(slots, NewEntry(ShortName(leaf), ATTR_DIRECTORY, c), per)
    && SlotsAt(data, cat'.chains, c) == FreshDirectory(c, parent, per)
  }

  /** A zeroed cluster has been taken off the free list; the directories are as they were. */
  ghost predicate ClusterTaken(fat0: Fat, data0: seq<Bytes>, cat: Catalogue, fat: Fat, data: seq<Bytes>, c: nat,
                               size: nat) {
    && Orphan(fat, data, cat, [c]) && Consistent(fat0, data, cat)
    && 0 < c == LowestFree(fat0) < |data| && data[c] == Zeros(size)
    && Kept(data0, cat.chains, data, cat.chains, {})
    && FreeClusters(fat) == FreeClusters(fat0)[1..]
    && Cleared(fat, Trail(fat, c, [])) == fat0
  }

  lemma TakenSlots(fat0: Fat, data0: seq<Bytes>, cat: Catalogue, fat: Fat, data: seq<Bytes>, c: nat, size: nat, d: nat)
    requires Consistent(fat0, data0, cat) && ClusterTaken(fat0, data0, cat, fat, data, c, size) && d in cat.ns.tree
    ensures SlotsAt(data, cat.chains, d) == SlotsAt(data0, cat.chains, d)
    ensures HasRoom(fat, SlotsAt(data, cat.chains, d))
            <==> |FreeClusters(fat0)| >= if Found(SlotsAt(data0, cat.chains, d), FreeSlot) then 1 else 2
  {
    hide Namespace.Ok, ChainsOk, IsChain;
    DirectoryKnown(fat0, data0, cat, d);
    DirectoryFrame(data0, data, cat.chains[d], cat.ns.tree[d]);
  }

  /** `directory_create`, once the path has been resolved. */
  method MakeDirectory(vol: Volume, parent: nat, leaf: Bytes, ghost cat: Catalogue)
    returns (ok: bool, ghost cat': Catalogue)
    requires IsVolume(vol, cat) && parent in cat.ns.tree && 0 !in leaf
    modifies vol`sectors, vol`fat, vol`data
    ensures vol.Valid() && (!ok || IsText(leaf) ==> IsVolume(vol, cat'))
    ensures var slots := old(DirSlots(vol, cat, parent));
            ok == (&& FindListed(Listing(slots), leaf) == None && Accepted(leaf)
                   && |FreeClusters(old(vol.fat))| >= if Found(slots, FreeSlot) then 1 else 2)
    ensures !ok ==> vol.fat == old(vol.fat) && cat' == cat && Kept(old(vol.data), cat.chains, vol.data, cat.chains, {})
    ensures ok && IsText(leaf) ==>
              DirectoryMade(old(vol.fat), old(vol.data), cat, vol.data, cat', parent, leaf,
                            vol.geometry.SlotsPerCluster())
    ensures ok ==> DirectoryLaid(old(vol.fat), old(vol.data), cat, parent, leaf, vol.geometry.SlotsPerCluster(),
                                 vol.fat, vol.data, cat')
  {
    hide Consistent, Kept, DirectoryOk, FatRefines, DataRefines, ChainsOk, Listing, FindListed, First, Judge, Cleared,
         Trail, Orphan;
    cat' := cat;
    KeptAll(vol.fat, vol.data, cat, {});
    var existing;
    ghost var k;
    existing, k := Lookup(vol, parent, leaf, cat);
    if existing.Some? || leaf == [] {
      return false, cat';
    }
    ghost var fat0, data0 := vol.fat, vol.data;
    var cluster := vol.AllocateCluster();
    if cluster == 0 {
      return false, cat';
    }
    OrphanMade(fat0, data0, cat, vol.fat, vol.data, cluster, vol.data[cluster]);
    ok, cat' := EnterDirectory(vol, parent, leaf, cluster, fat0, data0, cat);
  }

  /** The directory at the lowest free cluster has been laid out below `d` under `leaf`: what it took on the disk. */
  ghost predicate DirectoryLaid(fat0: Fat, data0: seq<Bytes>, cat: Catalogue, d: nat, leaf: Bytes, per: Positive,
                                fat: Fat, data: seq<Bytes>, cat': Catalogue) {
    var c := LowestFree(fat0);
    && 0 < c < |fat0| == |data0| && c < TWO_32 && Accepted(leaf)
    && Laid(fat0[c := CLUSTER_EOC], data0[c := Zeros(32 * per)], cat, d, c,
            NewEntry(ShortName(leaf), ATTR_DIRECTORY, c), per,
            fat, data, cat')
  }

  /** That keeps the volume consistent, and is a directory made. */
  lemma MadeKeeps(fat0: Fat, data0: seq<Bytes>, cat: Catalogue, d: nat, leaf: Bytes, per: Positive,
                  fat: Fat, data: seq<Bytes>, cat': Catalogue)
    requires Consistent(fat0, data0, cat) && d in cat.ns.tree && IsText(leaf)
    requires DirectoryLaid(fat0, data0, cat, d, leaf, per, fat, data, cat')
    ensures Consistent(fat, data, cat') && cat'.ns.root == cat.ns.root
    ensures DirectoryMade(fat0, data0, cat, data, cat', d, leaf, per)
  {
    hide Consistent, Kept, ChainsOk, First, Cleared, Trail, Orphan, NewEntry, Inserted, FreshDirectory, SlotsAt,
         LinkOf, GoodEntry, ShortName, Accepted, IsText, IsShown, Laid, Zeros;
    var c := LowestFree(fat0);
    var fat1, data1 := fat0[c := CLUSTER_EOC], data0[c := Zeros(32 * per)];
    OrphanMade(fat0, data0, cat, fat1, data1, c, Zeros(32 * per));
    NewEntryFacts(leaf, ATTR_DIRECTORY, c);
    LaidKeeps(fat1, data1, cat, d, c, NewEntry(ShortName(leaf), ATTR_DIRECTORY, c), per, fat, data, cat');
    TakenSlots(fat0, data0, cat, fat1, data1, c, 32 * per, d);
    KeptTwice(data0, cat.chains, data1, data, cat'.chains, {d});
  }

  /** If the name begins with the mark of a deleted entry, the directory made is lost at once: no catalogue of the same
      chains, files and directories makes the volume consistent. With any other name this one does. */
  lemma MadeKeepsIff(fat0: Fat, data0: seq<Bytes>, cat: Catalogue, d: nat, leaf: Bytes, per: Positive,
                     fat: Fat, data: seq<Bytes>, cat1: Catalogue)
    requires Consistent(fat0, data0, cat) && d in cat.ns.tree && 0 !in leaf
    requires DirectoryLaid(fat0, data0, cat, d, leaf, per, fat, data, cat1)
    ensures (exists cat' :: SameShape(cat1, cat') && Consistent(fat, data, cat')) <==> IsText(leaf)
  {
    hide Consistent, Kept, ChainsOk, First, Cleared, Trail, Orphan, NewEntry, Inserted, FreshDirectory, SlotsAt,
         LinkOf, GoodEntry, ShortName, Accepted, IsText, IsShown, Laid, Zeros, SameShape, DirectoryMade;
    if IsText(leaf) {
      MadeKeeps(fat0, data0, cat, d, leaf, per, fat, data, cat1);
      SameShapeItself(cat1);
    } else {
      var c := LowestFree(fat0);
      OrphanMade(fat0, data0, cat, fat0[c := CLUSTER_EOC], data0[c := Zeros(32 * per)], c, Zeros(32 * per));
      LostDirectoryEntry(leaf, c);
      forall cat' | SameShape(cat1, cat') ensures !Consistent(fat, data, cat') {
        LostMakeBreaks(fat0[c := CLUSTER_EOC], data0[c := Zeros(32 * per)], cat, d, c,
                       NewEntry(ShortName(leaf), ATTR_DIRECTORY, c), per, fat, data, cat1, cat');
      }
    }
  }

  lemma LostDirectoryEntry(leaf: Bytes, c: nat)
    requires Accepted(leaf) && 0 !in leaf && !IsText(leaf) && c < TWO_32
    ensures var e := NewEntry(ShortName(leaf), ATTR_DIRECTORY, c);
            LinkOf(e) == Nothing && GoodEntry(e) && !IsEnd(e) && !IsShown(e)
  {
    assert ShortName(leaf)[0] == UpperAll(Base(leaf))[0] == Upper(leaf[0]);
    NewEntryName(ShortName(leaf), ATTR_DIRECTORY, c);
    FreeIsGood(NewEntry(ShortName(leaf), ATTR_DIRECTORY, c));
  }

  /** The directories of a volume after one has been laid out. */
  lemma LaidSlots(fat1: Fat, data1: seq<Bytes>, cat: Catalogue, d: nat, c: nat, entry: DirEntry, per: Positive,
                  fat: Fat, data: seq<Bytes>, cat1: Catalogue)
    requires Orphan(fat1, data1, cat, [c]) && d in cat.ns.tree && GoodEntry(entry) && !IsEnd(entry)
    requires Laid(fat1, data1, cat, d, c, entry, per, fat, data, cat1)
    ensures Kept(data1, cat.chains, data, cat1.chains, {d})
    ensures cat1.ns.root == cat.ns.root && cat1.ns.tree.Keys == cat.ns.tree.Keys + {c} && c in cat1.chains
    ensures SlotsAt(data, cat1.chains, d) == Inserted(SlotsAt(data1, cat.chains, d), entry, per)
    ensures SlotsAt(data, cat1.chains, c) == FreshDirectory(c, d, per)
  {
    hide *;
    LaidParts(fat1, data1, cat, d, c, entry, per, fat, data, cat1);
    OrphanParts(fat1, data1, cat, c);
    ConsistentParts(fat1, data1, cat);
    DirectoryKnown(fat1, data1, cat, d);
    var s, before := cat.chains[d], ChainSlots(data1, cat.chains[d]);
    var s', data2 := ChainAfterCreate(fat1, before, s), data[c := data1[c]];
    var chains1: ChainMap := cat.chains[c := [c]];
    CreatedGrows(fat1, data1, s, entry, per, fat, data2, s');
    assert c in chains1 && chains1[c] == [c] && c != d && chains1[d] == s;
    KeptOutside(fat1, data1, chains1, d, s', fat, data2, d);
    ChainsPair(fat, chains1[d := s'], c, d);
    InsertedGood(before, entry, per);
    EnteredSlots(data2, data, s', c, Inserted(before, entry, per), FreshDirectory(c, d, per));
    WithDirectoryIs(cat, d, s', Inserted(before, entry, per), c, FreshDirectory(c, d, per), First(before, FreeSlot));
    EnteredKept(fat1, data1, cat, d, c, data2, data, cat1.chains);
    SlotsAre(data, cat1.chains, d);
    SlotsAre(data, cat1.chains, c);
  }

  lemma LostMakeBreaks(fat1: Fat, data1: seq<Bytes>, cat: Catalogue, d: nat, c: nat, entry: DirEntry, per: Positive,
                       fat: Fat, data: seq<Bytes>, cat1: Catalogue, cat': Catalogue)
    requires Orphan(fat1, data1, cat, [c]) && d in cat.ns.tree && GoodEntry(entry) && !IsEnd(entry)
    requires LinkOf(entry) == Nothing && SameShape(cat1, cat')
    requires Laid(fat1, data1, cat, d, c, entry, per, fat, data, cat1)
    ensures !Consistent(fat, data, cat')
  {
    hide *;
    if Consistent(fat, data, cat') {
      SameShapeParts(cat1, cat');
      LaidParts(fat1, data1, cat, d, c, entry, per, fat, data, cat1);
      LaidSlots(fat1, data1, cat, d, c, entry, per, fat, data, cat1);
      OrphanParts(fat1, data1, cat, c);
      OwnersKnown(fat, data, cat');
      OwnerSlot(fat, data, cat', c);
      var home, into := cat'.ns.owner[c], SlotsAt(data1, cat.chains, d);
      OwnsCluster(LinkOf(SlotsAt(data, cat'.chains, home.dir)[home.slot]), c);
      InsertedSlots(into, entry, per);
      FreeIsGood(EMPTY_SLOT);
      LaidRange(fat1, data1, cat, d, c);
      FreshOwnsNothing(c, d, per);
      if home.dir != c {
        if home.dir != d {
          KeptSlots(fat1, data1, cat, data, cat1.chains, {d}, home.dir);
        }
        SlotKnown(fat1, data1, cat, home.dir, home.slot);
      }
      assert false;
    }
  }

  lemma FreshOwnsNothing(c: nat, d: nat, per: Positive)
    requires 0 < c < TWO_32 && 0 < d < TWO_32 && per >= 2
    ensures var slots := FreshDirectory(c, d, per);
            forall k :: 0 <= k < |slots| ==> LinkOf(slots[k]) == Nothing
  {
    hide FreshDirectory;
    FreshDirectoryFacts(c, d, per);
    var slots := FreshDirectory(c, d, per);
    forall k | 0 <= k < |slots| ensures LinkOf(slots[k]) == Nothing {
      assert LinksOf(slots)[k] == LinkOf(slots[k]);
    }
  }

  /** The part of `directory_create` after its cluster has been allocated. */
  method EnterDirectory(vol: Volume, parent: nat, leaf: Bytes, cluster: nat, ghost fat0: Fat, ghost data0: seq<Bytes>,
                        ghost cat: Catalogue) returns (ok: bool, ghost cat': Catalogue)
    requires vol.Valid() && cat.ns.root == vol.geometry.rootCluster && Consistent(fat0, data0, cat)
    requires ClusterTaken(fat0, data0, cat, vol.fat, vol.data, cluster, vol.geometry.ClusterSize())
    requires parent in cat.ns.tree && 0 !in leaf
    requires cluster < |fat0| == |data0| && vol.fat == fat0[cluster := CLUSTER_EOC]
    requires vol.data == data0[cluster := Zeros(vol.geometry.ClusterSize())]
    modifies vol`sectors, vol`fat, vol`data
    ensures vol.Valid() && (!ok || IsText(leaf) ==> IsVolume(vol, cat'))
    ensures ok == (&& Accepted(leaf)
                   && |FreeClusters(fat0)| >= if Found(SlotsAt(data0, cat.chains, parent), FreeSlot) then 1 else 2)
    ensures !ok ==> vol.fat == fat0 && cat' == cat && Kept(data0, cat.chains, vol.data, cat.chains, {})
    ensures ok && IsText(leaf) ==>
              DirectoryMade(fat0, data0, cat, vol.data, cat', parent, leaf, vol.geometry.SlotsPerCluster())
    ensures ok ==>
              DirectoryLaid(fat0, data0, cat, parent, leaf, vol.geometry.SlotsPerCluster(), vol.fat, vol.data, cat')
  {
    hide Consistent, Kept, DirectoryOk, FatRefines, DataRefines, ChainsOk, First, Judge, Cleared, Trail, Orphan;
    hide NewEntry, Inserted, FreshDirectory, SlotsAt, LinkOf, GoodEntry, ShortName, Accepted, IsText, IsShown, Laid,
         DirectoryLaid, DirectoryMade, Zeros;
    cat' := cat;
    TakenSlots(fat0, data0, cat, vol.fat, vol.data, cluster, vol.geometry.ClusterSize(), parent);
    var entry := NewEntry(Zeros(11), 0, 0);
    ok, entry := SetName(entry, leaf);
    if !ok {
      var _ := vol.FreeClusterChain(cluster);
      return;
    }
    entry := NewEntry(entry.name, ATTR_DIRECTORY, cluster);
    DirectoryEntryGood(leaf, cluster);
    ok, cat' := LinkDirectory(vol, parent, entry, cluster, cat);
    if !ok {
      var _ := vol.FreeClusterChain(cluster);
      return;
    }
    LaidFromStart(fat0, data0, cat, parent, leaf, vol.geometry.SlotsPerCluster(), vol.fat, vol.data, cat');
    if IsText(leaf) {
      MadeKeeps(fat0, data0, cat, parent, leaf, vol.geometry.SlotsPerCluster(), vol.fat, vol.data, cat');
    }
  }

  lemma DirectoryEntryGood(leaf: Bytes, c: nat)
    requires Accepted(leaf) && 0 !in leaf && 0 < c < TWO_32
    ensures var e := NewEntry(ShortName(leaf), ATTR_DIRECTORY, c); GoodEntry(e) && !IsEnd(e)
  {
    hide NewEntry, LinkOf, GoodEntry, ShortName, Accepted, IsText, IsShown;
    if IsText(leaf) {
      NewEntryFacts(leaf, ATTR_DIRECTORY, c);
      ShownIsLive(NewEntry(ShortName(leaf), ATTR_DIRECTORY, c));
    } else {
      LostDirectoryEntry(leaf, c);
    }
  }

  lemma LaidFromStart(fat0: Fat, data0: seq<Bytes>, cat: Catalogue, d: nat, leaf: Bytes, per: Positive,
                      fat: Fat, data: seq<Bytes>, cat': Catalogue)
    requires var c := LowestFree(fat0);
             && 0 < c < |fat0| == |data0| && c < TWO_32 && Accepted(leaf)
             && Laid(fat0[c := CLUSTER_EOC], data0[c := Zeros(32 * per)], cat, d, c,
                     NewEntry(ShortName(leaf), ATTR_DIRECTORY, c), per, fat, data, cat')
    ensures DirectoryLaid(fat0, data0, cat, d, leaf, per, fat, data, cat')
  {
    hide Laid, NewEntry, ShortName, Accepted, LowestFree, Zeros;
  }

  lemma KeptTwice(data0: seq<Bytes>, chains: ChainMap, data1: seq<Bytes>, data2: seq<Bytes>, chains': ChainMap,
                  touched: set<nat>)
    requires Kept(data0, chains, data1, chains, {}) && Kept(data1, chains, data2, chains', touched)
    ensures Kept(data0, chains, data2, chains', touched)
  {
    hide InData;
    forall x | x in chains && x !in touched ensures SameOn(data0, data2, chains[x]) {
      assert SameOn(data0, data1, chains[x]) && SameOn(data1, data2, chains[x]);
    }
  }

  /** The new directory at `c` has been entered below `d` by `entry`. */
  ghost predicate Entered(data1: seq<Bytes>, cat: Catalogue, d: nat, c: nat, entry: DirEntry, per: Positive,
                          data: seq<Bytes>, cat': Catalogue)
  {
    && 0 < c < TWO_32 && d < TWO_32 && per >= 2 && c !in cat.chains
    && Kept(data1, cat.chains, data, cat'.chains, {d}) && cat'.ns.root == cat.ns.root
    && cat'.ns.owner == cat.ns.owner[c := Home(d, First(SlotsAt(data1, cat.chains, d), FreeSlot))]
    && cat'.ns.tree.Keys == cat.ns.tree.Keys + {c}
    && SlotsAt(data, cat'.chains, d) == Inserted(SlotsAt(data1, cat.chains, d), entry, per)
    && SlotsAt(data, cat'.chains, c) == FreshDirectory(c, d, per)
  }

  /** Creates the entry for the new directory at `cluster` and fills its first two slots. */
  method LinkDirectory(vol: Volume, parent: nat, entry: DirEntry, cluster: nat, ghost cat: Catalogue)
    returns (ok: bool, ghost cat': Catalogue)
    requires vol.Valid() && Orphan(vol.fat, vol.data, cat, [cluster]) && parent in cat.ns.tree
    requires GoodEntry(entry) && !IsEnd(entry)
    requires vol.geometry.HasCluster(cluster) && vol.data[cluster] == Zeros(vol.geometry.ClusterSize())
    modifies vol`sectors, vol`fat, vol`data
    ensures vol.Valid() && ok == HasRoom(old(vol.fat), old(DirSlots(vol, cat, parent)))
    ensures !ok ==> vol.fat == old(vol.fat) && vol.data == old(vol.data) && cat' == cat
    ensures ok ==>
              Laid(old(vol.fat), old(vol.data), cat, parent, cluster, entry, vol.geometry.SlotsPerCluster(),
                   vol.fat, vol.data, cat')
  {
    hide Consistent, Kept, DirectoryOk, FatRefines, DataRefines, ChainsOk, First, Judge, Orphan, Inserted, NewEntry,
         ChainSlots, FreshDirectory, GoodEntry, LinkOf, WithDirectory, IsShown;
    cat' := cat;
    OrphanParts(vol.fat, vol.data, cat, cluster);
    DirectoryKnown(vol.fat, vol.data, cat, parent);
    ghost var fat1, data1, s := vol.fat, vol.data, cat.chains[parent];
    NoChainAtZero(fat1, data1, cat);
    ParentInRange(fat1, s);
    ok := CreateEntryInCluster(vol, parent, entry, s);
    if !ok {
      return;
    }
    ghost var fat2, data2, s' := vol.fat, vol.data, ChainAfterCreate(fat1, ChainSlots(data1, s), s);
    ghost var per := vol.geometry.SlotsPerCluster();
    StillZero(fat1, data1, cat, parent, cluster, entry, per, fat2, data2, s');
    WriteDotEntries(vol, cluster, parent);
    cat' := WithDirectory(cat, parent, s', Inserted(ChainSlots(data1, s), entry, per), cluster,
                          FreshDirectory(cluster, parent, per), First(ChainSlots(data1, s), FreeSlot));
    assert vol.data[cluster := data1[cluster]] == data2;
  }

  lemma ParentInRange(fat: Fat, s: seq<nat>)
    requires IsChain(fat, s) && |fat| < TWO_28
    ensures 2 <= s[0] < TWO_32
  {
  }

  /** Creating the entry has left the new cluster alone. */
  lemma StillZero(fat1: Fat, data1: seq<Bytes>, cat: Catalogue, d: nat, c: nat, entry: DirEntry, per: Positive,
                  fat: Fat, data2: seq<Bytes>, s': seq<nat>)
    requires Orphan(fat1, data1, cat, [c]) && d in cat.ns.tree && c < |data1|
    requires InData(data1, cat.chains[d]) && cat.chains[d] != [] && IsChain(fat1, cat.chains[d])
    requires HasRoom(fat1, ChainSlots(data1, cat.chains[d]))
    requires EntryCreated(fat1, data1, cat.chains[d], entry, per, fat, data2, s')
    ensures c < |data2| && data2[c] == data1[c]
  {
    hide *;
    OrphanParts(fat1, data1, cat, c);
    ConsistentParts(fat1, data1, cat);
    DirectoryKnown(fat1, data1, cat, d);
    var chains1: ChainMap := cat.chains[c := [c]];
    CreatedGrows(fat1, data1, cat.chains[d], entry, per, fat, data2, s');
    KeptOutside(fat1, data1, chains1, d, s', fat, data2, d);
    ChainsPair(fat, chains1[d := s'], c, d);
  }

  /** The entry for the directory itself, into a zeroed cluster. */
  method WriteDot(vol: Volume, cluster: nat)
    requires vol.Valid() && vol.geometry.HasCluster(cluster) && cluster < TWO_32
    requires vol.data[cluster] == Zeros(vol.geometry.ClusterSize())
    modifies vol`sectors, vol`data
    ensures vol.Valid() && OnlyChanged(vol, [cluster])
    ensures SlotsOf(vol.data[cluster]) == EmptySlots(vol.geometry.SlotsPerCluster())[0 := DotEntry(1, cluster)]
  {
    hide FatRefines, DataRefines, First, Judge, SlotsOf, EmptySlots, DotEntry, Zeros;
    SlotsOfZeros(vol.geometry.SlotsPerCluster());
    FirstEmpty(vol.geometry.SlotsPerCluster());
    var ok := WriteEntry(vol, cluster, DotEntry(1, cluster));
  }

  lemma FirstEmpty(per: Positive)
    ensures First(EmptySlots(per), FreeSlot) == 0
  {
    FirstUnique(EmptySlots(per), FreeSlot, 0);
  }

  /** Both entries. */
  method WriteDotEntries(vol: Volume, cluster: nat, parent: nat)
    requires vol.Valid() && vol.geometry.HasCluster(cluster) && 0 < parent < TWO_32
    requires vol.data[cluster] == Zeros(vol.geometry.ClusterSize())
    modifies vol`sectors, vol`data
    ensures vol.Valid() && OnlyChanged(vol, [cluster]) && cluster < TWO_32
    ensures SlotsOf(vol.data[cluster]) == FreshDirectory(cluster, parent, vol.geometry.SlotsPerCluster())
    ensures GoodSlots(FreshDirectory(cluster, parent, vol.geometry.SlotsPerCluster()))
    ensures OwnsNothing(LinksOf(FreshDirectory(cluster, parent, vol.geometry.SlotsPerCluster())))
  {
    hide FatRefines, DataRefines, First, Judge, SlotsOf, EmptySlots, DotEntry, GoodSlots, OwnsNothing, LinksOf, Zeros;
    FreshDirectoryFacts(cluster, parent, vol.geometry.SlotsPerCluster());
    WriteDot(vol, cluster);
    var ok := WriteEntry(vol, cluster, DotEntry(2, parent));
  }
}
