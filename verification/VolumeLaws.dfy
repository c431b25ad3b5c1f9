/** What the volume-level routines mean for the contents of files. */
module VolumeLaws {
  import opened Words
  import opened Chains
  import opened Fat32
  import opened Offsets
  import opened Entries
  import opened Slots
  import opened Listings
  import opened FileBytes
  import opened Files
  import opened FileLaws
  import opened Namespaces
  import opened Catalogues
  import opened FileSystems
  import opened FileWrites

  /** A chain no operation has touched keeps every byte of its file. */
  lemma BystanderKept(data: seq<Bytes>, chains: ChainMap, data': seq<Bytes>, chains': ChainMap, touched: set<nat>,
                      x: nat,
                      size: nat, length: nat)
    requires Kept(data, chains, data', chains', touched) && x in chains && x !in touched
    ensures x in chains' && FileContents(data', chains'[x], size, length) == FileContents(data, chains[x], size, length)
  {
    RangeFrame(data, data', chains[x], size, 0, length);
  }

  /** In a consistent volume no operation on one directory and one file of it touches a third party: whatever else a
      slot anywhere owns keeps its bytes. */
  lemma OthersKept(fat: Fat, data: seq<Bytes>, cat: Catalogue, d: nat, k: nat, e: DirEntry, d2: nat, k2: nat,
                   data': seq<Bytes>, chains': ChainMap, size: nat, length: nat)
    requires Consistent(fat, data, cat) && HoldsFile(data, cat, d, k, e)
    requires d2 in cat.ns.tree && k2 < |cat.ns.tree[d2]| && (d2 != d || k2 != k)
    requires cat.ns.tree[d2][k2].OwnsFile?
    requires Kept(data, cat.chains, data', chains', {d, e.Cluster()})
    ensures var x := cat.ns.tree[d2][k2].cluster;
            && x in cat.chains && x in chains'
            && FileContents(data', chains'[x], size, length) == FileContents(data, cat.chains[x], size, length)
  {
    hide IsChain, GoodEntry, Kept, Consistent, ChainsOk, DirectoryOk, LinksOf, GoodSlots, FileContents, Range, Judge,
         SlotsAt, LinkOf, Namespace.Ok, DisplayName, Listing, IsShown, ChainOf, ChainSlots, PlainVolumeBits, Disjoint;
    var x := cat.ns.tree[d2][k2].cluster;
    DirectoryKnown(fat, data, cat, d);
    DirectoryKnown(fat, data, cat, d2);
    SlotKnown(fat, data, cat, d2, k2);
    SlotKnown(fat, data, cat, d, k);
    NoChainAtZero(fat, data, cat);
    FileKnown(fat, data, cat, d, k, e);
    assert x != d;
    if e.Cluster() != 0 {
      assert cat.ns.tree[d][k] == OwnsFile(e.Cluster());
    }
    BystanderKept(data, cat.chains, data', chains', {d, e.Cluster()}, x, size, length);
  }

  /** A write that returns the length of the buffer has left a file with the buffer as its contents. */
  lemma WrittenContents(fat0: Fat, data0: seq<Bytes>, cat: Catalogue, d: nat, k: nat, e: DirEntry, b: Bytes,
                        size: Positive, fat: Fat, t: seq<nat>, data: seq<Bytes>, cat': Catalogue)
    requires Consistent(fat0, data0, cat) && HoldsFile(data0, cat, d, k, e)
    requires WriteOutcome(fat0, data0, cat, d, k, e, b, size, |b|, fat, t, data, cat')
    ensures k < |SlotsAt(data, cat'.chains, d)|
    ensures var e' := SlotsAt(data, cat'.chains, d)[k];
            && e'.name == e.name && e'.fileSize == |b| && e'.Cluster() in cat'.chains
            && FileContents(data, cat'.chains[e'.Cluster()], size, e'.fileSize) == b
  {
    hide Grown, Overwritten, Kept, SlotsAt, IsChain, ChainOf, Consistent, ChainsOk, DirectoryOk, GoodSlots, Range,
         Judge, LinkOf, Namespace.Ok, DisplayName, IsShown, ChainSlots, GoodEntry, Disjoint;
    assert b[..|b|] == b;
    WriteReplacesContents(fat0, ChainOf(cat, e), data0, fat, t, data, size, b, cat.chains[d]);
    FileKnown(fat0, data0, cat, d, k, e);
    GrownHead(fat0, ChainOf(cat, e), fat, t);
    SavedEntryFacts(e, t[0], |b|);
    ClusterRoundTrip(e, t[0]);
  }

  lemma GrownHead(fat0: Fat, s: seq<nat>, fat: Fat, t: seq<nat>)
    requires Grown(fat0, s, fat, t)
    ensures t[0] >= 2
  {
  }

  /** A complete append has concatenated, provided the last cluster of the old chain was the one that held the end
      of the file (or there was none). */
  lemma AppendedContents(fat0: Fat, data0: seq<Bytes>, cat: Catalogue, d: nat, k: nat, e: DirEntry, b: Bytes,
                         size: Positive, fat: Fat, t: seq<nat>, data: seq<Bytes>, cat': Catalogue)
    requires Consistent(fat0, data0, cat) && HoldsFile(data0, cat, d, k, e)
    requires AppendOutcome(fat0, data0, cat, d, k, e, b, size, |b|, fat, t, data, cat')
    requires var s := ChainOf(cat, e);
             if s == [] then e.fileSize == 0 else |s| - 1 == Index(e.fileSize, size)
    ensures k < |SlotsAt(data, cat'.chains, d)|
    ensures var e' := SlotsAt(data, cat'.chains, d)[k];
            && e'.name == e.name && e'.fileSize == e.fileSize + |b| && e'.Cluster() in cat'.chains
            && FileContents(data, cat'.chains[e'.Cluster()], size, e'.fileSize)
               == FileContents(data0, ChainOf(cat, e), size, e.fileSize) + b
  {
    hide Grown, Overwritten, Kept, SlotsAt, IsChain, ChainOf, Appended, Consistent, ChainsOk, DirectoryOk, GoodSlots,
         Range, Judge, LinkOf, Namespace.Ok, DisplayName, IsShown, ChainSlots, GoodEntry, Disjoint;
    var s := ChainOf(cat, e);
    assert b[..|b|] == b;
    AppendLeaves(fat0, s, data0, fat, t, data, size, e.fileSize, b, cat.chains[d]);
    AppendAtEnd(data0, s, size, e.fileSize, b);
    FileKnown(fat0, data0, cat, d, k, e);
    GrownHead(fat0, s, fat, t);
    SavedEntryFacts(e, t[0], e.fileSize + |b|);
    ClusterRoundTrip(e, t[0]);
  }

  lemma AppendAtEnd(data0: seq<Bytes>, s: seq<nat>, size: nat, length: nat, b: Bytes)
    requires size > 0 && (if s == [] then length == 0 else |s| - 1 == Index(length, size))
    ensures Appended(data0, s, size, length, b) == FileContents(data0, s, size, length) + b
  {
    AppendOffsetIsEnd(s, length, size);
  }

  // ----- when the disk is large enough -----

  /** A chain that has grown until nothing was free has taken everything that was. */
  lemma GrownToTheEnd(fat0: Fat, s: seq<nat>, fat: Fat, t: seq<nat>)
    requires Grown(fat0, s, fat, t)
    ensures |s| <= |t| <= |s| + |FreeClusters(fat0)|
    ensures FreeClusters(fat) == [] ==> |t| == |s| + |FreeClusters(fat0)|
  {
  }

  lemma {:induction false} StartGrows(j: nat, k: nat, n: nat)
    requires j <= k
    ensures Start(j, n) <= Start(k, n)
    ensures n > 0 && j < k ==> Start(j, n) < Start(k, n)
  {
    if j < k {
      StartGrows(j, k - 1, n);
    }
  }

  /** A write is complete if and only if the file has a cluster or can get one, a cluster fits the buffer, and the chain
      with every free cluster behind it is long enough. */
  lemma WriteCompleteIff(fat0: Fat, data0: seq<Bytes>, cat: Catalogue, d: nat, k: nat, e: DirEntry, b: Bytes,
                         size: Positive, result: int, fat: Fat, t: seq<nat>, data: seq<Bytes>, cat': Catalogue)
    requires WriteOutcome(fat0, data0, cat, d, k, e, b, size, result, fat, t, data, cat')
    ensures result == |b|
            <==> && (e.Cluster() != 0 || FreeClusters(fat0) != []) && size <= BUFFER_SIZE
                 && |b| <= Start(|ChainOf(cat, e)| + |FreeClusters(fat0)|, size)
  {
    hide Grown, Overwritten, Stored, ChainOf, FreeClusters, Start;
    if 0 <= result {
      GrownToTheEnd(fat0, ChainOf(cat, e), fat, t);
      StartGrows(|t|, |ChainOf(cat, e)| + |FreeClusters(fat0)|, size);
    }
  }

  /** The same for an append, from where it starts. */
  lemma AppendCompleteIff(fat0: Fat, data0: seq<Bytes>, cat: Catalogue, d: nat, k: nat, e: DirEntry, b: Bytes,
                          size: Positive, result: int, fat: Fat, t: seq<nat>, data: seq<Bytes>, cat': Catalogue)
    requires AppendOutcome(fat0, data0, cat, d, k, e, b, size, result, fat, t, data, cat')
    ensures result == |b|
            <==> && (e.Cluster() != 0 || FreeClusters(fat0) != []) && size <= BUFFER_SIZE
                 && AppendOffset(ChainOf(cat, e), e.fileSize, size) + |b|
                    <= Start(|ChainOf(cat, e)| + |FreeClusters(fat0)|, size)
  {
    hide Grown, Overwritten, Stored, ChainOf, FreeClusters, Start, AppendOffset;
    if 0 <= result {
      GrownToTheEnd(fat0, ChainOf(cat, e), fat, t);
      StartGrows(|t|, |ChainOf(cat, e)| + |FreeClusters(fat0)|, size);
    }
  }

  // ----- where runs begin -----

  /** The catalogue of a volume with an empty root directory of one cluster. */
  ghost function OnlyRoot(root: nat, per: nat): Catalogue {
    Catalogue(map[root := [root]], Namespace(root, map[root := LinksOf(EmptySlots(per))], map[]))
  }

  /** A volume whose root directory is one zeroed cluster is consistent, whatever else is on the disk. */
  lemma EmptyVolume(fat: Fat, data: seq<Bytes>, root: nat, per: nat)
    requires 2 <= root < |fat| == |data| < CLUSTER_LAST && fat[root] == CLUSTER_EOC && data[root] == Zeros(32 * per)
    ensures Consistent(fat, data, OnlyRoot(root, per))
    ensures SlotsAt(data, OnlyRoot(root, per).chains, root) == EmptySlots(per)
  {
    var slots := EmptySlots(per);
    SlotsOfZeros(per);
    assert [root][..0] == [];
    assert ChainSlots(data, []) == [];
    assert ChainSlots(data, [root]) == slots;
    forall k | 0 <= k < |slots| ensures GoodEntry(slots[k]) && LinkOf(slots[k]).Nothing? {
    }
  }
}
