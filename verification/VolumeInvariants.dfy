/** What runs keep beyond consistency: sizes that fit their chains, and directories that hang from the root. */
module VolumeInvariants {
  import opened Options
  import opened Words
  import opened Chains
  import opened Fat32
  import opened Offsets
  import opened Entries
  import opened Slots
  import opened Listings
  import opened Directories
  import opened Files
  import opened Namespaces
  import opened Catalogues
  import opened FileSystems
  import opened Subdirectories
  import opened Renames
  import opened FileWrites
  import opened VolumeLaws
  import opened VolumeRuns

  // ----- one slot changes -----

  /** Slot `k` holds `e`, and empty slots may have been added. */
  ghost predicate OneSlot(slots: Directory, slots': Directory, k: nat, e: DirEntry) {
    && k < |slots'| && |slots| <= |slots'| && slots'[k] == e
    && (forall j :: 0 <= j < |slots| && j != k ==> slots'[j] == slots[j])
    && (forall j :: |slots| <= j < |slots'| && j != k ==> slots'[j] == EMPTY_SLOT)
  }

  lemma InsertedIsOneSlot(slots: Directory, e: DirEntry, per: Positive)
    ensures OneSlot(slots, Inserted(slots, e, per), First(slots, FreeSlot), e)
  {
    InsertedSlots(slots, e, per);
  }

  lemma ReplacedIsOneSlot(slots: Directory, k: nat, e: DirEntry)
    requires k < |slots|
    ensures OneSlot(slots, slots[k := e], k, e)
  {
  }

  // ----- sizes -----

  /** The size of a file is covered by its chain; a file without clusters is empty. */
  ghost predicate FileFits(cat: Catalogue, e: DirEntry, size: Positive) {
    IsShown(e) && !e.IsDirectory() ==> e.fileSize <= Start(|ChainOf(cat, e)|, size)
  }

  ghost predicate DirectoryFits(v: Snapshot, d: nat, size: Positive) {
    forall j: nat :: j < |v.SlotsOf(d)| ==> FileFits(v.cat, v.SlotsOf(d)[j], size)
  }

  ghost predicate SizesFit(v: Snapshot, size: Positive) {
    forall d :: d in v.cat.ns.tree ==> DirectoryFits(v, d, size)
  }

  /** A file entry whose chain is not touched has the chain it had. */
  lemma SameChain(v: Snapshot, v': Snapshot, touched: set<nat>, x: nat, j: nat)
    requires v.Ok() && v'.Ok() && Kept(v.data, v.cat.chains, v'.data, v'.cat.chains, touched)
    requires x in v.cat.ns.tree && j < |v.SlotsOf(x)| && IsShown(v.SlotsOf(x)[j]) && !v.SlotsOf(x)[j].IsDirectory()
    requires v.SlotsOf(x)[j].Cluster() !in touched
    ensures ChainOf(v'.cat, v.SlotsOf(x)[j]) == ChainOf(v.cat, v.SlotsOf(x)[j])
  {
    hide Consistent, SlotsAt, LinkOf, GoodEntry, IsShown, SameOn, IsChain;
    var e := v.SlotsOf(x)[j];
    NoChainAtZero(v.fat, v.data, v.cat);
    NoChainAtZero(v'.fat, v'.data, v'.cat);
    FileKnown(v.fat, v.data, v.cat, x, j, e);
  }

  /** Where no slot other than `k` of `x` owns what is touched, the entries of `x` other than `k` fit as before. */
  lemma SlotFits(v: Snapshot, v': Snapshot, touched: set<nat>, c: nat, x: nat, k: nat, j: nat, size: Positive)
    requires v.Ok() && v'.Ok() && Kept(v.data, v.cat.chains, v'.data, v'.cat.chains, touched)
    requires forall y :: y in touched ==> y in v.cat.ns.tree || y == c
    requires x in v.cat.ns.tree && j < |v.SlotsOf(x)| && j != k && FileFits(v.cat, v.SlotsOf(x)[j], size)
    requires c in v.cat.ns.owner ==> v.cat.ns.owner[c] == Home(x, k) || v.cat.ns.owner[c].dir != x
    ensures FileFits(v'.cat, v.SlotsOf(x)[j], size)
  {
    hide Consistent, SlotsAt, GoodEntry, IsShown, SameOn, IsChain, Start, ChainOf, Kept, ChainOk, LinkOf,
         Namespace.OwnerOk, Namespace.LinkOk;
    var e := v.SlotsOf(x)[j];
    if IsShown(e) && !e.IsDirectory() {
      FileKnown(v.fat, v.data, v.cat, x, j, e);
      SlotKnown(v.fat, v.data, v.cat, x, j);
      NoChainAtZero(v.fat, v.data, v.cat);
      NoChainAtZero(v'.fat, v'.data, v'.cat);
      if e.Cluster() == 0 {
        NoChain(v.cat, v'.cat, e);
      } else {
        SameChain(v, v', touched, x, j);
      }
    }
  }

  lemma NoChain(cat: Catalogue, cat': Catalogue, e: DirEntry)
    requires e.Cluster() == 0 && 0 !in cat.chains && 0 !in cat'.chains
    ensures ChainOf(cat', e) == ChainOf(cat, e) == []
  {
  }

  /** A directory in which one slot has changed. */
  lemma OneSlotFits(v: Snapshot, v': Snapshot, touched: set<nat>, c: nat, x: nat, k: nat, e: DirEntry, size: Positive)
    requires v.Ok() && v'.Ok() && Kept(v.data, v.cat.chains, v'.data, v'.cat.chains, touched)
    requires forall y :: y in touched ==> y in v.cat.ns.tree || y == c
    requires x in v.cat.ns.tree && DirectoryFits(v, x, size) && OneSlot(v.SlotsOf(x), v'.SlotsOf(x), k, e)
    requires c in v.cat.ns.owner ==> v.cat.ns.owner[c] == Home(x, k) || v.cat.ns.owner[c].dir != x
    requires FileFits(v'.cat, e, size)
    ensures DirectoryFits(v', x, size)
  {
    hide Consistent, SlotsAt, FileFits, Kept;
    EmptyFits(v'.cat, size);
    forall j: nat | j < |v'.SlotsOf(x)| ensures FileFits(v'.cat, v'.SlotsOf(x)[j], size) {
      if j != k && j < |v.SlotsOf(x)| {
        SlotFits(v, v', touched, c, x, k, j, size);
      }
    }
  }

  lemma EmptyFits(cat: Catalogue, size: Positive)
    ensures FileFits(cat, EMPTY_SLOT, size)
  {
    EmptySlotIsEnd();
  }

  /** A directory in which nothing has changed and which owns nothing that is touched. */
  lemma OtherFits(v: Snapshot, v': Snapshot, touched: set<nat>, c: nat, x: nat, size: Positive)
    requires v.Ok() && v'.Ok() && Kept(v.data, v.cat.chains, v'.data, v'.cat.chains, touched)
    requires forall y :: y in touched ==> y in v.cat.ns.tree || y == c
    requires x in v.cat.ns.tree && x !in touched && DirectoryFits(v, x, size)
    requires c in v.cat.ns.owner ==> v.cat.ns.owner[c].dir != x
    ensures DirectoryFits(v', x, size)
  {
    hide Consistent, SlotsAt, FileFits, Kept;
    KeptSlots(v.fat, v.data, v.cat, v'.data, v'.cat.chains, touched, x);
    forall j: nat | j < |v'.SlotsOf(x)| ensures FileFits(v'.cat, v'.SlotsOf(x)[j], size) {
      SlotFits(v, v', touched, c, x, j + 1, j, size);
    }
  }

  /** All directories at once, when one slot of one directory has changed and the chain at `c` was owned by it. */
  lemma AllFit(v: Snapshot, v': Snapshot, d: nat, c: nat, k: nat, e: DirEntry, size: Positive)
    requires v.Ok() && v'.Ok() && Kept(v.data, v.cat.chains, v'.data, v'.cat.chains, {d, c}) && SizesFit(v, size)
    requires d in v.cat.ns.tree && OneSlot(v.SlotsOf(d), v'.SlotsOf(d), k, e)
    requires c in v.cat.ns.owner ==> v.cat.ns.owner[c] == Home(d, k)
    requires c !in v'.cat.ns.tree || c == d
    requires forall x :: x in v'.cat.ns.tree ==> x in v.cat.ns.tree
    requires FileFits(v'.cat, e, size)
    ensures SizesFit(v', size)
  {
    hide Consistent, SlotsAt, FileFits, Kept, OneSlot, DirectoryFits;
    forall x | x in v'.cat.ns.tree ensures DirectoryFits(v', x, size) {
      if x == d {
        OneSlotFits(v, v', {d, c}, c, d, k, e, size);
      } else {
        OtherFits(v, v', {d, c}, c, x, size);
      }
    }
  }

  lemma NewEntryFits(cat: Catalogue, name: RawName, attributes: Byte, cluster: nat, size: Positive)
    requires cluster < TWO_32
    ensures FileFits(cat, NewEntry(name, attributes, cluster), size)
  {
  }

  lemma CreateFits(v: Snapshot, d: nat, leaf: Bytes, per: Positive, v': Snapshot, size: Positive)
    requires v.Ok() && d in v.cat.ns.tree && 0 !in leaf && CreateStep(v, d, leaf, per, v') && SizesFit(v, size)
    ensures SizesFit(v', size)
  {
    hide Consistent, Kept, EntryAdded, NewEntry, ShortName, Accepted, Listing, FindListed, SlotsAt, HasRoom, LinkOf,
         GoodEntry, IsShown, Inserted, SizesFit, FileFits, OneSlot;
    if CanCreate(v, d, leaf) {
      var e := NewEntry(ShortName(leaf), ATTR_ARCHIVE, 0);
      FileEntryFacts(leaf);
      AddedKeeps(v.fat, v.data, v.cat, d, e, per, v'.fat, v'.data, v'.cat);
      InsertedIsOneSlot(v.SlotsOf(d), e, per);
      NewEntryFits(v'.cat, ShortName(leaf), ATTR_ARCHIVE, 0, size);
      assert {d, d} == {d};
      NoChainAtZero(v.fat, v.data, v.cat);
      KeptMore(v.data, v.cat.chains, v'.data, v'.cat.chains, {d}, {d, 0});
      NoChainAtZero(v'.fat, v'.data, v'.cat);
      AllFit(v, v', d, 0, First(v.SlotsOf(d), FreeSlot), e, size);
    }
  }

  lemma TombstoneFits(cat: Catalogue, e: DirEntry, size: Positive)
    ensures FileFits(cat, Tombstone(e), size)
  {
  }

  lemma DeletedFits(v: Snapshot, d: nat, leaf: Bytes, c: nat, v': Snapshot, size: Positive)
    requires v.Ok() && d in v.cat.ns.tree && v.Entry(d, leaf).Some? && !IsDotName(leaf) && SizesFit(v, size)
    requires c == v.Entry(d, leaf).value.Cluster() && v'.Ok()
    requires Deleted(v.fat, v.data, v.cat, v'.fat, v'.data, v'.cat, d, leaf, c)
    ensures SizesFit(v', size)
  {
    hide Consistent, Kept, ShortName, Accepted, Listing, FindListed, LinkOf, GoodEntry, IsShown, GoodSlots, ChainSlots,
         Tombstone, SlotsAt, Judge, SizesFit, FileFits, OneSlot, LinksOf;
    EntryKnown(v, d, leaf);
    NoChainAtZero(v.fat, v.data, v.cat);
    NoChainAtZero(v'.fat, v'.data, v'.cat);
    var slots, k := v.SlotsOf(d), v.SlotOf(d, leaf);
    ReplacedIsOneSlot(slots, k, Tombstone(slots[k]));
    TombstoneFits(v'.cat, slots[k], size);
    assert {c, d} == {d, c};
    AllFit(v, v', d, c, k, Tombstone(slots[k]), size);
  }

  lemma FreshFits(cat: Catalogue, c: nat, d: nat, per: nat, size: Positive)
    requires 0 < c < TWO_32 && 0 < d < TWO_32 && per >= 2
    ensures forall j: nat :: j < per ==> FileFits(cat, FreshDirectory(c, d, per)[j], size)
  {
    DotEntryFacts(1, c);
    DotEntryFacts(2, d);
    EmptyFits(cat, size);
    forall j: nat | j < per ensures FileFits(cat, FreshDirectory(c, d, per)[j], size) {
      assert j >= 2 ==> FreshDirectory(c, d, per)[j] == EmptySlots(per)[j];
    }
  }

  lemma MakeFits(v: Snapshot, d: nat, leaf: Bytes, per: Positive, v': Snapshot, size: Positive)
    requires v.Ok() && d in v.cat.ns.tree && IsText(leaf) && MakeStep(v, d, leaf, per, v') && SizesFit(v, size)
    ensures SizesFit(v', size)
  {
    hide Consistent, Kept, DirectoryLaid, NewEntry, ShortName, Accepted, Listing, FindListed, SlotsAt, Inserted, First,
         FreshDirectory, IsText, FileFits, OneSlot, DirectoryFits;
    MakeKeeps(v, d, leaf, per, v');
    NoChainAtZero(v.fat, v.data, v.cat);
    NoChainAtZero(v'.fat, v'.data, v'.cat);
    if CanMake(v, d, leaf) {
      var c := LowestFree(v.fat);
      MadeKeeps(v.fat, v.data, v.cat, d, leaf, per, v'.fat, v'.data, v'.cat);
      var e := NewEntry(ShortName(leaf), ATTR_DIRECTORY, c);
      InsertedIsOneSlot(v.SlotsOf(d), e, per);
      NewEntryFits(v'.cat, ShortName(leaf), ATTR_DIRECTORY, c, size);
      forall x | x in v'.cat.ns.tree ensures DirectoryFits(v', x, size) {
        if x == c {
          FreshFits(v'.cat, c, d, per, size);
          FitsBySlots(v', c, FreshDirectory(c, d, per), size);
        } else if x == d {
          OneSlotFits(v, v', {d}, 0, d, First(v.SlotsOf(d), FreeSlot), e, size);
        } else {
          OtherFits(v, v', {d}, 0, x, size);
        }
      }
    } else {
      forall x | x in v'.cat.ns.tree ensures DirectoryFits(v', x, size) {
        OtherFits(v, v', {}, 0, x, size);
      }
    }
  }

  lemma FitsBySlots(v: Snapshot, x: nat, slots: Directory, size: Positive)
    requires v.SlotsOf(x) == slots && forall j: nat :: j < |slots| ==> FileFits(v.cat, slots[j], size)
    ensures DirectoryFits(v, x, size)
  {
  }

  lemma RenamedFits(cat: Catalogue, e: DirEntry, name: RawName, size: Positive)
    requires FileFits(cat, e, size) && IsShown(e)
    ensures FileFits(cat, e.(name := name), size)
  {
  }

  lemma RenameFits(v: Snapshot, d: nat, leaf: Bytes, newLeaf: Bytes, v': Snapshot, size: Positive)
    requires v.Ok() && d in v.cat.ns.tree && IsText(newLeaf) && !IsDotName(leaf) && RenameStep(v, d, leaf, newLeaf, v')
    requires SizesFit(v, size)
    ensures SizesFit(v', size)
  {
    hide Consistent, Kept, ShortName, Accepted, Listing, FindListed, SlotsAt, IsText, LinkOf, GoodEntry,
         GoodSlots, IsShown, FileFits, OneSlot, ChainSlots;
    if CanRename(v, d, leaf, newLeaf) {
      EntryKnown(v, d, leaf);
      RenamedKeeps(v.fat, v.data, v.cat, d, leaf, newLeaf, v'.data);
      DirectoryKnown(v'.fat, v'.data, v'.cat, d);
      var slots, k := v.SlotsOf(d), v.SlotOf(d, leaf);
      assert DirectoryFits(v, d, size);
      RenamedFits(v.cat, slots[k], ShortName(newLeaf), size);
      ReplacedIsOneSlot(slots, k, slots[k].(name := ShortName(newLeaf)));
      NoChainAtZero(v.fat, v.data, v.cat);
      KeptMore(v.data, v.cat.chains, v'.data, v'.cat.chains, {d}, {d, 0});
      AllFit(v, v', d, 0, k, slots[k].(name := ShortName(newLeaf)), size);
    }
  }

  /** A moved file has its chain and its size. */
  lemma MovedFits(v: Snapshot, v': Snapshot, touched: set<nat>, x: nat, k: nat, name: RawName, size: Positive)
    requires v.Ok() && v'.Ok() && Kept(v.data, v.cat.chains, v'.data, v'.cat.chains, touched)
    requires forall y :: y in touched ==> y in v.cat.ns.tree
    requires x in v.cat.ns.tree && k < |v.SlotsOf(x)| && IsShown(v.SlotsOf(x)[k])
    requires FileFits(v.cat, v.SlotsOf(x)[k], size)
    ensures FileFits(v'.cat, v.SlotsOf(x)[k].(name := name), size)
  {
    hide Consistent, SlotsAt, GoodEntry, IsShown, Kept, ChainOf, Start;
    var e := v.SlotsOf(x)[k];
    if !e.IsDirectory() {
      FileKnown(v.fat, v.data, v.cat, x, k, e);
      NoChainAtZero(v.fat, v.data, v.cat);
      SameChain(v, v', touched, x, k);
      SameCluster(v'.cat, e, name);
    }
  }

  lemma SameCluster(cat: Catalogue, e: DirEntry, name: RawName)
    ensures ChainOf(cat, e.(name := name)) == ChainOf(cat, e)
  {
  }

  lemma MoveFits(v: Snapshot, d: nat, leaf: Bytes, destination: nat, newLeaf: Bytes, per: Positive, v': Snapshot,
                 size: Positive)
    requires v.Ok() && d in v.cat.ns.tree && destination in v.cat.ns.tree && destination != d
    requires IsText(newLeaf) && !IsDotName(leaf) && MoveStep(v, d, leaf, destination, newLeaf, per, v')
    requires SizesFit(v, size)
    ensures SizesFit(v', size)
  {
    hide Consistent, Kept, EntryTransferred, ShortName, Accepted, Listing, FindListed, SlotsAt, IsText, LinkOf,
         GoodEntry, GoodSlots, IsShown, HasRoom, Inserted, FileFits, OneSlot, Tombstone;
    if CanMove(v, d, leaf, destination, newLeaf) {
      EntryKnown(v, d, leaf);
      MoveKeeps(v, d, leaf, destination, newLeaf, per, v');
      var slots, into, k := v.SlotsOf(d), v.SlotsOf(destination), v.SlotOf(d, leaf);
      var e := slots[k].(name := ShortName(newLeaf));
      TransferSlots(v.fat, v.data, v.cat, d, destination, leaf, e, per, v'.fat, v'.data, v'.cat);
      NoChainAtZero(v.fat, v.data, v.cat);
      FoundInside(slots, leaf);
      ReplacedIsOneSlot(slots, k, Tombstone(slots[k]));
      TombstoneFits(v'.cat, slots[k], size);
      InsertedIsOneSlot(into, e, per);
      assert DirectoryFits(v, d, size);
      MovedFits(v, v', {d, destination}, d, k, ShortName(newLeaf), size);
      forall x | x in v'.cat.ns.tree ensures DirectoryFits(v', x, size) {
        if x == d {
          OneSlotFits(v, v', {d, destination}, 0, d, k, Tombstone(slots[k]), size);
        } else if x == destination {
          OneSlotFits(v, v', {d, destination}, 0, destination, First(into, FreeSlot), e, size);
        } else {
          OtherFits(v, v', {d, destination}, 0, x, size);
        }
      }
    }
  }

  /** The slot a write has changed, and nothing else. */
  lemma StoredSlot(v: Snapshot, d: nat, k: nat, e: DirEntry, e': DirEntry, t: seq<nat>, v': Snapshot, size: Positive)
    requires v.Ok() && v'.Ok() && HoldsFile(v.data, v.cat, d, k, e) && SizesFit(v, size)
    requires Stored(v.data, v.cat, d, k, e, e', t, v'.data, v'.cat)
    requires FileFits(v'.cat, e', size)
    ensures SizesFit(v', size)
  {
    hide Consistent, Kept, SlotsAt, LinkOf, GoodEntry, IsShown, FileFits, OneSlot, ChainOf, SizesFit;
    FileKnown(v.fat, v.data, v.cat, d, k, e);
    NoChainAtZero(v.fat, v.data, v.cat);
    NoChainAtZero(v'.fat, v'.data, v'.cat);
    if e.Cluster() != 0 {
      FileHome(v.fat, v.data, v.cat, d, k, e);
    }
    ReplacedIsOneSlot(v.SlotsOf(d), k, e');
    AllFit(v, v', d, e.Cluster(), k, e', size);
  }

  /** The size a write leaves fits the chain it leaves. */
  lemma WrittenFits(cat: Catalogue, e: DirEntry, c: nat, complete: bool, length: Word32, t: seq<nat>, size: Positive)
    requires c < TWO_32
    requires complete ==> c in cat.chains && cat.chains[c] == t && length <= Start(|t|, size)
    ensures FileFits(cat, WrittenEntry(e, c, complete, length), size)
  {
    ClusterRoundTrip(e, c);
  }

  lemma WriteFits(v: Snapshot, d: nat, leaf: Bytes, bytes: Bytes, per: Positive, v': Snapshot)
    requires v.Ok() && d in v.cat.ns.tree && WriteFileStep(v, d, leaf, bytes, per, v') && SizesFit(v, 32 * per)
    ensures SizesFit(v', 32 * per)
  {
    hide Consistent, Kept, Listing, FindListed, SlotsAt, LinkOf, GoodEntry, GoodSlots, IsShown, FileSaved, ChainSaved,
         SettledCatalogue, ChainOf, SlotsRewritten, Start, SizesFit, FileFits, WrittenEntry;
    var found := v.Entry(d, leaf);
    if found.Some? && !found.value.IsDirectory() {
      EntryKnown(v, d, leaf);
      var e, k, size := found.value, v.SlotOf(d, leaf), 32 * per;
      var result: int, t: seq<nat> :| WriteOutcome(v.fat, v.data, v.cat, d, k, e, bytes, size, result, v'.fat, t,
                                                   v'.data, v'.cat);
      WriteKeeps(v.fat, v.data, v.cat, d, k, e, bytes, size, result, v'.fat, t, v'.data, v'.cat);
      var e' := WrittenEntry(e, if result == |bytes| then t[0] else 0, result == |bytes|, |bytes|);
      FileKnown(v.fat, v.data, v.cat, d, k, e);
      if result == |bytes| {
        SavedHeadOf(v.fat, v.data, v.cat, d, k, e', ChainOf(v.cat, e), v'.fat, t, v'.data);
        WrittenEntryFacts(e, t[0], true, |bytes|);
      }
      WrittenFits(v'.cat, e, if result == |bytes| then t[0] else 0, result == |bytes|, |bytes|, t, size);
      StoredSlot(v, d, k, e, e', t, v', size);
    }
  }

  // ----- appending -----

  /** The file fills its chain to the last byte. */
  ghost predicate IsFull(cat: Catalogue, e: DirEntry, size: Positive) {
    ChainOf(cat, e) != [] && e.fileSize == Start(|ChainOf(cat, e)|, size)
  }

  /** A complete append leaves a size within the chain exactly if the file was not full, or nothing was appended. */
  lemma AppendLengthIff(s: seq<nat>, t: seq<nat>, length: nat, n: nat, size: Positive)
    requires length <= Start(|s|, size) && |s| <= |t| && t != []
    requires AppendOffset(s, length, size) + n <= Start(|t|, size)
    requires |t| > |s| && |t| > 1 ==> Start(|t| - 1, size) < AppendOffset(s, length, size) + n
    ensures length + n <= Start(|t|, size) <==> n == 0 || s == [] || length != Start(|s|, size)
  {
    hide Index, Rest, Start;
    StartSteps(|t|, size);
    StartGrows(|s|, |t|, size);
    if s == [] {
      StartSteps(0, size);
      SmallRest(length, size);
    } else {
      var j := |s| - 1;
      StartSteps(|s|, size);
      Recompose(length, size);
      InFirst(length, |s|, size);
      if length == Start(|s|, size) {
        Decompose(|s|, 0, size);
      } else {
        StartGrows(Index(length, size), j, size);
      }
    }
  }

  lemma StartSteps(k: nat, n: nat)
    ensures Start(0, n) == 0 && (k > 0 ==> Start(k, n) == Start(k - 1, n) + n)
  {
  }

  lemma SmallRest(p: nat, n: nat)
    requires n > 0
    ensures p == 0 ==> Rest(p, n) == 0
  {
  }

  lemma FitsWhenAppended(cat: Catalogue, e: DirEntry, c: nat, length: Word32, t: seq<nat>, size: Positive)
    requires 0 < c < TWO_32 && c in cat.chains && cat.chains[c] == t && IsShown(e) && !e.IsDirectory()
    ensures FileFits(cat, AppendedEntry(e, c, true, length), size) <==> length <= Start(|t|, size)
  {
    ClusterRoundTrip(e, c);
  }

  lemma DirectoryFitsAt(v: Snapshot, d: nat, k: nat, size: Positive)
    requires SizesFit(v, size) && d in v.cat.ns.tree && k < |v.SlotsOf(d)|
    ensures FileFits(v.cat, v.SlotsOf(d)[k], size)
  {
    hide FileFits, SlotsAt;
    assert DirectoryFits(v, d, size);
  }

  /** After a complete append the sizes fit exactly if the new one does. */
  lemma CompleteFitsIff(v: Snapshot, d: nat, k: nat, e: DirEntry, length: Word32, t: seq<nat>, v': Snapshot,
                        size: Positive)
    requires v.Ok() && v'.Ok() && HoldsFile(v.data, v.cat, d, k, e) && SizesFit(v, size) && d in v.cat.ns.tree
    requires t != [] && 0 < t[0] < TWO_32 && t[0] in v'.cat.chains && v'.cat.chains[t[0]] == t
    requires IsShown(e) && !e.IsDirectory()
    requires Stored(v.data, v.cat, d, k, e, AppendedEntry(e, t[0], true, length), t, v'.data, v'.cat)
    ensures SizesFit(v', size) <==> length <= Start(|t|, size)
  {
    hide Consistent, Kept, SlotsAt, GoodEntry, IsShown, Start, SizesFit, FileFits, LinkOf, ChainOf, AppendedEntry;
    var e' := AppendedEntry(e, t[0], true, length);
    FitsWhenAppended(v'.cat, e, t[0], length, t, size);
    if length <= Start(|t|, size) {
      StoredSlot(v, d, k, e, e', t, v', size);
    } else if SizesFit(v', size) {
      StoredAt(v, d, k, e, e', t, v');
      DirectoryFitsAt(v', d, k, size);
    }
  }

  /** After an append sizes fit chains again exactly if it was not a complete one of some bytes to a full file. */
  lemma AppendOutcomeFitsIff(v: Snapshot, d: nat, k: nat, e: DirEntry, bytes: Bytes, size: Positive, result: int,
                             t: seq<nat>,
                             v': Snapshot)
    requires v.Ok() && HoldsFile(v.data, v.cat, d, k, e) && SizesFit(v, size)
    requires AppendOutcome(v.fat, v.data, v.cat, d, k, e, bytes, size, result, v'.fat, t, v'.data, v'.cat)
    ensures SizesFit(v', size) <==> !(result == |bytes| && bytes != [] && IsFull(v.cat, e, size))
  {
    hide Consistent, Kept, SlotsAt, GoodEntry, IsShown, FileSaved, ChainSaved, SettledCatalogue, Start, SizesFit,
         FileFits, AppendOffset, LinkOf, ChainOf, AppendedEntry;
    AppendKeeps(v.fat, v.data, v.cat, d, k, e, bytes, size, result, v'.fat, t, v'.data, v'.cat);
    FileKnown(v.fat, v.data, v.cat, d, k, e);
    DirectoryFitsAt(v, d, k, size);
    FileFitsIs(v.cat, e, size);
    if result == -101 {
      SameFits(v, v', size);
    } else {
      var s, e' := ChainOf(v.cat, e), AppendedEntry(e, t[0], result == |bytes|, e.fileSize + |bytes|);
      SavedHeadOf(v.fat, v.data, v.cat, d, k, e', s, v'.fat, t, v'.data);
      SavedGrown(v.fat, v.data, v.cat, d, k, e', s, v'.fat, t, v'.data);
      AppendedEntryFacts(e, t[0], result == |bytes|, e.fileSize + |bytes|);
      if result == |bytes| {
        AppendLengthIff(s, t, e.fileSize, |bytes|, size);
        CompleteFitsIff(v, d, k, e, e.fileSize + |bytes|, t, v', size);
      } else {
        CutShortFits(v, e, t, s, v', size);
        UnchangedEntry(e, t[0], e.fileSize + |bytes|);
        StoredSlot(v, d, k, e, e, t, v', size);
      }
    }
  }

  lemma FileFitsIs(cat: Catalogue, e: DirEntry, size: Positive)
    requires FileFits(cat, e, size) && IsShown(e) && !e.IsDirectory()
    ensures e.fileSize <= Start(|ChainOf(cat, e)|, size)
  {
  }

  lemma UnchangedEntry(e: DirEntry, c: nat, length: Word32)
    requires c < TWO_32
    ensures AppendedEntry(e, c, false, length) == e
  {
  }

  lemma SameFits(v: Snapshot, v': Snapshot, size: Positive)
    requires SizesFit(v, size) && v'.data == v.data && v'.cat == v.cat
    ensures SizesFit(v', size)
  {
    hide FileFits, SlotsAt;
    forall d | d in v'.cat.ns.tree ensures DirectoryFits(v', d, size) {
      assert DirectoryFits(v, d, size) && v'.SlotsOf(d) == v.SlotsOf(d);
    }
  }

  lemma SavedGrown(fat0: Fat, data0: seq<Bytes>, cat: Catalogue, d: nat, k: nat, e': DirEntry, s: seq<nat>,
                   fat: Fat, t: seq<nat>, data: seq<Bytes>)
    requires ChainSaved(fat0, data0, cat, d, k, e', s, fat, t, data)
    ensures |s| <= |t|
  {
  }

  lemma StoredAt(v: Snapshot, d: nat, k: nat, e: DirEntry, e': DirEntry, t: seq<nat>, v': Snapshot)
    requires Stored(v.data, v.cat, d, k, e, e', t, v'.data, v'.cat) && d in v.cat.ns.tree
    ensures d in v'.cat.ns.tree && k < |v'.SlotsOf(d)| && v'.SlotsOf(d)[k] == e'
  {
  }

  /** An entry whose chain has only grown fits as before. */
  lemma CutShortFits(v: Snapshot, e: DirEntry, t: seq<nat>, s: seq<nat>, v': Snapshot, size: Positive)
    requires s == ChainOf(v.cat, e) && |s| <= |t| && t != [] && t[0] >= 2 && FileFits(v.cat, e, size)
    requires e.Cluster() == 0 ==> s == []
    requires e.Cluster() != 0 ==> s != [] && LinkOf(e) == OwnsFile(e.Cluster())
    requires e.Cluster() != 0 ==> t[0] in v'.cat.chains && v'.cat.chains[t[0]] == t && e.Cluster() == t[0]
    ensures FileFits(v'.cat, e, size)
  {
    StartGrows(|s|, |t|, size);
  }

  // ----- sizes over whole runs -----

  /** The operation is an append of some bytes to a full file, with a disk large enough for all of them. */
  ghost predicate Overfills(v: Snapshot, op: Operation, per: Positive) {
    match op
    case Append(d, leaf, bytes) =>
      var found := v.Entry(d, leaf);
      && found.Some? && !found.value.IsDirectory() && bytes != [] && IsFull(v.cat, found.value, 32 * per)
      && 32 * per <= BUFFER_SIZE
      && AppendOffset(ChainOf(v.cat, found.value), found.value.fileSize, 32 * per) + |bytes|
         <= Start(|ChainOf(v.cat, found.value)| + |FreeClusters(v.fat)|, 32 * per)
    case Create(_, _) => false
    case Delete(_, _) => false
    case RemoveDir(_, _, _) => false
    case MakeDir(_, _) => false
    case Rename(_, _, _, _) => false
    case Move(_, _, _, _, _) => false
    case Write(_, _, _) => false
  }

  lemma AppendFitsIff(v: Snapshot, d: nat, leaf: Bytes, bytes: Bytes, per: Positive, v': Snapshot)
    requires v.Ok() && d in v.cat.ns.tree && AppendFileStep(v, d, leaf, bytes, per, v') && SizesFit(v, 32 * per)
    ensures SizesFit(v', 32 * per) <==> !Overfills(v, Append(d, leaf, bytes), per)
  {
    hide Consistent, Kept, Listing, FindListed, SlotsAt, LinkOf, GoodEntry, GoodSlots, IsShown, FileSaved, ChainSaved,
         SettledCatalogue, SlotsRewritten, Start, SizesFit, AppendOffset, FreeClusters;
    var found := v.Entry(d, leaf);
    if found.Some? && !found.value.IsDirectory() {
      EntryKnown(v, d, leaf);
      var e, k, size := found.value, v.SlotOf(d, leaf), 32 * per;
      var result: int, t: seq<nat> :| AppendOutcome(v.fat, v.data, v.cat, d, k, e, bytes, size, result, v'.fat, t,
                                                    v'.data, v'.cat);
      FileKnown(v.fat, v.data, v.cat, d, k, e);
      AppendOutcomeFitsIff(v, d, k, e, bytes, size, result, t, v');
      AppendCompleteIff(v.fat, v.data, v.cat, d, k, e, bytes, size, result, v'.fat, t, v'.data, v'.cat);
    }
  }

  lemma DeleteFits(v: Snapshot, d: nat, leaf: Bytes, v': Snapshot, size: Positive)
    requires v.Ok() && d in v.cat.ns.tree && SizesFit(v, size)
    requires DeleteStep(v, d, leaf, v') || (!IsDotName(leaf) && RemoveStep(v, d, leaf, v'))
    ensures SizesFit(v', size)
  {
    hide Consistent, Kept, Deleted, Listing, FindListed, SlotsAt, LinkOf, GoodEntry, IsShown, GoodSlots, First,
         SizesFit, Good;
    if DeleteStep(v, d, leaf, v') {
      DeleteKeeps(v, d, leaf, v');
    } else {
      RemoveKeeps(v, d, leaf, v');
    }
    GoodIsOk(v, v', {d, NamedCluster(v, d, leaf)});
    if v.Entry(d, leaf).Some? {
      EntryKnown(v, d, leaf);
      if Deleted(v.fat, v.data, v.cat, v'.fat, v'.data, v'.cat, d, leaf,
                 v.Entry(d, leaf).value.Cluster()) && !IsDotName(leaf) {
        DeletedFits(v, d, leaf, v.Entry(d, leaf).value.Cluster(), v', size);
      }
    }
  }

  lemma GoodIsOk(v: Snapshot, v': Snapshot, touched: set<nat>)
    requires Good(v, v', touched)
    ensures v'.Ok()
  {
    hide Consistent, Kept;
  }

  /** One operation keeps every size within its chain if and only if it does not overfill a file. */
  lemma StepFitsIff(v: Snapshot, op: Operation, per: Positive, v': Snapshot)
    requires v.Ok() && Enabled(v, op) && Step(v, op, per, v') && SizesFit(v, 32 * per)
    ensures SizesFit(v', 32 * per) <==> !Overfills(v, op, per)
  {
    hide Consistent, CreateStep, DeleteStep, RemoveStep, MakeStep, RenameStep, MoveStep, WriteFileStep, AppendFileStep,
         SizesFit, IsText, IsFull, ChainOf, FreeClusters, Start, AppendOffset, Listing, FindListed;
    match op {
      case Create(d, leaf) => CreateFits(v, d, leaf, per, v', 32 * per);
      case Delete(d, leaf) => DeleteFits(v, d, leaf, v', 32 * per);
      case RemoveDir(d, leaf, entry) =>
        RemovalIsListed(v, d, leaf, entry, v');
        if v' != v {
          DeleteFits(v, d, leaf, v', 32 * per);
        }
      case MakeDir(d, leaf) => MakeFits(v, d, leaf, per, v', 32 * per);
      case Rename(d, leaf, newLeaf, occupied) =>
        if !occupied {
          RenameFits(v, d, leaf, newLeaf, v', 32 * per);
        }
      case Move(d, leaf, destination, newLeaf, occupied) =>
        if !occupied {
          MoveFits(v, d, leaf, destination, newLeaf, per, v', 32 * per);
        }
      case Write(d, leaf, bytes) => WriteFits(v, d, leaf, bytes, per, v');
      case Append(d, leaf, bytes) => AppendFitsIff(v, d, leaf, bytes, per, v');
    }
  }

  /** So in a run that overfills no file every size fits its chain at every moment. */
  lemma {:induction false} RunFits(states: seq<Snapshot>, ops: seq<Operation>, per: Positive, i: nat)
    requires IsRun(states, ops, per) && states[0].Ok() && SizesFit(states[0], 32 * per) && i < |states|
    requires forall j: nat :: j < i ==> !Overfills(states[j], ops[j], per)
    ensures SizesFit(states[i], 32 * per)
    decreases i
  {
    hide Consistent, Enabled, Step, SizesFit, Overfills;
    if i > 0 {
      RunFits(states, ops, per, i - 1);
      RunKeeps(states, ops, per, i - 1);
      StepFitsIff(states[i - 1], ops[i - 1], per, states[i]);
    }
  }

  lemma EmptyFitsAll(fat: Fat, data: seq<Bytes>, root: nat, per: Positive)
    requires 2 <= root < |fat| == |data| < CLUSTER_LAST && fat[root] == CLUSTER_EOC && data[root] == Zeros(32 * per)
    ensures SizesFit(Snapshot(fat, data, OnlyRoot(root, per)), 32 * per) && Rooted(OnlyRoot(root, per).ns)
  {
    hide FileFits, SlotsAt, Consistent;
    EmptyVolume(fat, data, root, per);
    var v := Snapshot(fat, data, OnlyRoot(root, per));
    EmptyFits(v.cat, 32 * per);
    FitsBySlots(v, root, EmptySlots(per), 32 * per);
    assert Ranked(v.cat.ns, map[root := 0]);
  }

  // ----- where directories hang -----

  /** The directories that remain have the owners they had. */
  ghost predicate HomesKept(ns: Namespace, ns': Namespace) {
    && ns'.root == ns.root
    && forall x :: x in ns'.tree && x != ns.root ==> HomeKept(ns, ns', x)
  }

  ghost predicate HomeKept(ns: Namespace, ns': Namespace, x: nat) {
    x in ns.tree && x in ns.owner && x in ns'.owner && ns'.owner[x].dir == ns.owner[x].dir
  }

  lemma OwnerIsDirectory(ns: Namespace, x: nat)
    requires ns.Ok() && x in ns.owner
    ensures ns.owner[x].dir in ns.tree
  {
    assert ns.OwnerOk(x);
  }

  lemma DirectoryHasOwner(ns: Namespace, x: nat)
    requires ns.Ok() && x in ns.tree
    ensures x == ns.root || x in ns.owner
    ensures x in ns.owner ==> x != ns.root
  {
    hide Namespace.OwnerOk, Namespace.LinkOk;
  }

  lemma HomesKeepRooted(ns: Namespace, ns': Namespace)
    requires Rooted(ns) && ns'.Ok() && HomesKept(ns, ns')
    ensures Rooted(ns')
  {
    hide Namespace.Ok;
    var depth :| Ranked(ns, depth);
    assert ns'.root in ns'.tree by { RootExists(ns'); }
    var depth' := map x | x in ns'.tree :: if x in depth then depth[x] else 0;
    forall x | x in ns'.tree && x != ns'.root ensures IsBelow(ns', depth', x) {
      assert HomeKept(ns, ns', x) && IsBelow(ns, depth, x);
      OwnerIsDirectory(ns', x);
    }
    assert Ranked(ns', depth');
  }

  lemma RootExists(ns: Namespace)
    requires ns.Ok()
    ensures ns.root in ns.tree
  {
  }

  /** A new directory below `d`. */
  lemma NewKeepsRooted(ns: Namespace, ns': Namespace, d: nat, c: nat)
    requires Rooted(ns) && ns'.Ok() && d in ns.tree && c !in ns.tree && ns'.root == ns.root && c != ns.root
    requires ns'.tree.Keys == ns.tree.Keys + {c} && c in ns'.owner && ns'.owner[c].dir == d
    requires forall x :: x in ns.tree && x != ns.root ==> HomeKept(ns, ns', x)
    ensures Rooted(ns')
  {
    hide Namespace.Ok;
    var depth :| Ranked(ns, depth);
    var depth' := depth[c := depth[d] + 1];
    forall x | x in ns'.tree && x != ns'.root ensures IsBelow(ns', depth', x) {
      if x != c {
        assert HomeKept(ns, ns', x) && IsBelow(ns, depth, x);
      }
    }
    assert Ranked(ns', depth');
  }

  /** The directories of `path` are each owned by the one before. */
  ghost predicate LeadsDown(ns: Namespace, path: seq<nat>) {
    && path != []
    && forall i :: 0 < i < |path| ==> path[i] in ns.owner && ns.owner[path[i]].dir == path[i - 1]
  }

  /** `d` is `c` or lies below it. */
  ghost predicate Below(ns: Namespace, c: nat, d: nat) {
    exists path :: LeadsDown(ns, path) && path[0] == c && path[|path| - 1] == d
  }

  lemma BelowItself(ns: Namespace, c: nat)
    ensures Below(ns, c, c)
  {
    assert LeadsDown(ns, [c]);
  }

  /** A directory other than `c` lies below `c` exactly if its owner does. */
  lemma BelowByOwner(ns: Namespace, c: nat, x: nat)
    requires x in ns.owner && x != c
    ensures Below(ns, c, x) <==> Below(ns, c, ns.owner[x].dir)
  {
    if Below(ns, c, x) {
      var path :| LeadsDown(ns, path) && path[0] == c && path[|path| - 1] == x;
      var up := path[..|path| - 1];
      assert LeadsDown(ns, up) && up[|up| - 1] == path[|path| - 2];
    }
    if Below(ns, c, ns.owner[x].dir) {
      var up :| LeadsDown(ns, up) && up[0] == c && up[|up| - 1] == ns.owner[x].dir;
      assert LeadsDown(ns, up + [x]);
    }
  }

  /** The directory at `c` has been moved below `d2`. */
  ghost predicate Rehung(ns: Namespace, ns': Namespace, c: nat, d2: nat) {
    && ns'.root == ns.root && ns'.tree.Keys == ns.tree.Keys && ns'.owner.Keys == ns.owner.Keys
    && c in ns.owner && c in ns.tree && d2 in ns.tree && ns'.owner[c].dir == d2
    && forall x :: x in ns.owner && x != c ==> ns'.owner[x] == ns.owner[x]
  }

  /** Moving a directory keeps everything hanging from the root exactly if it is not moved into itself or a directory
      below it. */
  lemma RehungIff(ns: Namespace, ns': Namespace, c: nat, d2: nat)
    requires ns.Ok() && ns'.Ok() && Rooted(ns) && Rehung(ns, ns', c, d2)
    ensures Rooted(ns') <==> !Below(ns, c, d2)
  {
    hide Namespace.Ok, Below;
    var depth :| Ranked(ns, depth);
    if Below(ns, c, d2) {
      forall depth' ensures !Ranked(ns', depth') {
        LoopIsNotRanked(ns, depth, ns', depth', c, d2);
      }
    } else {
      MovedIsRanked(ns, depth, ns', c, d2);
    }
  }

  lemma LoopIsNotRanked(ns: Namespace, depth: map<nat, nat>, ns': Namespace, depth': map<nat, nat>, c: nat, d2: nat)
    requires ns.Ok() && ns'.Ok() && Ranked(ns, depth) && Rehung(ns, ns', c, d2) && Below(ns, c, d2)
    ensures !Ranked(ns', depth')
  {
    hide Namespace.Ok;
    DirectoryHasOwner(ns', c);
    if Ranked(ns', depth') {
      var path :| LeadsDown(ns, path) && path[0] == c && path[|path| - 1] == d2;
      assert IsBelow(ns', depth', c);
      DeeperAlong(ns, depth, ns', depth', path, c, d2, |path| - 1);
      assert false;
    }
  }

  /** Along a path down from `c` the depths grow, in the old tree and in the new one. */
  lemma {:induction false} DeeperAlong(ns: Namespace, depth: map<nat, nat>, ns': Namespace, depth': map<nat, nat>,
                                       path: seq<nat>, c: nat, d2: nat, i: nat)
    requires ns.Ok() && ns'.Ok() && Ranked(ns, depth) && Ranked(ns', depth') && Rehung(ns, ns', c, d2)
    requires LeadsDown(ns, path) && path[0] == c && path[|path| - 1] == d2 && i < |path|
    ensures path[i] in ns.tree && depth[c] <= depth[path[i]] && depth'[c] <= depth'[path[i]]
    ensures i > 0 ==> depth[c] < depth[path[i]]
    decreases i
  {
    hide Namespace.Ok;
    if i > 0 {
      DeeperAlong(ns, depth, ns', depth', path, c, d2, i - 1);
      OwnedIsDirectory(ns, path, i, d2);
      DirectoryHasOwner(ns, path[i]);
      assert IsBelow(ns, depth, path[i]) && IsBelow(ns', depth', path[i]);
    }
  }

  /** What stands on a path to a directory is a directory. */
  lemma {:induction false} OwnedIsDirectory(ns: Namespace, path: seq<nat>, i: nat, d2: nat)
    requires ns.Ok() && LeadsDown(ns, path) && path[|path| - 1] == d2 && d2 in ns.tree && i < |path|
    ensures path[i] in ns.tree
    decreases |path| - i
  {
    hide Namespace.Ok;
    if i < |path| - 1 {
      OwnerIsDirectory(ns, path[i + 1]);
    }
  }

  lemma MovedIsRanked(ns: Namespace, depth: map<nat, nat>, ns': Namespace, c: nat, d2: nat)
    requires ns.Ok() && ns'.Ok() && Ranked(ns, depth) && Rehung(ns, ns', c, d2) && !Below(ns, c, d2)
    ensures Rooted(ns')
  {
    hide Namespace.Ok, Below;
    DirectoryHasOwner(ns, c);
    BelowItself(ns, c);
    var down := set x | x in ns.tree && Below(ns, c, x);
    var depth' := map x | x in ns.tree :: depth[x] + if x in down then depth[d2] + 1 else 0;
    forall x | x in ns'.tree && x != ns'.root ensures IsBelow(ns', depth', x) {
      DirectoryHasOwner(ns, x);
      assert IsBelow(ns, depth, x);
      if x != c {
        BelowByOwner(ns, c, x);
        OwnerIsDirectory(ns, x);
      }
    }
    assert Ranked(ns', depth');
  }

  /** The operation moves a directory into itself or into one below it. */
  ghost predicate MovesIntoItself(v: Snapshot, op: Operation) {
    match op
    case Move(d, leaf, destination, newLeaf, occupied) =>
      && !occupied && CanMove(v, d, leaf, destination, newLeaf) && v.Entry(d, leaf).value.IsDirectory()
      && Below(v.cat.ns, v.Entry(d, leaf).value.Cluster(), destination)
    case Create(_, _) => false
    case Delete(_, _) => false
    case RemoveDir(_, _, _) => false
    case MakeDir(_, _) => false
    case Rename(_, _, _, _) => false
    case Write(_, _, _) => false
    case Append(_, _, _) => false
  }

  lemma OkNamespace(v: Snapshot)
    requires v.Ok()
    ensures v.cat.ns.Ok()
  {
    hide ChainsOk, DirectoryOk, Namespace.OwnerOk, Namespace.LinkOk;
  }

  lemma SameHomes(ns: Namespace, ns': Namespace)
    requires ns.Ok() && ns'.Ok() && Rooted(ns) && ns'.root == ns.root && ns'.tree.Keys <= ns.tree.Keys
    requires forall x :: x in ns'.tree && x in ns.owner ==> x in ns'.owner && ns'.owner[x].dir == ns.owner[x].dir
    ensures Rooted(ns')
  {
    hide Namespace.Ok;
    forall x | x in ns'.tree && x != ns.root ensures HomeKept(ns, ns', x) {
      DirectoryHasOwner(ns, x);
    }
    HomesKeepRooted(ns, ns');
  }

  lemma DeletedRooted(v: Snapshot, d: nat, leaf: Bytes, c: nat, v': Snapshot)
    requires v.Ok() && v'.Ok() && Rooted(v.cat.ns) && d in v.cat.ns.tree
    requires Deleted(v.fat, v.data, v.cat, v'.fat, v'.data, v'.cat, d, leaf, c)
    ensures Rooted(v'.cat.ns)
  {
    hide Consistent, Kept, SlotsRewritten, SlotsAt, First, LinksOf, Namespace.Ok, Rooted, Tombstone;
    OkNamespace(v);
    OkNamespace(v');
    SameHomes(v.cat.ns, v'.cat.ns);
  }

  lemma StoredRooted(v: Snapshot, d: nat, k: nat, e: DirEntry, e': DirEntry, t: seq<nat>, v': Snapshot)
    requires v.Ok() && v'.Ok() && Rooted(v.cat.ns) && d in v.cat.ns.tree && !e'.IsDirectory()
    requires Stored(v.data, v.cat, d, k, e, e', t, v'.data, v'.cat)
    requires LinkOf(e') == Nothing || LinkOf(e') == OwnsFile(t[0])
    ensures Rooted(v'.cat.ns)
  {
    hide Consistent, Kept, SlotsAt, LinksOf, Namespace.Ok, Rooted, LinkOf, ChainOk;
    OkNamespace(v);
    OkNamespace(v');
    if LinkOf(e') != Nothing {
      SlotKnown(v'.fat, v'.data, v'.cat, d, k);
    }
    SameHomes(v.cat.ns, v'.cat.ns);
  }

  lemma WriteRooted(v: Snapshot, d: nat, leaf: Bytes, bytes: Bytes, per: Positive, v': Snapshot)
    requires v.Ok() && d in v.cat.ns.tree && Rooted(v.cat.ns) && WriteFileStep(v, d, leaf, bytes, per, v')
    ensures Rooted(v'.cat.ns)
  {
    hide Consistent, Kept, Listing, FindListed, SlotsAt, LinkOf, GoodEntry, GoodSlots, IsShown, FileSaved, ChainSaved,
         SettledCatalogue, ChainOf, SlotsRewritten, Start, Rooted, WrittenEntry, Stored, First, FreeClusters;
    var found := v.Entry(d, leaf);
    if found.Some? && !found.value.IsDirectory() {
      EntryKnown(v, d, leaf);
      var e, k, size := found.value, v.SlotOf(d, leaf), 32 * per;
      FileKnown(v.fat, v.data, v.cat, d, k, e);
      var result: int, t: seq<nat> :| WriteOutcome(v.fat, v.data, v.cat, d, k, e, bytes, size, result, v'.fat, t,
                                                   v'.data, v'.cat);
      WriteKeeps(v.fat, v.data, v.cat, d, k, e, bytes, size, result, v'.fat, t, v'.data, v'.cat);
      var c := if result == |bytes| then t[0] else 0;
      var e' := WrittenEntry(e, c, result == |bytes|, |bytes|);
      WrittenEntryFacts(e, c, result == |bytes|, |bytes|);
      StillAFile(e, c, result == |bytes|, |bytes|);
      HeadOf(v, d, k, e, e', v', t, result == -101);
      StoredRooted(v, d, k, e, e', t, v');
    }
  }

  lemma AppendRooted(v: Snapshot, d: nat, leaf: Bytes, bytes: Bytes, per: Positive, v': Snapshot)
    requires v.Ok() && d in v.cat.ns.tree && Rooted(v.cat.ns) && AppendFileStep(v, d, leaf, bytes, per, v')
    ensures Rooted(v'.cat.ns)
  {
    hide Consistent, Kept, Listing, FindListed, SlotsAt, LinkOf, GoodEntry, GoodSlots, IsShown, FileSaved, ChainSaved,
         SettledCatalogue, ChainOf, SlotsRewritten, Start, Rooted, AppendedEntry, AppendOffset, Stored, First,
         FreeClusters;
    var found := v.Entry(d, leaf);
    if found.Some? && !found.value.IsDirectory() {
      EntryKnown(v, d, leaf);
      var e, k, size := found.value, v.SlotOf(d, leaf), 32 * per;
      FileKnown(v.fat, v.data, v.cat, d, k, e);
      var result: int, t: seq<nat> :| AppendOutcome(v.fat, v.data, v.cat, d, k, e, bytes, size, result, v'.fat, t,
                                                    v'.data, v'.cat);
      AppendKeeps(v.fat, v.data, v.cat, d, k, e, bytes, size, result, v'.fat, t, v'.data, v'.cat);
      if result != -101 {
        var e' := AppendedEntry(e, t[0], result == |bytes|, e.fileSize + |bytes|);
        AppendedEntryFacts(e, t[0], result == |bytes|, e.fileSize + |bytes|);
        StillAFileAppended(e, t[0], result == |bytes|, e.fileSize + |bytes|);
        HeadOf(v, d, k, e, e', v', t, false);
        StoredRooted(v, d, k, e, e', t, v');
      }
    }
  }

  lemma StillAFile(e: DirEntry, c: nat, complete: bool, length: Word32)
    requires c < TWO_32
    ensures WrittenEntry(e, c, complete, length).IsDirectory() == e.IsDirectory()
  {
  }

  lemma StillAFileAppended(e: DirEntry, c: nat, complete: bool, length: Word32)
    requires c < TWO_32
    ensures AppendedEntry(e, c, complete, length).IsDirectory() == e.IsDirectory()
  {
  }

  /** What the entry of a file with clusters owns is the head of its chain. */
  lemma HeadOf(v: Snapshot, d: nat, k: nat, e: DirEntry, e': DirEntry, v': Snapshot, t: seq<nat>, refused: bool)
    requires v.Ok() && HoldsFile(v.data, v.cat, d, k, e)
    requires !refused ==> ChainSaved(v.fat, v.data, v.cat, d, k, e', ChainOf(v.cat, e), v'.fat, t, v'.data)
    requires refused ==> e.Cluster() == 0
    ensures !refused ==> t != []
    ensures e.Cluster() != 0 ==> t != [] && e.Cluster() == t[0] && LinkOf(e) == OwnsFile(t[0])
    ensures e.Cluster() == 0 ==> LinkOf(e) == Nothing
  {
    hide Consistent, LinkOf, ChainOf, ChainSaved;
    FileKnown(v.fat, v.data, v.cat, d, k, e);
    if !refused {
      SavedHeadOf(v.fat, v.data, v.cat, d, k, e', ChainOf(v.cat, e), v'.fat, t, v'.data);
    }
  }

  lemma MakeRooted(v: Snapshot, d: nat, leaf: Bytes, per: Positive, v': Snapshot)
    requires v.Ok() && d in v.cat.ns.tree && IsText(leaf) && MakeStep(v, d, leaf, per, v') && Rooted(v.cat.ns)
    ensures Rooted(v'.cat.ns)
  {
    hide Consistent, Kept, DirectoryLaid, NewEntry, ShortName, Accepted, Listing, FindListed, SlotsAt, Inserted, First,
         FreshDirectory, IsText, Rooted, Namespace.Ok;
    if CanMake(v, d, leaf) {
      var c := LowestFree(v.fat);
      MadeKeeps(v.fat, v.data, v.cat, d, leaf, per, v'.fat, v'.data, v'.cat);
      OkNamespace(v);
      OkNamespace(v');
      ConsistentParts(v.fat, v.data, v.cat);
      forall x | x in v.cat.ns.tree && x != v.cat.ns.root ensures HomeKept(v.cat.ns, v'.cat.ns, x) {
        DirectoryHasOwner(v.cat.ns, x);
      }
      NewKeepsRooted(v.cat.ns, v'.cat.ns, d, c);
    }
  }

  lemma MoveRootedIff(v: Snapshot, d: nat, leaf: Bytes, destination: nat, newLeaf: Bytes, per: Positive, v': Snapshot)
    requires v.Ok() && d in v.cat.ns.tree && destination in v.cat.ns.tree && destination != d
    requires IsText(newLeaf) && !IsDotName(leaf) && MoveStep(v, d, leaf, destination, newLeaf, per, v')
    requires Rooted(v.cat.ns)
    ensures Rooted(v'.cat.ns) <==> !MovesIntoItself(v, Move(d, leaf, destination, newLeaf, false))
  {
    hide Consistent, Kept, EntryTransferred, ShortName, Accepted, Listing, FindListed, SlotsAt, IsText, LinkOf,
         GoodEntry, GoodSlots, IsShown, HasRoom, Inserted, Unlisted, Rooted, Below, Namespace.Ok, First;
    if CanMove(v, d, leaf, destination, newLeaf) {
      EntryKnown(v, d, leaf);
      var e := v.Entry(d, leaf).value;
      RenamedFacts(e, newLeaf);
      TransferKeeps(v.fat, v.data, v.cat, d, destination, leaf, e.(name := ShortName(newLeaf)), per, v'.fat, v'.data,
                    v'.cat);
      OkNamespace(v);
      OkNamespace(v');
      if e.IsDirectory() {
        DirectoryCluster(e);
        OwnersMovedKeys(v.cat.ns.owner, e.Cluster(), destination, First(v.SlotsOf(destination), FreeSlot));
        RehungIff(v.cat.ns, v'.cat.ns, e.Cluster(), destination);
      } else {
        SameHomes(v.cat.ns, v'.cat.ns);
      }
    }
  }

  lemma DirectoryCluster(e: DirEntry)
    requires GoodEntry(e) && IsShown(e) && e.IsDirectory()
    ensures e.Cluster() != 0
  {
  }

  lemma OwnersMovedKeys(owner: map<nat, Home>, c: nat, d2: nat, k2: nat)
    requires c in owner
    ensures OwnersMoved(owner, OwnsDirectory(c), d2, k2) == owner[c := Home(d2, k2)]
  {
  }

  /** One operation keeps every directory hanging from the root if and only if it does not move one into itself. */
  lemma StepRootedIff(v: Snapshot, op: Operation, per: Positive, v': Snapshot)
    requires v.Ok() && Enabled(v, op) && Step(v, op, per, v') && Rooted(v.cat.ns)
    ensures Rooted(v'.cat.ns) <==> !MovesIntoItself(v, op)
  {
    hide Consistent, Kept, Deleted, WriteFileStep, AppendFileStep, MoveStep, MakeStep, EntryAdded, IsText, Listing,
         FindListed, Accepted, HasRoom, NewEntry, ShortName, SlotsAt, Inserted, LinkOf, GoodEntry, Rooted, Below, Good,
         First, LinksOf;
    match op {
      case Create(d, leaf) =>
        if CanCreate(v, d, leaf) {
          FileEntryFacts(leaf);
          AddedKeeps(v.fat, v.data, v.cat, d, NewEntry(ShortName(leaf), ATTR_ARCHIVE, 0), per, v'.fat, v'.data, v'.cat);
          OkNamespace(v);
          OkNamespace(v');
          SameHomes(v.cat.ns, v'.cat.ns);
        }
      case Delete(d, leaf) =>
        DeleteKeeps(v, d, leaf, v');
        GoodIsOk(v, v', {d, NamedCluster(v, d, leaf)});
        if v' != v {
          DeletedRooted(v, d, leaf, v.Entry(d, leaf).value.Cluster(), v');
        }
      case RemoveDir(d, leaf, entry) =>
        RemovalIsListed(v, d, leaf, entry, v');
        if v' == v {
          return;
        }
        RemoveKeeps(v, d, leaf, v');
        GoodIsOk(v, v', {d, NamedCluster(v, d, leaf)});
        if v' != v {
          DeletedRooted(v, d, leaf, v.Entry(d, leaf).value.Cluster(), v');
        }
      case MakeDir(d, leaf) => MakeRooted(v, d, leaf, per, v');
      case Rename(_, _, _, _) =>
      case Move(d, leaf, destination, newLeaf, occupied) =>
        if !occupied {
          MoveRootedIff(v, d, leaf, destination, newLeaf, per, v');
        }
      case Write(d, leaf, bytes) => WriteRooted(v, d, leaf, bytes, per, v');
      case Append(d, leaf, bytes) => AppendRooted(v, d, leaf, bytes, per, v');
    }
  }

  /** In a run that moves no directory into itself, every directory hangs from the root at every moment. */
  lemma {:induction false} RunRooted(states: seq<Snapshot>, ops: seq<Operation>, per: Positive, i: nat)
    requires IsRun(states, ops, per) && states[0].Ok() && Rooted(states[0].cat.ns) && i < |states|
    requires forall j: nat :: j < i ==> !MovesIntoItself(states[j], ops[j])
    ensures Rooted(states[i].cat.ns)
    decreases i
  {
    hide Consistent, Enabled, Step, Rooted, MovesIntoItself;
    if i > 0 {
      RunRooted(states, ops, per, i - 1);
      RunKeeps(states, ops, per, i - 1);
      StepRootedIff(states[i - 1], ops[i - 1], per, states[i]);
    }
  }
}
