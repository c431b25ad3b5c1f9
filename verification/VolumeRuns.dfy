/** Runs: any sequence of operations on a volume, succeeding, failing or cut short by a full disk. */
module VolumeRuns {
  import opened Options
  import opened Words
  import opened Chains
  import opened Fat32
  import opened Offsets
  import opened Entries
  import opened Slots
  import opened Listings
  import opened Directories
  import opened Files
  import opened FileLaws
  import opened Namespaces
  import opened Catalogues
  import opened FileSystems
  import opened Subdirectories
  import opened Renames
  import opened FileWrites
  import opened VolumeLaws

  /** What a volume holds, and its catalogue. */
  datatype Snapshot = Snapshot(fat: Fat, data: seq<Bytes>, cat: Catalogue) {
    ghost predicate Ok() {
      Consistent(fat, data, cat)
    }

    ghost function SlotsOf(d: nat): Directory {
      SlotsAt(data, cat.chains, d)
    }

    /** The entry the directory at `d` lists under a name. */
    ghost function Entry(d: nat, leaf: Bytes): Option<DirEntry> {
      FindListed(Listing(SlotsOf(d)), leaf)
    }

    ghost function SlotOf(d: nat, leaf: Bytes): nat {
      First(SlotsOf(d), Listed(leaf))
    }
  }

  /** `occupied` says whether the path given for the new name led to an entry. */
  datatype Operation =
    | Create(parent: nat, leaf: Bytes)
    | Delete(parent: nat, leaf: Bytes)
    | RemoveDir(parent: nat, leaf: Bytes, entry: Option<DirEntry>)
    | MakeDir(parent: nat, leaf: Bytes)
    | Rename(parent: nat, leaf: Bytes, newLeaf: Bytes, occupied: bool)
    | Move(parent: nat, leaf: Bytes, destination: nat, newLeaf: Bytes, occupied: bool)
    | Write(parent: nat, leaf: Bytes, bytes: Bytes)
    | Append(parent: nat, leaf: Bytes, bytes: Bytes)

  /** What is asked of the operations: the directories exist, the entry a directory is removed by is what its path leads
      to and not the root when that is empty, and the dot entries are not renamed or moved away. */
  ghost predicate Enabled(v: Snapshot, op: Operation) {
    && op.parent in v.cat.ns.tree
    && match op
       case Create(_, leaf) => 0 !in leaf
       case Delete(_, _) => true
       case RemoveDir(d, leaf, entry) =>
         var at := Located(d, leaf, entry);
         && IsLocated(v.data, v.cat, at)
         && (IsRootAnswer(v.cat, at) ==> Found(v.SlotsOf(d), NotDot))
         && (IsDotName(leaf) && !IsRootAnswer(v.cat, at) ==> leaf == DOTDOT && ParentsOk(v.data, v.cat))
       case MakeDir(_, leaf) => IsText(leaf)
       case Rename(_, leaf, newLeaf, _) => IsText(newLeaf) && !IsDotName(leaf)
       case Move(source, leaf, destination, newLeaf, _) =>
         destination in v.cat.ns.tree && destination != source && IsText(newLeaf) && !IsDotName(leaf)
       case Write(_, _, bytes) => |bytes| < 0x8000_0000
       case Append(parent, leaf, bytes) =>
         v.Entry(parent, leaf).Some? ==> v.Entry(parent, leaf).value.fileSize + |bytes| < TWO_32
  }

  // ----- one operation -----

  /** What an operation does, on a volume with `per` slots to a cluster. */
  ghost predicate Step(v: Snapshot, op: Operation, per: Positive, v': Snapshot) {
    match op
    case Create(d, leaf) => CreateStep(v, d, leaf, per, v')
    case Delete(d, leaf) => DeleteStep(v, d, leaf, v')
    case RemoveDir(d, leaf, entry) => RemoveLocated(v, d, leaf, entry, v')
    case MakeDir(d, leaf) => MakeStep(v, d, leaf, per, v')
    case Rename(d, leaf, newLeaf, occupied) => if occupied then v' == v else RenameStep(v, d, leaf, newLeaf, v')
    case Move(d, leaf, destination, newLeaf, occupied) =>
      if occupied then v' == v else MoveStep(v, d, leaf, destination, newLeaf, per, v')
    case Write(d, leaf, bytes) => WriteFileStep(v, d, leaf, bytes, per, v')
    case Append(d, leaf, bytes) => AppendFileStep(v, d, leaf, bytes, per, v')
  }

  /** The name is new and accepted, and there is room for the entry. */
  ghost predicate CanCreate(v: Snapshot, d: nat, leaf: Bytes) {
    v.Entry(d, leaf) == None && Accepted(leaf) && HasRoom(v.fat, v.SlotsOf(d))
  }

  ghost predicate CreateStep(v: Snapshot, d: nat, leaf: Bytes, per: Positive, v': Snapshot) {
    if CanCreate(v, d, leaf)
    then EntryAdded(v.fat, v.data, v.cat, d, NewEntry(ShortName(leaf), ATTR_ARCHIVE, 0), per, v'.fat, v'.data, v'.cat)
    else v' == v
  }

  /** The name is listed, and is a file's. */
  ghost predicate NamesFile(v: Snapshot, d: nat, leaf: Bytes) {
    v.Entry(d, leaf).Some? && !v.Entry(d, leaf).value.IsDirectory()
  }

  ghost predicate DeleteStep(v: Snapshot, d: nat, leaf: Bytes, v': Snapshot) {
    if NamesFile(v, d, leaf)
    then Deleted(v.fat, v.data, v.cat, v'.fat, v'.data, v'.cat, d, leaf, v.Entry(d, leaf).value.Cluster())
    else v' == v
  }

  /** The entry has been located by a path, and may be the one made up for the root. */
  ghost predicate RemoveLocated(v: Snapshot, d: nat, leaf: Bytes, entry: Option<DirEntry>, v': Snapshot) {
    if !FreesDirectory(v.data, v.cat, entry) then v' == v
    else if entry.value.Cluster() == v.cat.ns.root then
      RootFreed(v.fat, v.data, v.cat, v'.fat, v'.data) && v'.cat == v.cat
    else Deleted(v.fat, v.data, v.cat, v'.fat, v'.data, v'.cat, d, leaf, entry.value.Cluster())
  }

  /** The entry is listed. */
  ghost predicate RemoveStep(v: Snapshot, d: nat, leaf: Bytes, v': Snapshot) {
    var found := v.Entry(d, leaf);
    if found.Some? && found.value.IsDirectory() && !Found(v.SlotsOf(found.value.Cluster()), NotDot)
    then Deleted(v.fat, v.data, v.cat, v'.fat, v'.data, v'.cat, d, leaf, found.value.Cluster())
    else v' == v
  }

  /** The name is new and accepted, and there is a cluster for the directory and perhaps one for the entry. */
  ghost predicate CanMake(v: Snapshot, d: nat, leaf: Bytes) {
    && v.Entry(d, leaf) == None && Accepted(leaf)
    && |FreeClusters(v.fat)| >= if Found(v.SlotsOf(d), FreeSlot) then 1 else 2
  }

  ghost predicate MakeStep(v: Snapshot, d: nat, leaf: Bytes, per: Positive, v': Snapshot) {
    if CanMake(v, d, leaf)
    then DirectoryLaid(v.fat, v.data, v.cat, d, leaf, per, v'.fat, v'.data, v'.cat)
    else v'.fat == v.fat && v'.cat == v.cat && Kept(v.data, v.cat.chains, v'.data, v.cat.chains, {})
  }

  /** The old name is listed, and the new one is accepted. */
  ghost predicate CanRename(v: Snapshot, d: nat, leaf: Bytes, newLeaf: Bytes) {
    v.Entry(d, leaf).Some? && leaf != [] && Accepted(newLeaf)
  }

  ghost predicate RenameStep(v: Snapshot, d: nat, leaf: Bytes, newLeaf: Bytes, v': Snapshot) {
    if CanRename(v, d, leaf, newLeaf)
    then && v'.fat == v.fat && v'.cat == v.cat && d in v.cat.chains
         && SlotsRewritten(v.data, v'.data, v.cat.chains[d], Renamed(v.SlotsOf(d), leaf, newLeaf))
    else v' == v
  }

  /** The same across directories, with room for the entry. */
  ghost predicate CanMove(v: Snapshot, d: nat, leaf: Bytes, destination: nat, newLeaf: Bytes) {
    && v.Entry(d, leaf).Some? && leaf != [] && Accepted(newLeaf)
    && HasRoom(v.fat, v.SlotsOf(destination))
  }

  ghost predicate MoveStep(v: Snapshot, d: nat, leaf: Bytes, destination: nat, newLeaf: Bytes, per: Positive,
                           v': Snapshot) {
    if CanMove(v, d, leaf, destination, newLeaf)
    then EntryTransferred(v.fat, v.data, v.cat, d, destination, leaf,
                          v.Entry(d, leaf).value.(name := ShortName(newLeaf)), per,
                          v'.fat, v'.data, v'.cat)
    else v' == v
  }

  ghost predicate WriteFileStep(v: Snapshot, d: nat, leaf: Bytes, bytes: Bytes, per: Positive, v': Snapshot) {
    var found := v.Entry(d, leaf);
    if found.Some? && !found.value.IsDirectory()
    then exists result: int, t: seq<nat> ::
           WriteOutcome(v.fat, v.data, v.cat, d, v.SlotOf(d, leaf), found.value, bytes, 32 * per, result, v'.fat, t,
                        v'.data, v'.cat)
    else v' == v
  }

  ghost predicate AppendFileStep(v: Snapshot, d: nat, leaf: Bytes, bytes: Bytes, per: Positive, v': Snapshot) {
    var found := v.Entry(d, leaf);
    if found.Some? && !found.value.IsDirectory()
    then exists result: int, t: seq<nat> ::
           AppendOutcome(v.fat, v.data, v.cat, d, v.SlotOf(d, leaf), found.value, bytes, 32 * per, result, v'.fat, t,
                         v'.data, v'.cat)
    else v' == v
  }

  // ----- the operations are such steps -----

  /** The first cluster of the entry an operation names, 0 if there is none. */
  ghost function NamedCluster(v: Snapshot, d: nat, leaf: Bytes): nat {
    if v.Entry(d, leaf).Some? then v.Entry(d, leaf).value.Cluster() else 0
  }

  ghost function Taken(vol: Volume, cat: Catalogue): Snapshot
    reads vol
  {
    Snapshot(vol.fat, vol.data, cat)
  }

  /** A root that lists something is not freed. */
  lemma RootEntryKept(v: Snapshot, at: Located)
    requires IsRootAnswer(v.cat, at) ==> Found(v.SlotsOf(at.parent), NotDot)
    ensures IsRootAnswer(v.cat, at) ==> !FreesDirectory(v.data, v.cat, at.entry)
  {
    hide Found, SlotsAt, RootEntry;
    if IsRootAnswer(v.cat, at) {
      RootEntryFacts(v.cat.ns.root);
    }
  }

  /** Whatever such a removal changes, it does to a listed directory. */
  lemma RemovalIsListed(v: Snapshot, d: nat, leaf: Bytes, entry: Option<DirEntry>, v': Snapshot)
    requires v.Ok() && Enabled(v, RemoveDir(d, leaf, entry)) && RemoveLocated(v, d, leaf, entry, v')
    ensures if FreesDirectory(v.data, v.cat, entry)
            then RemoveStep(v, d, leaf, v') && !IsDotName(leaf) && entry == v.Entry(d, leaf)
            else v' == v
  {
    hide Consistent, ParentsOk, Found, SlotsAt, RootEntry, Listing, FindListed, Deleted, RootFreed, LinkOf, IsShown,
         First;
    var at := Located(d, leaf, entry);
    RootEntryKept(v, at);
    if FreesDirectory(v.data, v.cat, entry) {
      if IsDotName(leaf) {
        ParentIsNotEmpty(v.fat, v.data, v.cat, d);
      } else {
        ListedDirectory(v.fat, v.data, v.cat, d, leaf);
      }
    }
  }

  lemma TextHasNoNul(name: Bytes)
    requires IsText(name)
    ensures 0 !in name
  {
  }

  /** Carries out an operation. */
  method Perform(vol: Volume, op: Operation, ghost cat: Catalogue) returns (ghost cat': Catalogue)
    requires IsVolume(vol, cat) && Enabled(Taken(vol, cat), op)
    modifies vol`sectors, vol`fat, vol`data
    ensures IsVolume(vol, cat') && Step(old(Taken(vol, cat)), op, vol.geometry.SlotsPerCluster(), Taken(vol, cat'))
  {
    hide Consistent, FatRefines, DataRefines, WriteOutcome, AppendOutcome, EntryAdded, Deleted, DirectoryLaid,
         SlotsRewritten, EntryTransferred, Kept, DirectoryMade, FileMoved, Listing, FindListed, First, IsText,
         ShortName, Accepted, Judge, NewEntry, SlotsAt, Inserted;
    cat' := cat;
    var ok, result;
    ghost var t;
    ghost var v := Taken(vol, cat);
    match op {
      case Create(d, leaf) =>
        ok, cat' := CreateFile(vol, d, leaf, cat);
      case Delete(d, leaf) =>
        ok, cat' := DeleteFile(vol, d, leaf, cat);
      case RemoveDir(d, leaf, entry) =>
        RootEntryKept(v, Located(d, leaf, entry));
        ok, cat' := RemoveDirectory(vol, Located(d, leaf, entry), cat);
      case MakeDir(d, leaf) =>
        TextHasNoNul(leaf);
        ok, cat' := MakeDirectory(vol, d, leaf, cat);
      case Rename(d, leaf, newLeaf, occupied) =>
        var entry, _ := Lookup(vol, d, leaf, cat);
        TextHasNoNul(newLeaf);
        ok := RenameInDirectory(vol, Located(d, leaf, entry), newLeaf, occupied, cat);
      case Move(d, leaf, destination, newLeaf, occupied) =>
        var entry, _ := Lookup(vol, d, leaf, cat);
        TextHasNoNul(newLeaf);
        ok, cat' := MoveFile(vol, Located(d, leaf, entry), destination, newLeaf, occupied, cat);
      case Write(d, leaf, bytes) =>
        result, t, cat' := WriteFile(vol, d, leaf, bytes, cat);
        assert vol.geometry.ClusterSize() == 32 * vol.geometry.SlotsPerCluster();
        assert result.Some? ==>
            WriteOutcome(v.fat, v.data, cat, d, v.SlotOf(d, leaf), v.Entry(d, leaf).value, bytes,
                         32 * vol.geometry.SlotsPerCluster(), result.value, vol.fat, t, vol.data, cat');
      case Append(d, leaf, bytes) =>
        result, t, cat' := AppendFile(vol, d, leaf, bytes, cat);
        assert vol.geometry.ClusterSize() == 32 * vol.geometry.SlotsPerCluster();
        assert result.Some? ==>
            AppendOutcome(v.fat, v.data, cat, d, v.SlotOf(d, leaf), v.Entry(d, leaf).value, bytes,
                          32 * vol.geometry.SlotsPerCluster(), result.value, vol.fat, t, vol.data, cat');
    }
  }

  // ----- what every step keeps -----

  /** The volume stays consistent, and nothing outside the chains in `touched` changes. */
  ghost predicate Good(v: Snapshot, v': Snapshot, touched: set<nat>) {
    && v'.Ok() && Kept(v.data, v.cat.chains, v'.data, v'.cat.chains, touched) && v'.cat.ns.root == v.cat.ns.root
    && forall x :: x in v'.cat.ns.tree && x in v.cat.chains ==> x in v.cat.ns.tree
  }

  lemma GoodWhen(v: Snapshot, v': Snapshot, touched: set<nat>)
    requires Consistent(v'.fat, v'.data, v'.cat) && v'.cat.ns.root == v.cat.ns.root
    requires Kept(v.data, v.cat.chains, v'.data, v'.cat.chains, touched)
    requires forall x :: x in v'.cat.ns.tree && x in v.cat.chains ==> x in v.cat.ns.tree
    ensures Good(v, v', touched)
  {
    hide Consistent, Kept;
  }

  lemma NothingDone(v: Snapshot, touched: set<nat>)
    requires v.Ok()
    ensures Good(v, v, touched)
  {
    hide Consistent, Kept;
    KeptAll(v.fat, v.data, v.cat, touched);
  }

  /** What is known of an entry that is listed. */
  lemma EntryKnown(v: Snapshot, d: nat, leaf: Bytes)
    requires v.Ok() && d in v.cat.ns.tree && v.Entry(d, leaf).Some?
    ensures var e, slots, k := v.Entry(d, leaf).value, v.SlotsOf(d), v.SlotOf(d, leaf);
            && Found(slots, Listed(leaf)) && k < |slots| && slots[k] == e && IsShown(e) && DisplayName(e.name) == leaf
            && GoodEntry(e) && GoodSlots(slots) && d in v.cat.chains
            && v.SlotsOf(d) == SlotsAt(v.data, v.cat.chains, d)
            && (IsDotName(leaf) ==> e.IsDirectory())
            && (!IsDotName(leaf) ==>
                  && LinkOf(e) == (if e.Cluster() == 0 then Nothing
                                   else if e.IsDirectory() then OwnsDirectory(e.Cluster()) else OwnsFile(e.Cluster()))
                  && (e.Cluster() != 0 ==> e.Cluster() in v.cat.chains && e.Cluster() in v.cat.ns.owner
                                           && v.cat.ns.owner[e.Cluster()] == Home(d, k)
                                           && (e.IsDirectory() <==> e.Cluster() in v.cat.ns.tree)))
  {
    hide Consistent, Listing, FindListed, ChainSlots, DirectoryOk, ChainsOk, ChainOk, IsChain, LinksOf, Judge;
    DirectoryKnown(v.fat, v.data, v.cat, d);
    FindAgrees(v.SlotsOf(d), leaf);
    FoundName(v.SlotsOf(d), leaf);
    SlotKnown(v.fat, v.data, v.cat, d, v.SlotOf(d, leaf));
  }

  lemma CreateKeeps(v: Snapshot, d: nat, leaf: Bytes, per: Positive, v': Snapshot)
    requires v.Ok() && d in v.cat.ns.tree && 0 !in leaf && CreateStep(v, d, leaf, per, v')
    ensures Good(v, v', {d})
  {
    hide Consistent, Kept, EntryAdded, NewEntry, ShortName, Accepted, Listing, FindListed, SlotsAt, HasRoom, LinkOf,
         GoodEntry, IsShown, Inserted, Good;
    if CanCreate(v, d, leaf) {
      FileEntryFacts(leaf);
      AddedKeeps(v.fat, v.data, v.cat, d, NewEntry(ShortName(leaf), ATTR_ARCHIVE, 0), per, v'.fat, v'.data, v'.cat);
      GoodWhen(v, v', {d});
    } else {
      NothingDone(v, {d});
    }
  }

  lemma DeletedKeeps(v: Snapshot, d: nat, leaf: Bytes, c: nat, v': Snapshot)
    requires v.Ok() && d in v.cat.ns.tree && v.Entry(d, leaf).Some? && !IsDotName(leaf)
    requires c == v.Entry(d, leaf).value.Cluster() && (c in v.cat.ns.tree ==> OwnsNothing(v.cat.ns.tree[c]))
    requires Deleted(v.fat, v.data, v.cat, v'.fat, v'.data, v'.cat, d, leaf, c)
    ensures Good(v, v', {d, c})
  {
    hide Consistent, Kept, ShortName, Accepted, Listing, FindListed, LinkOf, GoodEntry, IsShown, Good, GoodSlots,
         ChainSlots, Tombstone, WithoutChain, SlotsAt, OwnsNothing, Judge;
    EntryKnown(v, d, leaf);
    NoChainAtZero(v.fat, v.data, v.cat);
    var slots, k := v.SlotsOf(d), v.SlotOf(d, leaf);
    TombstoneFacts(slots, k);
    WithoutChainIs(v.cat, d, 0, slots[k := Tombstone(slots[k])]);
    if c == 0 {
      var _ := RemovedUnowned(v.fat, v.data, v.cat, d, k, Tombstone(slots[k]), v'.data);
    } else {
      OwnsWhat(slots[k], c);
      var _ := Removed(v.fat, v.data, v.cat, d, k, c, v'.fat, v'.data);
    }
    assert {c, d} == {d, c};
    GoodWhen(v, v', {d, c});
  }

  lemma OwnsWhat(e: DirEntry, c: nat)
    requires c != 0 && (LinkOf(e) == OwnsDirectory(c) || LinkOf(e) == OwnsFile(c))
    ensures LinkOf(e).Owns(c)
  {
  }

  lemma DeleteKeeps(v: Snapshot, d: nat, leaf: Bytes, v': Snapshot)
    requires v.Ok() && d in v.cat.ns.tree && DeleteStep(v, d, leaf, v')
    ensures Good(v, v', {d, NamedCluster(v, d, leaf)})
  {
    hide Consistent, Kept, Deleted, Listing, FindListed, SlotsAt, LinkOf, GoodEntry, IsShown, Good, GoodSlots, First;
    NoChainAtZero(v.fat, v.data, v.cat);
    if NamesFile(v, d, leaf) {
      EntryKnown(v, d, leaf);
      DeletedKeeps(v, d, leaf, v.Entry(d, leaf).value.Cluster(), v');
    } else {
      NothingDone(v, {d, NamedCluster(v, d, leaf)});
    }
  }

  lemma RemoveKeeps(v: Snapshot, d: nat, leaf: Bytes, v': Snapshot)
    requires v.Ok() && d in v.cat.ns.tree && !IsDotName(leaf) && RemoveStep(v, d, leaf, v')
    ensures Good(v, v', {d, NamedCluster(v, d, leaf)})
  {
    hide Consistent, Kept, Deleted, Listing, FindListed, SlotsAt, LinkOf, GoodEntry, IsShown, Good, GoodSlots, First,
         OwnsNothing, ChainSlots, DirectoryOk, ChainOk;
    var found := v.Entry(d, leaf);
    if found.Some? && found.value.IsDirectory() && !Found(v.SlotsOf(found.value.Cluster()), NotDot) {
      EntryKnown(v, d, leaf);
      var c := found.value.Cluster();
      if c in v.cat.ns.tree {
        DirectoryKnown(v.fat, v.data, v.cat, c);
        EmptyOwnsNothing(v.SlotsOf(c));
      }
      DeletedKeeps(v, d, leaf, c, v');
    } else {
      NothingDone(v, {d, NamedCluster(v, d, leaf)});
    }
  }

  lemma MakeKeeps(v: Snapshot, d: nat, leaf: Bytes, per: Positive, v': Snapshot)
    requires v.Ok() && d in v.cat.ns.tree && IsText(leaf) && MakeStep(v, d, leaf, per, v')
    ensures Good(v, v', {d})
  {
    hide Consistent, Kept, DirectoryLaid, NewEntry, ShortName, Accepted, Listing, FindListed, SlotsAt, Inserted, Good,
         First, FreshDirectory, IsText;
    if CanMake(v, d, leaf) {
      MadeKeeps(v.fat, v.data, v.cat, d, leaf, per, v'.fat, v'.data, v'.cat);
    } else {
      UntouchedOk(v, v');
      KeptMore(v.data, v.cat.chains, v'.data, v'.cat.chains, {}, {d});
    }
    GoodWhen(v, v', {d});
  }

  lemma UntouchedOk(v: Snapshot, v': Snapshot)
    requires v.Ok() && v'.fat == v.fat && v'.cat == v.cat && Kept(v.data, v.cat.chains, v'.data, v.cat.chains, {})
    ensures v'.Ok()
  {
    hide Namespace.Ok, ChainsOk, DirectoryOk;
    Rebuilt(v.fat, v.data, v.cat, v.fat, v'.data, v.cat, {});
  }

  lemma RenameKeeps(v: Snapshot, d: nat, leaf: Bytes, newLeaf: Bytes, v': Snapshot)
    requires v.Ok() && d in v.cat.ns.tree && IsText(newLeaf) && !IsDotName(leaf) && RenameStep(v, d, leaf, newLeaf, v')
    ensures Good(v, v', {d})
  {
    hide Consistent, Kept, SlotsRewritten, ShortName, Accepted, Listing, FindListed, SlotsAt, Good, IsText, LinkOf,
         GoodEntry, GoodSlots, IsShown;
    if CanRename(v, d, leaf, newLeaf) {
      EntryKnown(v, d, leaf);
      RenamedKeeps(v.fat, v.data, v.cat, d, leaf, newLeaf, v'.data);
      GoodWhen(v, v', {d});
    } else {
      NothingDone(v, {d});
    }
  }

  lemma MoveKeeps(v: Snapshot, d: nat, leaf: Bytes, destination: nat, newLeaf: Bytes, per: Positive, v': Snapshot)
    requires v.Ok() && d in v.cat.ns.tree && destination in v.cat.ns.tree && destination != d
    requires IsText(newLeaf) && !IsDotName(leaf) && MoveStep(v, d, leaf, destination, newLeaf, per, v')
    ensures Good(v, v', {d, destination})
  {
    hide Consistent, Kept, EntryTransferred, ShortName, Accepted, Listing, FindListed, SlotsAt, Good, IsText, LinkOf,
         GoodEntry, GoodSlots, IsShown, HasRoom, Inserted, Unlisted;
    if CanMove(v, d, leaf, destination, newLeaf) {
      EntryKnown(v, d, leaf);
      var e := v.Entry(d, leaf).value;
      RenamedFacts(e, newLeaf);
      TransferKeeps(v.fat, v.data, v.cat, d, destination, leaf, e.(name := ShortName(newLeaf)), per, v'.fat, v'.data,
                    v'.cat);
      GoodWhen(v, v', {d, destination});
    } else {
      NothingDone(v, {d, destination});
    }
  }

  lemma WriteStepKeeps(v: Snapshot, d: nat, leaf: Bytes, bytes: Bytes, per: Positive, v': Snapshot)
    requires v.Ok() && d in v.cat.ns.tree && WriteFileStep(v, d, leaf, bytes, per, v')
    ensures Good(v, v', {d, NamedCluster(v, d, leaf)})
  {
    hide Consistent, Kept, Listing, FindListed, SlotsAt, Good, LinkOf, GoodEntry, GoodSlots, IsShown, FileSaved,
         ChainSaved, SettledCatalogue, ChainOf, SlotsRewritten, Start;
    var found := v.Entry(d, leaf);
    if found.Some? && !found.value.IsDirectory() {
      EntryKnown(v, d, leaf);
      var e, k := found.value, v.SlotOf(d, leaf);
      var result: int, t: seq<nat> :| WriteOutcome(v.fat, v.data, v.cat, d, k, e, bytes, 32 * per, result, v'.fat, t,
                                                   v'.data, v'.cat);
      WriteKeeps(v.fat, v.data, v.cat, d, k, e, bytes, 32 * per, result, v'.fat, t, v'.data, v'.cat);
      GoodWhen(v, v', {d, e.Cluster()});
    } else {
      NothingDone(v, {d, NamedCluster(v, d, leaf)});
    }
  }

  lemma AppendStepKeeps(v: Snapshot, d: nat, leaf: Bytes, bytes: Bytes, per: Positive, v': Snapshot)
    requires v.Ok() && d in v.cat.ns.tree && AppendFileStep(v, d, leaf, bytes, per, v')
    ensures Good(v, v', {d, NamedCluster(v, d, leaf)})
  {
    hide Consistent, Kept, Listing, FindListed, SlotsAt, Good, LinkOf, GoodEntry, GoodSlots, IsShown, FileSaved,
         ChainSaved, SettledCatalogue, ChainOf, SlotsRewritten, Start, AppendOffset;
    var found := v.Entry(d, leaf);
    if found.Some? && !found.value.IsDirectory() {
      EntryKnown(v, d, leaf);
      var e, k := found.value, v.SlotOf(d, leaf);
      var result: int, t: seq<nat> :| AppendOutcome(v.fat, v.data, v.cat, d, k, e, bytes, 32 * per, result, v'.fat, t,
                                                    v'.data, v'.cat);
      AppendKeeps(v.fat, v.data, v.cat, d, k, e, bytes, 32 * per, result, v'.fat, t, v'.data, v'.cat);
      if result == -101 {
        NothingDone(v, {d, e.Cluster()});
        AppendRefused(v, v', {d, e.Cluster()});
      } else {
        GoodWhen(v, v', {d, e.Cluster()});
      }
    } else {
      NothingDone(v, {d, NamedCluster(v, d, leaf)});
    }
  }

  lemma AppendRefused(v: Snapshot, v': Snapshot, touched: set<nat>)
    requires Good(v, v, touched) && v'.fat == v.fat && v'.data == v.data && v'.cat == v.cat
    ensures Good(v, v', touched)
  {
    hide Consistent, Kept;
  }

  /** The chains an operation may change: the directories it works in, and the chain of the entry it deletes or
      writes. */
  ghost function Touched(v: Snapshot, op: Operation): set<nat> {
    match op
    case Create(d, _) => {d}
    case MakeDir(d, _) => {d}
    case Rename(d, _, _, _) => {d}
    case Move(d, _, destination, _, _) => {d, destination}
    case Delete(d, leaf) => {d, NamedCluster(v, d, leaf)}
    case RemoveDir(d, leaf, _) => {d, NamedCluster(v, d, leaf)}
    case Write(d, leaf, _) => {d, NamedCluster(v, d, leaf)}
    case Append(d, leaf, _) => {d, NamedCluster(v, d, leaf)}
  }

  lemma StepKeeps(v: Snapshot, op: Operation, per: Positive, v': Snapshot)
    requires v.Ok() && Enabled(v, op) && Step(v, op, per, v')
    ensures Good(v, v', Touched(v, op))
  {
    hide Consistent, Kept, CreateStep, DeleteStep, RemoveStep, MakeStep, RenameStep, MoveStep, WriteFileStep,
         AppendFileStep, Good, NamedCluster, FindListed, Listing, IsText;
    match op {
      case Create(d, leaf) => CreateKeeps(v, d, leaf, per, v');
      case Delete(d, leaf) => DeleteKeeps(v, d, leaf, v');
      case RemoveDir(d, leaf, entry) =>
        RemovalIsListed(v, d, leaf, entry, v');
        if v' == v {
          NothingDone(v, Touched(v, op));
        } else {
          RemoveKeeps(v, d, leaf, v');
        }
      case MakeDir(d, leaf) => MakeKeeps(v, d, leaf, per, v');
      case Rename(d, leaf, newLeaf, occupied) =>
        if occupied {
          NothingDone(v, Touched(v, op));
        } else {
          RenameKeeps(v, d, leaf, newLeaf, v');
        }
      case Move(d, leaf, destination, newLeaf, occupied) =>
        if occupied {
          NothingDone(v, Touched(v, op));
        } else {
          MoveKeeps(v, d, leaf, destination, newLeaf, per, v');
        }
      case Write(d, leaf, bytes) => WriteStepKeeps(v, d, leaf, bytes, per, v');
      case Append(d, leaf, bytes) => AppendStepKeeps(v, d, leaf, bytes, per, v');
    }
  }

  // ----- runs -----

  /** The states a sequence of operations goes through. */
  ghost predicate IsRun(states: seq<Snapshot>, ops: seq<Operation>, per: Positive) {
    && |states| == |ops| + 1
    && forall i: nat :: i < |ops| ==> Enabled(states[i], ops[i]) && Step(states[i], ops[i], per, states[i + 1])
  }

  /** Every state of every run is a consistent volume. */
  lemma {:induction false} RunKeeps(states: seq<Snapshot>, ops: seq<Operation>, per: Positive, i: nat)
    requires IsRun(states, ops, per) && states[0].Ok() && i < |states|
    ensures states[i].Ok()
    decreases i
  {
    hide Consistent, Enabled, Step, Kept, Touched;
    if i > 0 {
      RunKeeps(states, ops, per, i - 1);
      StepKeeps(states[i - 1], ops[i - 1], per, states[i]);
    }
  }

  /** In particular on a disk that starts out with an empty root directory. */
  lemma RunFromEmpty(states: seq<Snapshot>, ops: seq<Operation>, per: Positive, root: nat, i: nat)
    requires IsRun(states, ops, per) && i < |states|
    requires var v := states[0];
             && 2 <= root < |v.fat| == |v.data| < CLUSTER_LAST && v.fat[root] == CLUSTER_EOC
             && v.data[root] == Zeros(32 * per) && v.cat == OnlyRoot(root, per)
    ensures states[i].Ok()
  {
    hide Consistent, Enabled, Step, OnlyRoot;
    EmptyVolume(states[0].fat, states[0].data, root, per);
    RunKeeps(states, ops, per, i);
  }

  /** `x` is the first cluster of a file. */
  ghost predicate IsFile(v: Snapshot, x: nat) {
    x in v.cat.chains && x !in v.cat.ns.tree
  }

  /** An operation deletes or writes the entry whose chain starts at `x`. */
  ghost predicate Names(v: Snapshot, op: Operation, x: nat) {
    match op
    case Create(_, _) => false
    case MakeDir(_, _) => false
    case Rename(_, _, _, _) => false
    case Move(_, _, _, _, _) => false
    case Delete(d, leaf) => NamedCluster(v, d, leaf) == x
    case RemoveDir(d, leaf, _) => NamedCluster(v, d, leaf) == x
    case Write(d, leaf, _) => NamedCluster(v, d, leaf) == x
    case Append(d, leaf, _) => NamedCluster(v, d, leaf) == x
  }

  lemma NotNamedNotTouched(v: Snapshot, op: Operation, x: nat)
    requires Enabled(v, op) && IsFile(v, x) && !Names(v, op, x)
    ensures x !in Touched(v, op)
  {
    hide NamedCluster;
  }

  lemma StillFile(v: Snapshot, v': Snapshot, touched: set<nat>, x: nat)
    requires Good(v, v', touched) && IsFile(v, x) && x !in touched
    ensures IsFile(v', x) && v'.cat.chains[x] == v.cat.chains[x]
    ensures Kept(v.data, v.cat.chains, v'.data, v'.cat.chains, touched)
  {
    hide Consistent, SameOn;
  }

  /** Over any run, a file that no operation deletes or writes has its chain and its bytes at every moment, whatever is
      created, renamed, moved, written and deleted around it, and wherever it is moved itself. */
  lemma {:induction false} BystanderOverRun(states: seq<Snapshot>, ops: seq<Operation>, per: Positive, x: nat, i: nat,
                                            size: nat, length: nat)
    requires IsRun(states, ops, per) && states[0].Ok() && i < |states| && IsFile(states[0], x)
    requires forall j: nat :: j < i ==> !Names(states[j], ops[j], x)
    ensures IsFile(states[i], x) && states[i].cat.chains[x] == states[0].cat.chains[x]
    ensures FileContents(states[i].data, states[i].cat.chains[x], size, length)
            == FileContents(states[0].data, states[0].cat.chains[x], size, length)
    decreases i
  {
    hide Consistent, Enabled, Step, Kept, Touched, Names, FileContents, Good;
    if i > 0 {
      var v, op, v' := states[i - 1], ops[i - 1], states[i];
      BystanderOverRun(states, ops, per, x, i - 1, size, length);
      RunKeeps(states, ops, per, i - 1);
      StepKeeps(v, op, per, v');
      NotNamedNotTouched(v, op, x);
      StillFile(v, v', Touched(v, op), x);
      BystanderKept(v.data, v.cat.chains, v'.data, v'.cat.chains, Touched(v, op), x, size, length);
    }
  }
}
