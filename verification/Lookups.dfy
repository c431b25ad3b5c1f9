/** What every operation on a volume does to every lookup: which entry each directory lists under each name
    afterwards. */
module Lookups {
  import opened Options
  import opened Words
  import opened Chains
  import opened Fat32
  import opened Entries
  import opened Slots
  import opened Listings
  import opened Directories
  import opened Namespaces
  import opened Catalogues
  import opened FileSystems
  import opened Subdirectories
  import opened Renames
  import opened FileWrites
  import opened VolumeRuns
  import opened WorkingDirectories
  import opened DirectoryTrees
  import opened CachedPaths

  /** An entry has been put into the first free slot of `slots`: it is found under its name, unless an earlier entry
      is. */
  ghost function WithEntry(slots: Directory, e: DirEntry, name: Bytes): Option<DirEntry> {
    if DisplayName(e.name) == name && FindListed(Listing(slots[..First(slots, FreeSlot)]), name) == None then Some(e)
    else FindListed(Listing(slots), name)
  }

  /** The entry found under `leaf` is gone: under that name the next one of that name is found. */
  ghost function WithoutEntry(slots: Directory, leaf: Bytes, name: Bytes): Option<DirEntry> {
    var k := First(slots, Listed(leaf));
    if name == leaf && k < |slots| then FindListed(Listing(slots[k + 1..]), name) else FindListed(Listing(slots), name)
  }

  /** The entry found under `leaf` has become `e`. */
  ghost function WithRenamed(slots: Directory, leaf: Bytes, e: DirEntry, name: Bytes): Option<DirEntry> {
    if DisplayName(e.name) == name && FindListed(Listing(slots[..First(slots, Listed(leaf))]), name) == None
    then Some(e)
    else WithoutEntry(slots, leaf, name)
  }

  /** What the directory at `x` lists under `name` after the operation. */
  ghost function EntryAfter(v: Snapshot, op: Operation, x: nat, name: Bytes): Option<DirEntry> {
    var slots := v.SlotsOf(x);
    match op
    case Create(d, leaf) =>
      if x == d && CanCreate(v, d, leaf) && IsText(leaf)
      then WithEntry(slots, NewEntry(ShortName(leaf), ATTR_ARCHIVE, 0), name) else v.Entry(x, name)
    case MakeDir(d, leaf) =>
      if x == d && CanMake(v, d, leaf) && LowestFree(v.fat) < TWO_32
      then WithEntry(slots, NewEntry(ShortName(leaf), ATTR_DIRECTORY, LowestFree(v.fat)), name) else v.Entry(x, name)
    case Delete(d, leaf) =>
      if x == d && NamesFile(v, d, leaf) then WithoutEntry(slots, leaf, name) else v.Entry(x, name)
    case RemoveDir(d, leaf, entry) =>
      if x == d && FreesDirectory(v.data, v.cat, entry) then WithoutEntry(slots, leaf, name) else v.Entry(x, name)
    case Rename(d, leaf, newLeaf, occupied) =>
      if x == d && !occupied && CanRename(v, d, leaf, newLeaf)
      then WithRenamed(slots, leaf, v.Entry(d, leaf).value.(name := ShortName(newLeaf)), name) else v.Entry(x, name)
    case Move(d, leaf, destination, newLeaf, occupied) =>
      if !occupied && CanMove(v, d, leaf, destination, newLeaf) then
        if x == d then WithoutEntry(slots, leaf, name)
        else if x == destination then WithEntry(slots, v.Entry(d, leaf).value.(name := ShortName(newLeaf)), name)
        else v.Entry(x, name)
      else v.Entry(x, name)
    case Write(_, _, _) => v.Entry(x, name)
    case Append(_, _, _) => v.Entry(x, name)
  }

  // ----- the slots of one directory -----

  lemma InsertedLooksUp(v: Snapshot, v': Snapshot, d: nat, e: DirEntry, per: Positive, name: Bytes)
    requires v.Ok() && d in v.cat.ns.tree && v'.SlotsOf(d) == Inserted(v.SlotsOf(d), e, per) && !IsEnd(e)
    ensures v'.Entry(d, name) == if IsShown(e) then WithEntry(v.SlotsOf(d), e, name) else v.Entry(d, name)
  {
    hide Consistent, Listing, FindListed, SlotsAt, Inserted, IsShown, DisplayName, First, ChainSlots, DirectoryOk,
         ChainOk, GoodSlots, WellEnded;
    DirectoryKnown(v.fat, v.data, v.cat, d);
    GoodSlotsEnd(v.SlotsOf(d));
    InsertedFinds(v.SlotsOf(d), e, per, name);
  }

  lemma ReplacedLooksUp(v: Snapshot, v': Snapshot, d: nat, leaf: Bytes, e: DirEntry, name: Bytes)
    requires v.Ok() && d in v.cat.ns.tree && v.Entry(d, leaf).Some? && !IsEnd(e)
    requires v.SlotOf(d, leaf) < |v.SlotsOf(d)| && v'.SlotsOf(d) == v.SlotsOf(d)[v.SlotOf(d, leaf) := e]
    ensures v'.Entry(d, name) == if IsShown(e) then WithRenamed(v.SlotsOf(d), leaf, e, name)
                                 else WithoutEntry(v.SlotsOf(d), leaf, name)
  {
    hide Consistent, Listing, FindListed, SlotsAt, IsShown, DisplayName, First, GoodSlots, WellEnded, LinkOf, GoodEntry,
         Judge, PlainVolumeBits;
    EntryKnown(v, d, leaf);
    GoodSlotsEnd(v.SlotsOf(d));
    GoodSlotsArePlain(v.SlotsOf(d));
    FirstListed(v.SlotsOf(d), leaf);
    FindReplaced(v.SlotsOf(d), v.SlotOf(d, leaf), e, name);
  }

  // ----- the operations -----

  lemma CreateLooksUp(v: Snapshot, d: nat, leaf: Bytes, per: Positive, v': Snapshot, x: nat, name: Bytes)
    requires v.Ok() && d in v.cat.ns.tree && 0 !in leaf && CreateStep(v, d, leaf, per, v') && x in v.cat.ns.tree
    ensures v'.Entry(x, name) == EntryAfter(v, Create(d, leaf), x, name)
  {
    hide Consistent, Kept, EntryAdded, NewEntry, ShortName, Accepted, Listing, FindListed, SlotsAt, HasRoom, LinkOf,
         GoodEntry, IsShown, Inserted, WithEntry, IsText;
    if CanCreate(v, d, leaf) {
      var e := NewEntry(ShortName(leaf), ATTR_ARCHIVE, 0);
      FileEntryFacts(leaf);
      AddedKeeps(v.fat, v.data, v.cat, d, e, per, v'.fat, v'.data, v'.cat);
      if x == d {
        InsertedLooksUp(v, v', d, e, per, name);
      } else {
        SameListing(v, v', {d}, x);
      }
    }
  }

  lemma MakeLooksUp(v: Snapshot, d: nat, leaf: Bytes, per: Positive, v': Snapshot, x: nat, name: Bytes)
    requires v.Ok() && d in v.cat.ns.tree && IsText(leaf) && MakeStep(v, d, leaf, per, v') && x in v.cat.ns.tree
    ensures v'.Entry(x, name) == EntryAfter(v, MakeDir(d, leaf), x, name)
  {
    hide Consistent, Kept, DirectoryLaid, NewEntry, ShortName, Accepted, Listing, FindListed, SlotsAt, Inserted, First,
         FreshDirectory, IsText, IsShown, WithEntry;
    if CanMake(v, d, leaf) {
      MadeKeeps(v.fat, v.data, v.cat, d, leaf, per, v'.fat, v'.data, v'.cat);
      NewEntryListed(leaf, LowestFree(v.fat));
      if x == d {
        InsertedLooksUp(v, v', d, NewEntry(ShortName(leaf), ATTR_DIRECTORY, LowestFree(v.fat)), per, name);
      } else {
        SameListing(v, v', {d}, x);
      }
    } else {
      SameListing(v, v', {}, x);
    }
  }

  lemma DeletedLooksUp(v: Snapshot, d: nat, leaf: Bytes, c: nat, v': Snapshot, x: nat, name: Bytes)
    requires v.Ok() && d in v.cat.ns.tree && v.Entry(d, leaf).Some? && x in v.cat.ns.tree && (x == c ==> c == d)
    requires Deleted(v.fat, v.data, v.cat, v'.fat, v'.data, v'.cat, d, leaf, c)
    ensures v'.Entry(x, name) == if x == d then WithoutEntry(v.SlotsOf(d), leaf, name) else v.Entry(x, name)
  {
    hide Consistent, Kept, Listing, FindListed, LinkOf, GoodEntry, IsShown, GoodSlots, ChainSlots, Tombstone, SlotsAt,
         Judge, LinksOf, First, WithoutEntry, SlotsRewritten, WithoutChain;
    if x == d {
      EntryKnown(v, d, leaf);
      TombstoneIsLost(v.SlotsOf(d)[v.SlotOf(d, leaf)]);
      ReplacedLooksUp(v, v', d, leaf, Tombstone(v.SlotsOf(d)[v.SlotOf(d, leaf)]), name);
    } else {
      assert {c, d} == {d, c};
      SameListing(v, v', {d, c}, x);
    }
  }

  lemma RenameLooksUp(v: Snapshot, d: nat, leaf: Bytes, newLeaf: Bytes, v': Snapshot, x: nat, name: Bytes)
    requires v.Ok() && d in v.cat.ns.tree && IsText(newLeaf) && !IsDotName(leaf) && RenameStep(v, d, leaf, newLeaf, v')
    requires x in v.cat.ns.tree
    ensures v'.Entry(x, name) == EntryAfter(v, Rename(d, leaf, newLeaf, false), x, name)
  {
    hide Consistent, Kept, ShortName, Accepted, Listing, FindListed, SlotsAt, IsText, LinkOf, GoodEntry, DisplayName,
         GoodSlots, IsShown, ChainSlots, First, WithRenamed;
    if CanRename(v, d, leaf, newLeaf) {
      EntryKnown(v, d, leaf);
      RenamedKeeps(v.fat, v.data, v.cat, d, leaf, newLeaf, v'.data);
      DirectoryKnown(v'.fat, v'.data, v'.cat, d);
      var e := v.SlotsOf(d)[v.SlotOf(d, leaf)];
      RenamedFacts(e, newLeaf);
      if x == d {
        ReplacedLooksUp(v, v', d, leaf, e.(name := ShortName(newLeaf)), name);
      } else {
        SameListing(v, v', {d}, x);
      }
    }
  }

  lemma MoveLooksUp(v: Snapshot, d: nat, leaf: Bytes, destination: nat, newLeaf: Bytes, per: Positive, v': Snapshot,
                    x: nat, name: Bytes)
    requires v.Ok() && d in v.cat.ns.tree && destination in v.cat.ns.tree && destination != d
    requires IsText(newLeaf) && !IsDotName(leaf) && MoveStep(v, d, leaf, destination, newLeaf, per, v')
    requires x in v.cat.ns.tree
    ensures v'.Entry(x, name) == EntryAfter(v, Move(d, leaf, destination, newLeaf, false), x, name)
  {
    hide Consistent, Kept, EntryTransferred, ShortName, Accepted, Listing, FindListed, SlotsAt, IsText, LinkOf,
         GoodEntry, GoodSlots, IsShown, HasRoom, Inserted, Tombstone, First, WithEntry, WithoutEntry;
    if CanMove(v, d, leaf, destination, newLeaf) {
      EntryKnown(v, d, leaf);
      var slots, k := v.SlotsOf(d), v.SlotOf(d, leaf);
      var e := slots[k].(name := ShortName(newLeaf));
      RenamedFacts(slots[k], newLeaf);
      TransferSlots(v.fat, v.data, v.cat, d, destination, leaf, e, per, v'.fat, v'.data, v'.cat);
      FoundInside(slots, leaf);
      TombstoneIsLost(slots[k]);
      if x == d {
        ReplacedLooksUp(v, v', d, leaf, Tombstone(slots[k]), name);
      } else if x == destination {
        InsertedLooksUp(v, v', destination, e, per, name);
      } else {
        SameListing(v, v', {d, destination}, x);
      }
    }
  }

  /** A file that has been written or appended to is listed under its name, and nothing else is listed otherwise. */
  lemma StoredLooksUp(v: Snapshot, d: nat, leaf: Bytes, e': DirEntry, t: seq<nat>, v': Snapshot, x: nat, name: Bytes)
    requires v.Ok() && d in v.cat.ns.tree && NamesFile(v, d, leaf) && StoredAs(v, d, leaf, e', t, v')
    requires x in v.cat.ns.tree
    ensures v'.Entry(x, name) == if x == d && name == leaf then Some(e') else v.Entry(x, name)
  {
    hide Consistent, Kept, SlotsAt, LinkOf, GoodEntry, IsShown, DisplayName, Listing, FindListed, First, GoodSlots,
         WithRenamed, Judge, PlainVolumeBits, WellEnded;
    EntryKnown(v, d, leaf);
    ShownIsLive(e');
    NoChainAtZero(v.fat, v.data, v.cat);
    if x == d {
      ReplacedLooksUp(v, v', d, leaf, e', name);
      UnderOwnName(v.SlotsOf(d), leaf, e', name);
    } else {
      SameListing(v, v', {d, v.Entry(d, leaf).value.Cluster()}, x);
    }
  }

  lemma UnderOwnName(slots: Directory, leaf: Bytes, e: DirEntry, name: Bytes)
    requires GoodSlots(slots) && Found(slots, Listed(leaf)) && DisplayName(e.name) == leaf
    ensures WithRenamed(slots, leaf, e, name) == if name == leaf then Some(e) else FindListed(Listing(slots), name)
  {
    hide Listing, FindListed, DisplayName, GoodSlots, First, Judge, PlainVolumeBits;
    GoodSlotsArePlain(slots);
    FirstListed(slots, leaf);
  }

  /** Lookups after every step but a write. */
  lemma StepLooksUp(v: Snapshot, op: Operation, per: Positive, v': Snapshot, x: nat, name: Bytes)
    requires v.Ok() && Enabled(v, op) && Step(v, op, per, v') && x in v.cat.ns.tree && x in v'.cat.ns.tree
    requires !op.Write? && !op.Append?
    ensures v'.Entry(x, name) == EntryAfter(v, op, x, name)
  {
    hide Consistent, CreateStep, Deleted, MakeStep, RenameStep, MoveStep, ParentsOk, IsText, Listing, FindListed,
         ShortName, DisplayName, Accepted, CanCreate, CanMake, CanRename, CanMove, WithEntry, WithoutEntry, WithRenamed,
         Good, LinkOf, SlotsAt, First, GoodEntry, IsShown, GoodSlots, Found, IsLocated, RootFreed;
    match op {
      case Create(d, leaf) => CreateLooksUp(v, d, leaf, per, v', x, name);
      case Delete(d, leaf) =>
        if NamesFile(v, d, leaf) {
          EntryKnown(v, d, leaf);
          NoChainAtZero(v.fat, v.data, v.cat);
          DeletedLooksUp(v, d, leaf, v.Entry(d, leaf).value.Cluster(), v', x, name);
        }
      case RemoveDir(d, leaf, entry) =>
        RemovalIsListed(v, d, leaf, entry, v');
        if FreesDirectory(v.data, v.cat, entry) {
          var c := v.Entry(d, leaf).value.Cluster();
          RemovedIsNoDirectory(v, d, leaf, c, v');
          DeletedLooksUp(v, d, leaf, c, v', x, name);
        }
      case MakeDir(d, leaf) => MakeLooksUp(v, d, leaf, per, v', x, name);
      case Rename(d, leaf, newLeaf, occupied) =>
        if !occupied {
          RenameLooksUp(v, d, leaf, newLeaf, v', x, name);
        }
      case Move(d, leaf, destination, newLeaf, occupied) =>
        if !occupied {
          MoveLooksUp(v, d, leaf, destination, newLeaf, per, v', x, name);
        }
    }
  }

  lemma RemovedIsNoDirectory(v: Snapshot, d: nat, leaf: Bytes, c: nat, v': Snapshot)
    requires v.Ok() && d in v.cat.ns.tree && v.Entry(d, leaf).Some?
    requires Deleted(v.fat, v.data, v.cat, v'.fat, v'.data, v'.cat, d, leaf, c)
    ensures c !in v'.cat.ns.tree
  {
    hide Consistent, Deleted;
    OthersStay(v, d, leaf, c, v');
  }

  /** Lookups after a write or an append: nothing changes but what the file's own entry says. */
  lemma WriteLooksUp(v: Snapshot, op: Operation, per: Positive, v': Snapshot, x: nat, name: Bytes)
    requires v.Ok() && Enabled(v, op) && Step(v, op, per, v') && x in v.cat.ns.tree
    requires op.Write? || op.Append?
    ensures !(x == op.parent && name == op.leaf && NamesFile(v, x, name)) ==> v'.Entry(x, name) == v.Entry(x, name)
    ensures NamesFile(v, op.parent, op.leaf) ==>
              NamesFile(v', op.parent, op.leaf) && v'.Entry(op.parent, op.leaf).value.name
                                                   == v.Entry(op.parent, op.leaf).value.name
  {
    hide Consistent, Listing, FindListed, SlotsAt, StoredAs, WriteOutcome, AppendOutcome;
    var d, leaf := op.parent, op.leaf;
    if NamesFile(v, d, leaf) {
      var e', t;
      if op.Write? {
        e', t := WriteStores(v, d, leaf, op.bytes, per, v');
      } else {
        e', t := AppendStores(v, d, leaf, op.bytes, per, v');
      }
      if StoredAs(v, d, leaf, e', t, v') {
        StoredLooksUp(v, d, leaf, e', t, v', x, name);
        StoredLooksUp(v, d, leaf, e', t, v', d, leaf);
        StoredIsFile(v, d, leaf, e', t, v');
      }
    }
  }

  lemma StoredIsFile(v: Snapshot, d: nat, leaf: Bytes, e': DirEntry, t: seq<nat>, v': Snapshot)
    requires StoredAs(v, d, leaf, e', t, v')
    ensures !e'.IsDirectory() && v.Entry(d, leaf).Some? && e'.name == v.Entry(d, leaf).value.name
  {
    hide Listing, FindListed, SlotsAt;
  }
}
