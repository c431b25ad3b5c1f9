/** What the operations on a volume do to its tree of directories: whether `..` still leads to the owner, and whether a
    cached path still leads to its directory. */
module DirectoryTrees {
  import opened Options
  import opened Words
  import opened Chains
  import opened Fat32
  import opened Offsets
  import opened Entries
  import opened Slots
  import opened Listings
  import opened Directories
  import opened Files
  import opened Namespaces
  import opened Catalogues
  import opened FileSystems
  import opened Subdirectories
  import opened Renames
  import opened FileWrites
  import opened VolumeRuns
  import opened VolumeInvariants
  import opened VolumeLaws
  import opened Paths
  import opened PathBuffers
  import opened WorkingDirectories

  // ----- lookups after one slot has been rewritten -----

  /** Where a lookup ends in a directory with the entry `e` in slot `k`. */
  ghost function FoundAround(slots: Directory, k: nat, e: DirEntry, name: Bytes): Option<DirEntry>
    requires k < |slots|
  {
    if FindListed(Listing(slots[..k]), name).Some? then FindListed(Listing(slots[..k]), name)
    else if IsShown(e) && DisplayName(e.name) == name then Some(e)
    else FindListed(Listing(slots[k + 1..]), name)
  }

  lemma FindReplaced(slots: Directory, k: nat, e: DirEntry, name: Bytes)
    requires WellEnded(slots) && k < |slots| && IsShown(slots[k]) && !IsEnd(e)
    ensures FindListed(Listing(slots), name) == FoundAround(slots, k, slots[k], name)
    ensures FindListed(Listing(slots[k := e]), name) == FoundAround(slots, k, e, name)
  {
    hide Listing, FindListed, WellEnded, DisplayName;
    ReplaceSlot(slots, k, e);
    var before, after := Listing(slots[..k]), Listing(slots[k + 1..]);
    FindInserted(before, [slots[k]], after, name);
    FindFirst(slots[k], after, name);
    if IsShown(e) {
      FindInserted(before, [e], after, name);
      FindFirst(e, after, name);
    } else {
      FindInserted(before, [], after, name);
      assert before + [] + after == before + after && [] + after == after;
    }
  }

  /** The first slot listed under a name has no other of that name before it. */
  lemma FirstListed(slots: Directory, leaf: Bytes)
    requires PlainVolumeBits(slots) && Found(slots, Listed(leaf))
    ensures FindListed(Listing(slots[..First(slots, Listed(leaf))]), leaf) == None
  {
    var k := First(slots, Listed(leaf));
    assert PlainVolumeBits(slots[..k]);
    FirstUnique(slots[..k], Listed(leaf), k);
    FindAgrees(slots[..k], leaf);
  }

  // ----- parents -----

  /** What is found is a directory. */
  ghost predicate IsDirectoryFound(found: Option<DirEntry>) {
    found.Some? && found.value.IsDirectory()
  }

  /** The directory at `x` lists a directory without a name. */
  ghost predicate UnnamedIn(v: Snapshot, x: nat) {
    IsDirectoryFound(v.Entry(x, []))
  }

  /** Behind the entry without a name stands a directory without one. */
  ghost predicate UnnamedFollows(slots: Directory) {
    var k := First(slots, Listed([]));
    k < |slots| && IsDirectoryFound(FindListed(Listing(slots[k + 1..]), []))
  }

  lemma UnnamedAfterInsert(slots: Directory, e: DirEntry, per: Positive)
    requires WellEnded(slots) && !IsEnd(e) && !IsDirectoryFound(FindListed(Listing(slots), []))
    ensures IsDirectoryFound(FindListed(Listing(Inserted(slots, e, per)), []))
            <==> IsShown(e) && e.IsDirectory() && DisplayName(e.name) == []
                 && FindListed(Listing(slots[..First(slots, FreeSlot)]), []) == None
  {
    hide Listing, FindListed, Inserted, WellEnded, First, IsShown, DisplayName;
    InsertedFinds(slots, e, per, []);
  }

  /** The first entry listed under `leaf` is rewritten or removed. */
  lemma UnnamedAfterReplace(slots: Directory, leaf: Bytes, e: DirEntry)
    requires GoodSlots(slots) && Found(slots, Listed(leaf)) && !IsEnd(e)
    requires !IsDirectoryFound(FindListed(Listing(slots), []))
    requires IsShown(e) ==> (e.IsDirectory() <==> slots[First(slots, Listed(leaf))].IsDirectory())
    ensures var k := First(slots, Listed(leaf));
            IsDirectoryFound(FindListed(Listing(slots[k := e]), []))
            <==> if leaf == [] then !(IsShown(e) && DisplayName(e.name) == []) && UnnamedFollows(slots)
                 else IsShown(e) && DisplayName(e.name) == [] && e.IsDirectory()
                      && FindListed(Listing(slots[..k]), []) == None
  {
    hide Listing, FindListed, WellEnded, First, IsShown, DisplayName, GoodSlots, PlainVolumeBits, Judge;
    var k := First(slots, Listed(leaf));
    GoodSlotsEnd(slots);
    GoodSlotsArePlain(slots);
    FirstListed(slots, leaf);
    FindAgrees(slots, leaf);
    FoundName(slots, leaf);
    FindReplaced(slots, k, e, []);
  }

  /** The directory at `x` lists the same entry `..`, and lies where it lay. */
  ghost predicate KeepsUp(v: Snapshot, v': Snapshot, x: nat) {
    && x in v.cat.ns.tree && v'.Entry(x, DOTDOT) == v.Entry(x, DOTDOT)
    && (x in v.cat.ns.owner ==> x in v'.cat.ns.owner && v'.cat.ns.owner[x].dir == v.cat.ns.owner[x].dir)
  }

  lemma ParentOkIff(v: Snapshot, v': Snapshot, x: nat)
    requires ParentsOk(v.data, v.cat) && KeepsUp(v, v', x)
    ensures ParentOk(v'.data, v'.cat, x) <==> !UnnamedIn(v', x)
  {
    hide Listing, FindListed, SlotsAt;
    assert ParentOk(v.data, v.cat, x);
  }

  lemma NoUnnamedDirectory(v: Snapshot, d: nat)
    requires ParentsOk(v.data, v.cat) && d in v.cat.ns.tree
    ensures !UnnamedIn(v, d)
  {
    hide Listing, FindListed, SlotsAt;
    assert ParentOk(v.data, v.cat, d);
  }

  /** An untouched directory lists what it listed. */
  lemma SameListing(v: Snapshot, v': Snapshot, touched: set<nat>, x: nat)
    requires v.Ok() && Kept(v.data, v.cat.chains, v'.data, v'.cat.chains, touched) && x in v.cat.ns.tree
    requires x !in touched
    ensures v'.SlotsOf(x) == v.SlotsOf(x)
  {
    KeptSlots(v.fat, v.data, v.cat, v'.data, v'.cat.chains, touched, x);
  }

  /** One directory has changed, and perhaps a chain that is none or is gone. */
  lemma OneDirectoryChanged(v: Snapshot, v': Snapshot, d: nat, c: nat)
    requires v.Ok() && v'.Ok() && ParentsOk(v.data, v.cat) && Kept(v.data, v.cat.chains, v'.data, v'.cat.chains, {d, c})
    requires c !in v'.cat.ns.tree || c == d
    requires v'.Entry(d, DOTDOT) == v.Entry(d, DOTDOT)
    requires forall x :: x in v'.cat.ns.tree ==> x in v.cat.ns.tree
    requires forall x :: x in v'.cat.ns.tree && x in v.cat.ns.owner ==>
               x in v'.cat.ns.owner && v'.cat.ns.owner[x].dir == v.cat.ns.owner[x].dir
    ensures ParentsOk(v'.data, v'.cat) <==> (d in v'.cat.ns.tree ==> !UnnamedIn(v', d))
  {
    hide Consistent, Kept, ParentOk, Listing, FindListed, SlotsAt, UnnamedIn;
    forall x | x in v'.cat.ns.tree ensures ParentOk(v'.data, v'.cat, x) <==> !UnnamedIn(v', x) {
      if x != d {
        SameListing(v, v', {d, c}, x);
      }
      ParentOkIff(v, v', x);
    }
    forall x | x in v'.cat.ns.tree && x != d ensures !UnnamedIn(v', x) {
      SameListing(v, v', {d, c}, x);
      SameUnnamed(v, v', x);
      NoUnnamedDirectory(v, x);
    }
  }

  lemma SameUnnamed(v: Snapshot, v': Snapshot, x: nat)
    requires v'.SlotsOf(x) == v.SlotsOf(x)
    ensures UnnamedIn(v', x) <==> UnnamedIn(v, x)
  {
    hide Listing, FindListed, SlotsAt;
  }

  /** An entry that is no `..` has been created. */
  lemma InsertedParents(v: Snapshot, v': Snapshot, d: nat, e: DirEntry, per: Positive)
    requires v.Ok() && ParentsOk(v.data, v.cat) && d in v.cat.ns.tree && v'.SlotsOf(d) == Inserted(v.SlotsOf(d), e, per)
    requires !IsEnd(e) && (IsShown(e) ==> DisplayName(e.name) != DOTDOT)
    ensures v'.Entry(d, DOTDOT) == v.Entry(d, DOTDOT)
    ensures UnnamedIn(v', d) <==> IsShown(e) && e.IsDirectory() && DisplayName(e.name) == []
                                  && FindListed(Listing(v.SlotsOf(d)[..First(v.SlotsOf(d), FreeSlot)]), []) == None
  {
    hide Consistent, Listing, FindListed, SlotsAt, Inserted, IsShown, DisplayName, First, ChainSlots, DirectoryOk,
         ChainOk, GoodSlots, WellEnded, ParentsOk;
    DirectoryKnown(v.fat, v.data, v.cat, d);
    GoodSlotsEnd(v.SlotsOf(d));
    NoUnnamedDirectory(v, d);
    InsertedFinds(v.SlotsOf(d), e, per, DOTDOT);
    UnnamedAfterInsert(v.SlotsOf(d), e, per);
  }

  /** An entry other than `..` has been rewritten or removed. */
  lemma ReplacedParents(v: Snapshot, v': Snapshot, d: nat, leaf: Bytes, e: DirEntry)
    requires v.Ok() && ParentsOk(v.data, v.cat) && d in v.cat.ns.tree && v.Entry(d, leaf).Some? && leaf != DOTDOT
    requires v.SlotOf(d, leaf) < |v.SlotsOf(d)| && v'.SlotsOf(d) == v.SlotsOf(d)[v.SlotOf(d, leaf) := e]
    requires !IsEnd(e) && (IsShown(e) ==> DisplayName(e.name) != DOTDOT)
    requires IsShown(e) ==> (e.IsDirectory() <==> v.Entry(d, leaf).value.IsDirectory())
    ensures v'.Entry(d, DOTDOT) == v.Entry(d, DOTDOT)
    ensures UnnamedIn(v', d)
            <==> if leaf == [] then !(IsShown(e) && DisplayName(e.name) == []) && UnnamedFollows(v.SlotsOf(d))
                 else IsShown(e) && DisplayName(e.name) == [] && e.IsDirectory()
                      && FindListed(Listing(v.SlotsOf(d)[..v.SlotOf(d, leaf)]), []) == None
  {
    hide Consistent, Listing, FindListed, SlotsAt, IsShown, DisplayName, First, ChainSlots, DirectoryOk, ChainOk,
         GoodSlots, WellEnded, ParentsOk, UnnamedFollows, Judge;
    EntryKnown(v, d, leaf);
    NoUnnamedDirectory(v, d);
    GoodSlotsEnd(v.SlotsOf(d));
    FindReplaced(v.SlotsOf(d), v.SlotOf(d, leaf), e, DOTDOT);
    UnnamedAfterReplace(v.SlotsOf(d), leaf, e);
  }

  // ----- what the operations do to parents -----

  lemma CreateParents(v: Snapshot, d: nat, leaf: Bytes, per: Positive, v': Snapshot)
    requires v.Ok() && d in v.cat.ns.tree && 0 !in leaf && CreateStep(v, d, leaf, per, v') && ParentsOk(v.data, v.cat)
    ensures ParentsOk(v'.data, v'.cat)
  {
    hide Consistent, Kept, EntryAdded, NewEntry, ShortName, Accepted, Listing, FindListed, SlotsAt, HasRoom, LinkOf,
         GoodEntry, IsShown, Inserted, ParentsOk, UnnamedIn, DisplayName;
    if CanCreate(v, d, leaf) {
      var e := NewEntry(ShortName(leaf), ATTR_ARCHIVE, 0);
      FileEntryFacts(leaf);
      NewFileListed(leaf);
      AddedKeeps(v.fat, v.data, v.cat, d, e, per, v'.fat, v'.data, v'.cat);
      InsertedParents(v, v', d, e, per);
      assert {d, d} == {d};
      OneDirectoryChanged(v, v', d, d);
    }
  }

  lemma NewFileListed(leaf: Bytes)
    requires Accepted(leaf) && 0 !in leaf
    ensures var e := NewEntry(ShortName(leaf), ATTR_ARCHIVE, 0);
            !e.IsDirectory() && (IsShown(e) ==> DisplayName(e.name) != DOTDOT)
  {
    AttributeBits();
    FileEntryFacts(leaf);
    if IsText(leaf) {
      NewEntryFacts(leaf, ATTR_ARCHIVE, 0);
    }
  }

  lemma TombstoneIsLost(e: DirEntry)
    ensures !IsEnd(Tombstone(e)) && !IsShown(Tombstone(e))
  {
  }

  /** Where an entry is taken away, the one without a name is in the way of a directory without one. */
  lemma DeletedParents(v: Snapshot, d: nat, leaf: Bytes, c: nat, v': Snapshot)
    requires v.Ok() && v'.Ok() && d in v.cat.ns.tree && v.Entry(d, leaf).Some? && !IsDotName(leaf)
    requires c == v.Entry(d, leaf).value.Cluster()
    requires ParentsOk(v.data, v.cat) && Deleted(v.fat, v.data, v.cat, v'.fat, v'.data, v'.cat, d, leaf, c)
    ensures ParentsOk(v'.data, v'.cat) <==> (d in v'.cat.ns.tree ==> !(leaf == [] && UnnamedFollows(v.SlotsOf(d))))
  {
    hide Consistent, Kept, ShortName, Accepted, Listing, FindListed, LinkOf, GoodEntry, IsShown, GoodSlots, ChainSlots,
         Tombstone, SlotsAt, Judge, LinksOf, ParentsOk, UnnamedIn, UnnamedFollows, DisplayName, First;
    EntryKnown(v, d, leaf);
    var slots, k := v.SlotsOf(d), v.SlotOf(d, leaf);
    TombstoneIsLost(slots[k]);
    ReplacedParents(v, v', d, leaf, Tombstone(slots[k]));
    assert {c, d} == {d, c};
    OneDirectoryChanged(v, v', d, c);
  }

  lemma DeleteParentsIff(v: Snapshot, d: nat, leaf: Bytes, v': Snapshot)
    requires v.Ok() && d in v.cat.ns.tree && ParentsOk(v.data, v.cat) && DeleteStep(v, d, leaf, v')
    ensures ParentsOk(v'.data, v'.cat) <==> !(NamesFile(v, d, leaf) && leaf == [] && UnnamedFollows(v.SlotsOf(d)))
  {
    hide Consistent, Kept, Deleted, Listing, FindListed, SlotsAt, LinkOf, GoodEntry, IsShown, GoodSlots, First,
         ParentsOk, Good, DisplayName, UnnamedFollows;
    if NamesFile(v, d, leaf) {
      DeleteKeeps(v, d, leaf, v');
      GoodIsOk(v, v', {d, NamedCluster(v, d, leaf)});
      EntryKnown(v, d, leaf);
      DeletedParents(v, d, leaf, v.Entry(d, leaf).value.Cluster(), v');
      ListingStays(v, d, leaf, v');
    }
  }

  /** The directory a file is deleted from is still there. */
  lemma ListingStays(v: Snapshot, d: nat, leaf: Bytes, v': Snapshot)
    requires v.Ok() && d in v.cat.ns.tree && NamesFile(v, d, leaf)
    requires Deleted(v.fat, v.data, v.cat, v'.fat, v'.data, v'.cat, d, leaf, v.Entry(d, leaf).value.Cluster())
    ensures d in v'.cat.ns.tree
  {
    hide Consistent, Kept, Listing, FindListed, SlotsAt, LinkOf, GoodEntry, IsShown, GoodSlots, First, DisplayName,
         Tombstone, WithoutChain, LinksOf, SlotsRewritten;
    EntryKnown(v, d, leaf);
    NoChainAtZero(v.fat, v.data, v.cat);
    var slots, k := v.SlotsOf(d), v.SlotOf(d, leaf);
    WithoutChainIs(v.cat, d, v.Entry(d, leaf).value.Cluster(), slots[k := Tombstone(slots[k])]);
  }

  lemma RemoveParents(v: Snapshot, d: nat, leaf: Bytes, v': Snapshot)
    requires v.Ok() && d in v.cat.ns.tree && ParentsOk(v.data, v.cat) && RemoveStep(v, d, leaf, v') && !IsDotName(leaf)
    ensures ParentsOk(v'.data, v'.cat)
  {
    hide Consistent, Kept, Deleted, Listing, FindListed, SlotsAt, LinkOf, GoodEntry, IsShown, GoodSlots, First,
         ParentsOk, Good, DisplayName, UnnamedFollows;
    if v' != v {
      RemoveKeeps(v, d, leaf, v');
      NoUnnamedDirectory(v, d);
      GoodIsOk(v, v', {d, NamedCluster(v, d, leaf)});
      EntryKnown(v, d, leaf);
      DeletedParents(v, d, leaf, v.Entry(d, leaf).value.Cluster(), v');
    }
  }

  lemma MakeParentsIff(v: Snapshot, d: nat, leaf: Bytes, per: Positive, v': Snapshot)
    requires v.Ok() && d in v.cat.ns.tree && IsText(leaf) && MakeStep(v, d, leaf, per, v') && ParentsOk(v.data, v.cat)
    ensures ParentsOk(v'.data, v'.cat) <==> !(CanMake(v, d, leaf) && MadeUnnamed(v.SlotsOf(d), leaf))
  {
    hide Consistent, Kept, DirectoryLaid, NewEntry, ShortName, Accepted, Listing, FindListed, SlotsAt, Inserted, First,
         FreshDirectory, IsText, ParentsOk, UnnamedIn, MadeUnnamed, DirectoryMade;
    if CanMake(v, d, leaf) {
      MadeKeeps(v.fat, v.data, v.cat, d, leaf, per, v'.fat, v'.data, v'.cat);
      MadeKeepsParentsIff(v.fat, v.data, v.cat, v'.data, v'.cat, d, leaf, per);
    } else {
      NothingMade(v, v');
    }
  }

  lemma NothingMade(v: Snapshot, v': Snapshot)
    requires v.Ok() && ParentsOk(v.data, v.cat) && v'.cat == v.cat
    requires Kept(v.data, v.cat.chains, v'.data, v'.cat.chains, {})
    ensures ParentsOk(v'.data, v'.cat)
  {
    hide Consistent, Kept, ParentOk, Listing, FindListed, SlotsAt;
    forall x | x in v'.cat.ns.tree ensures ParentOk(v'.data, v'.cat, x) {
      SameListing(v, v', {}, x);
      NoUnnamedDirectory(v, x);
      ParentOkIff(v, v', x);
    }
  }

  /** The first entry listed under `leaf` has been rewritten, under this name or another. */
  lemma RewrittenParents(v: Snapshot, d: nat, leaf: Bytes, e: DirEntry, v': Snapshot, c: nat)
    requires v.Ok() && v'.Ok() && d in v.cat.ns.tree && ParentsOk(v.data, v.cat)
    requires Kept(v.data, v.cat.chains, v'.data, v'.cat.chains, {d, c}) && (c !in v'.cat.ns.tree || c == d)
    requires v'.cat.ns.tree.Keys == v.cat.ns.tree.Keys
    requires forall x :: x in v'.cat.ns.tree && x in v.cat.ns.owner ==>
               x in v'.cat.ns.owner && v'.cat.ns.owner[x].dir == v.cat.ns.owner[x].dir
    requires v.Entry(d, leaf).Some? && leaf != DOTDOT && DisplayName(e.name) != DOTDOT && IsShown(e)
    requires leaf == [] ==> DisplayName(e.name) == []
    requires v.SlotOf(d, leaf) < |v.SlotsOf(d)| && v'.SlotsOf(d) == v.SlotsOf(d)[v.SlotOf(d, leaf) := e]
    requires e.IsDirectory() <==> v.Entry(d, leaf).value.IsDirectory()
    ensures ParentsOk(v'.data, v'.cat) <==> !RenamedUnnamed(v, d, leaf, DisplayName(e.name))
  {
    hide Consistent, Kept, SlotsAt, IsShown, DisplayName, ParentsOk, Listing, FindListed, UnnamedFollows, First;
    ShownIsLive(e);
    NoUnnamedDirectory(v, d);
    ReplacedParents(v, v', d, leaf, e);
    OneDirectoryChanged(v, v', d, c);
  }

  /** A directory gets a new name that is listed as none, and no entry without a name stands before it. */
  ghost predicate RenamedUnnamed(v: Snapshot, d: nat, leaf: Bytes, name: Bytes) {
    && name == [] && IsDirectoryFound(v.Entry(d, leaf))
    && FindListed(Listing(v.SlotsOf(d)[..v.SlotOf(d, leaf)]), []) == None
  }

  lemma RenameParentsIff(v: Snapshot, d: nat, leaf: Bytes, newLeaf: Bytes, v': Snapshot)
    requires v.Ok() && d in v.cat.ns.tree && IsText(newLeaf) && !IsDotName(leaf) && RenameStep(v, d, leaf, newLeaf, v')
    requires ParentsOk(v.data, v.cat)
    ensures ParentsOk(v'.data, v'.cat)
            <==> !(CanRename(v, d, leaf, newLeaf) && RenamedUnnamed(v, d, leaf, DisplayName(ShortName(newLeaf))))
  {
    hide Consistent, Kept, ShortName, Accepted, Listing, FindListed, SlotsAt, IsText, LinkOf, GoodEntry, DisplayName,
         GoodSlots, IsShown, ChainSlots, ParentsOk, First, RenamedUnnamed;
    if CanRename(v, d, leaf, newLeaf) {
      EntryKnown(v, d, leaf);
      RenamedKeeps(v.fat, v.data, v.cat, d, leaf, newLeaf, v'.data);
      DirectoryKnown(v'.fat, v'.data, v'.cat, d);
      var slots, k := v.SlotsOf(d), v.SlotOf(d, leaf);
      RenamedFacts(slots[k], newLeaf);
      ShortNameFacts(newLeaf);
      assert {d, d} == {d};
      RewrittenParents(v, d, leaf, slots[k].(name := ShortName(newLeaf)), v', d);
    }
  }

  /** The moved entry leaves one directory and comes into another. */
  lemma MovedEntries(v: Snapshot, d: nat, leaf: Bytes, destination: nat, newLeaf: Bytes, per: Positive, v': Snapshot)
    requires v.Ok() && d in v.cat.ns.tree && destination in v.cat.ns.tree && destination != d
    requires IsText(newLeaf) && !IsDotName(leaf) && MoveStep(v, d, leaf, destination, newLeaf, per, v')
    requires ParentsOk(v.data, v.cat) && CanMove(v, d, leaf, destination, newLeaf)
    ensures forall x :: x in v.cat.ns.tree ==> v'.Entry(x, DOTDOT) == v.Entry(x, DOTDOT)
    ensures forall x :: x in v.cat.ns.tree && x != d && x != destination ==> !UnnamedIn(v', x)
    ensures !UnnamedIn(v', d)
    ensures UnnamedIn(v', destination)
            <==> v.Entry(d, leaf).value.IsDirectory() && MadeUnnamed(v.SlotsOf(destination), newLeaf)
  {
    hide Consistent, Kept, EntryTransferred, ShortName, Accepted, Listing, FindListed, SlotsAt, IsText, LinkOf,
         GoodEntry, GoodSlots, IsShown, HasRoom, Inserted, Tombstone, DisplayName, First, ParentsOk, ParentOk,
         UnnamedIn, UnnamedFollows;
    EntryKnown(v, d, leaf);
    var slots, into, k := v.SlotsOf(d), v.SlotsOf(destination), v.SlotOf(d, leaf);
    var e := slots[k].(name := ShortName(newLeaf));
    RenamedFacts(slots[k], newLeaf);
    SameKind(slots[k], ShortName(newLeaf));
    ShortNameFacts(newLeaf);
    ShownIsLive(e);
    TransferSlots(v.fat, v.data, v.cat, d, destination, leaf, e, per, v'.fat, v'.data, v'.cat);
    FoundInside(slots, leaf);
    TombstoneIsLost(slots[k]);
    ReplacedParents(v, v', d, leaf, Tombstone(slots[k]));
    InsertedParents(v, v', destination, e, per);
    forall x | x in v.cat.ns.tree && x != d && x != destination
      ensures !UnnamedIn(v', x) && v'.Entry(x, DOTDOT) == v.Entry(x, DOTDOT)
    {
      SameListing(v, v', {d, destination}, x);
      SameUnnamed(v, v', x);
      NoUnnamedDirectory(v, x);
    }
  }

  lemma SameKind(e: DirEntry, name: RawName)
    ensures e.(name := name).IsDirectory() == e.IsDirectory() && e.(name := name).Cluster() == e.Cluster()
  {
  }

  /** A moved directory that lists its parent, as every directory made does, lists the wrong one. */
  lemma MoveParentsIff(v: Snapshot, d: nat, leaf: Bytes, destination: nat, newLeaf: Bytes, per: Positive, v': Snapshot)
    requires v.Ok() && d in v.cat.ns.tree && destination in v.cat.ns.tree && destination != d
    requires IsText(newLeaf) && !IsDotName(leaf) && MoveStep(v, d, leaf, destination, newLeaf, per, v')
    requires ParentsOk(v.data, v.cat)
    ensures ParentsOk(v'.data, v'.cat)
            <==> !(CanMove(v, d, leaf, destination, newLeaf) && MovedAstray(v, d, leaf, destination, newLeaf))
  {
    hide Consistent, Kept, EntryTransferred, ShortName, Accepted, Listing, FindListed, SlotsAt, IsText, LinkOf,
         GoodEntry, GoodSlots, IsShown, HasRoom, Inserted, DisplayName, First, UnnamedIn, UnnamedFollows,
         MadeUnnamed, ParentOk;
    if CanMove(v, d, leaf, destination, newLeaf) {
      MovedEntries(v, d, leaf, destination, newLeaf, per, v');
      MovedOwners(v, d, leaf, destination, newLeaf, per, v');
      var e := v.Entry(d, leaf).value;
      var c := e.Cluster();
      forall x | x in v'.cat.ns.tree
        ensures ParentOk(v'.data, v'.cat, x)
                <==> !UnnamedIn(v', x) && !(e.IsDirectory() && x == c && v.Entry(c, DOTDOT).Some?)
      {
        if e.IsDirectory() && x == c {
          MovedParentIff(v, v', d, destination, x);
        } else {
          ParentOkIff(v, v', x);
        }
      }
    }
  }

  /** A directory is moved that lists its parent, or that is to have no name. */
  ghost predicate MovedAstray(v: Snapshot, d: nat, leaf: Bytes, destination: nat, newLeaf: Bytes)
    requires CanMove(v, d, leaf, destination, newLeaf)
  {
    && v.Entry(d, leaf).value.IsDirectory()
    && (v.Entry(v.Entry(d, leaf).value.Cluster(), DOTDOT).Some? || MadeUnnamed(v.SlotsOf(destination), newLeaf))
  }

  lemma MovedOwners(v: Snapshot, d: nat, leaf: Bytes, destination: nat, newLeaf: Bytes, per: Positive, v': Snapshot)
    requires v.Ok() && d in v.cat.ns.tree && destination in v.cat.ns.tree && destination != d
    requires IsText(newLeaf) && !IsDotName(leaf) && MoveStep(v, d, leaf, destination, newLeaf, per, v')
    requires CanMove(v, d, leaf, destination, newLeaf)
    ensures v'.Ok() && v'.cat.ns.tree.Keys == v.cat.ns.tree.Keys && v'.cat.ns.root == v.cat.ns.root
    ensures v.Entry(d, leaf).value.IsDirectory() ==>
              var c := v.Entry(d, leaf).value.Cluster();
              && c in v.cat.ns.tree && c in v.cat.ns.owner && v.cat.ns.owner[c] == Home(d, v.SlotOf(d, leaf))
              && v'.cat.ns.owner
                 == v.cat.ns.owner[c := Home(destination, First(v.SlotsOf(destination), FreeSlot))]
    ensures !v.Entry(d, leaf).value.IsDirectory() ==>
              forall x :: x in v.cat.ns.tree && x in v.cat.ns.owner ==>
                x in v'.cat.ns.owner && v'.cat.ns.owner[x] == v.cat.ns.owner[x]
  {
    hide Consistent, Kept, EntryTransferred, ShortName, Accepted, Listing, FindListed, SlotsAt, IsText, LinkOf,
         GoodEntry, GoodSlots, IsShown, HasRoom, Inserted, Unlisted, DisplayName, First;
    EntryKnown(v, d, leaf);
    var slots, k := v.SlotsOf(d), v.SlotOf(d, leaf);
    var e := slots[k].(name := ShortName(newLeaf));
    RenamedFacts(slots[k], newLeaf);
    SameKind(slots[k], ShortName(newLeaf));
    TransferKeeps(v.fat, v.data, v.cat, d, destination, leaf, e, per, v'.fat, v'.data, v'.cat);
    if slots[k].IsDirectory() {
      DirectoryCluster(slots[k]);
    }
  }

  /** A directory that lies elsewhere now. */
  lemma MovedParentIff(v: Snapshot, v': Snapshot, d: nat, destination: nat, c: nat)
    requires ParentsOk(v.data, v.cat) && c in v.cat.ns.tree && c in v.cat.ns.owner && v.cat.ns.owner[c].dir == d
    requires c in v'.cat.ns.owner && v'.cat.ns.owner[c].dir == destination != d
    requires v'.Entry(c, DOTDOT) == v.Entry(c, DOTDOT)
    ensures ParentOk(v'.data, v'.cat, c) <==> !UnnamedIn(v', c) && v.Entry(c, DOTDOT) == None
  {
    hide Listing, FindListed, SlotsAt;
    assert ParentOk(v.data, v.cat, c);
  }

  // ----- writing -----

  /** A file entry is rewritten under its own name. */
  ghost predicate StoredAs(v: Snapshot, d: nat, leaf: Bytes, e': DirEntry, t: seq<nat>, v': Snapshot) {
    && v'.Ok() && v.Entry(d, leaf).Some?
    && Stored(v.data, v.cat, d, v.SlotOf(d, leaf), v.Entry(d, leaf).value, e', t, v'.data, v'.cat)
    && e'.name == v.Entry(d, leaf).value.name && IsShown(e') && !e'.IsDirectory()
    && (LinkOf(e') == Nothing || (t != [] && LinkOf(e') == OwnsFile(t[0])))
  }

  lemma NameKept(e: DirEntry, c: nat, complete: bool, length: Word32)
    requires c < TWO_32
    ensures WrittenEntry(e, c, complete, length).name == e.name && AppendedEntry(e, c, complete, length).name == e.name
  {
  }

  lemma WriteStores(v: Snapshot, d: nat, leaf: Bytes, bytes: Bytes, per: Positive, v': Snapshot)
    returns (e': DirEntry, t: seq<nat>)
    requires v.Ok() && d in v.cat.ns.tree && NamesFile(v, d, leaf) && WriteFileStep(v, d, leaf, bytes, per, v')
    ensures StoredAs(v, d, leaf, e', t, v')
  {
    hide Consistent, Kept, Listing, FindListed, SlotsAt, LinkOf, GoodEntry, GoodSlots, IsShown, FileSaved, ChainSaved,
         SettledCatalogue, ChainOf, SlotsRewritten, Start, WrittenEntry, Stored, First, FreeClusters, DisplayName;
    EntryKnown(v, d, leaf);
    var e, k, size := v.Entry(d, leaf).value, v.SlotOf(d, leaf), 32 * per;
    FileKnown(v.fat, v.data, v.cat, d, k, e);
    var result: int;
    result, t :| WriteOutcome(v.fat, v.data, v.cat, d, k, e, bytes, size, result, v'.fat, t, v'.data, v'.cat);
    WriteKeeps(v.fat, v.data, v.cat, d, k, e, bytes, size, result, v'.fat, t, v'.data, v'.cat);
    var c := if result == |bytes| then t[0] else 0;
    e' := WrittenEntry(e, c, result == |bytes|, |bytes|);
    WrittenEntryFacts(e, c, result == |bytes|, |bytes|);
    StillAFile(e, c, result == |bytes|, |bytes|);
    NameKept(e, c, result == |bytes|, |bytes|);
    HeadOf(v, d, k, e, e', v', t, result == -101);
  }

  lemma AppendStores(v: Snapshot, d: nat, leaf: Bytes, bytes: Bytes, per: Positive, v': Snapshot)
    returns (e': DirEntry, t: seq<nat>)
    requires v.Ok() && d in v.cat.ns.tree && NamesFile(v, d, leaf) && AppendFileStep(v, d, leaf, bytes, per, v')
    ensures StoredAs(v, d, leaf, e', t, v') || (v'.data == v.data && v'.cat == v.cat)
  {
    hide Consistent, Kept, Listing, FindListed, SlotsAt, LinkOf, GoodEntry, GoodSlots, IsShown, FileSaved, ChainSaved,
         SettledCatalogue, ChainOf, SlotsRewritten, Start, AppendedEntry, AppendOffset, Stored, First, FreeClusters,
         DisplayName;
    EntryKnown(v, d, leaf);
    var e, k, size := v.Entry(d, leaf).value, v.SlotOf(d, leaf), 32 * per;
    FileKnown(v.fat, v.data, v.cat, d, k, e);
    var result: int;
    result, t :| AppendOutcome(v.fat, v.data, v.cat, d, k, e, bytes, size, result, v'.fat, t, v'.data, v'.cat);
    AppendKeeps(v.fat, v.data, v.cat, d, k, e, bytes, size, result, v'.fat, t, v'.data, v'.cat);
    e' := e;
    if result != -101 {
      e' := AppendedEntry(e, t[0], result == |bytes|, e.fileSize + |bytes|);
      AppendedEntryFacts(e, t[0], result == |bytes|, e.fileSize + |bytes|);
      StillAFileAppended(e, t[0], result == |bytes|, e.fileSize + |bytes|);
      NameKept(e, t[0], result == |bytes|, e.fileSize + |bytes|);
      HeadOf(v, d, k, e, e', v', t, false);
    }
  }

  lemma StoredParents(v: Snapshot, d: nat, leaf: Bytes, e': DirEntry, t: seq<nat>, v': Snapshot)
    requires v.Ok() && d in v.cat.ns.tree && NamesFile(v, d, leaf) && ParentsOk(v.data, v.cat)
    requires StoredAs(v, d, leaf, e', t, v')
    ensures ParentsOk(v'.data, v'.cat)
  {
    hide Consistent, Kept, SlotsAt, LinkOf, GoodEntry, IsShown, ChainOf, ParentsOk, DisplayName, ChainOk, Listing,
         FindListed, First, UnnamedFollows;
    EntryKnown(v, d, leaf);
    FileKnown(v.fat, v.data, v.cat, d, v.SlotOf(d, leaf), v.Entry(d, leaf).value);
    NoChainAtZero(v'.fat, v'.data, v'.cat);
    if LinkOf(e') != Nothing {
      SlotKnown(v'.fat, v'.data, v'.cat, d, v.SlotOf(d, leaf));
    }
    RewrittenParents(v, d, leaf, e', v', v.Entry(d, leaf).value.Cluster());
  }

  lemma WriteParents(v: Snapshot, d: nat, leaf: Bytes, bytes: Bytes, per: Positive, v': Snapshot)
    requires v.Ok() && d in v.cat.ns.tree && ParentsOk(v.data, v.cat)
    requires WriteFileStep(v, d, leaf, bytes, per, v') || AppendFileStep(v, d, leaf, bytes, per, v')
    ensures ParentsOk(v'.data, v'.cat)
  {
    hide Consistent, ParentsOk, Listing, FindListed, SlotsAt, StoredAs, WriteOutcome, AppendOutcome;
    if NamesFile(v, d, leaf) {
      var e', t;
      if WriteFileStep(v, d, leaf, bytes, per, v') {
        e', t := WriteStores(v, d, leaf, bytes, per, v');
      } else {
        e', t := AppendStores(v, d, leaf, bytes, per, v');
      }
      if StoredAs(v, d, leaf, e', t, v') {
        StoredParents(v, d, leaf, e', t, v');
      } else {
        SameParents(v, v');
      }
    }
  }

  lemma SameParents(v: Snapshot, v': Snapshot)
    requires ParentsOk(v.data, v.cat) && v'.data == v.data && v'.cat == v.cat
    ensures ParentsOk(v'.data, v'.cat)
  {
  }

  /** The operations after which some `..` does not lead to the owner, or some directory has no name. */
  ghost predicate SpoilsParents(v: Snapshot, op: Operation) {
    match op
    case Create(_, _) => false
    case Delete(d, leaf) => NamesFile(v, d, leaf) && leaf == [] && UnnamedFollows(v.SlotsOf(d))
    case RemoveDir(_, _, _) => false
    case MakeDir(d, leaf) => CanMake(v, d, leaf) && MadeUnnamed(v.SlotsOf(d), leaf)
    case Rename(d, leaf, newLeaf, occupied) =>
      !occupied && CanRename(v, d, leaf, newLeaf) && RenamedUnnamed(v, d, leaf, DisplayName(ShortName(newLeaf)))
    case Move(d, leaf, destination, newLeaf, occupied) =>
      !occupied && CanMove(v, d, leaf, destination, newLeaf) && MovedAstray(v, d, leaf, destination, newLeaf)
    case Write(_, _, _) => false
    case Append(_, _, _) => false
  }

  /** Every `..` goes on leading to the owner, and every directory has a name, exactly after the other operations. */
  lemma StepKeepsParentsIff(v: Snapshot, op: Operation, per: Positive, v': Snapshot)
    requires v.Ok() && Enabled(v, op) && Step(v, op, per, v') && ParentsOk(v.data, v.cat)
    ensures ParentsOk(v'.data, v'.cat) <==> !SpoilsParents(v, op)
  {
    hide Consistent, CreateStep, DeleteStep, RemoveStep, MakeStep, RenameStep, MoveStep, WriteFileStep, AppendFileStep,
         ParentsOk, IsText, Listing, FindListed, ShortName, DisplayName, Accepted, CanMake, CanRename, CanMove,
         NamesFile, MadeUnnamed, RenamedUnnamed, MovedAstray, UnnamedFollows;
    match op {
      case Create(d, leaf) => CreateParents(v, d, leaf, per, v');
      case Delete(d, leaf) => DeleteParentsIff(v, d, leaf, v');
      case RemoveDir(d, leaf, entry) =>
        RemovalIsListed(v, d, leaf, entry, v');
        if v' != v {
          RemoveParents(v, d, leaf, v');
        }
      case MakeDir(d, leaf) => MakeParentsIff(v, d, leaf, per, v');
      case Rename(d, leaf, newLeaf, occupied) =>
        if !occupied {
          RenameParentsIff(v, d, leaf, newLeaf, v');
        }
      case Move(d, leaf, destination, newLeaf, occupied) =>
        if !occupied {
          MoveParentsIff(v, d, leaf, destination, newLeaf, per, v');
        }
      case Write(d, leaf, bytes) => WriteParents(v, d, leaf, bytes, per, v');
      case Append(d, leaf, bytes) => WriteParents(v, d, leaf, bytes, per, v');
    }
  }

  /** In a run of the other operations every `..` leads to the owner at every moment. */
  lemma {:induction false} RunKeepsParents(states: seq<Snapshot>, ops: seq<Operation>, per: Positive, i: nat)
    requires IsRun(states, ops, per) && states[0].Ok() && ParentsOk(states[0].data, states[0].cat) && i < |states|
    requires forall j: nat :: j < i ==> !SpoilsParents(states[j], ops[j])
    ensures ParentsOk(states[i].data, states[i].cat)
    decreases i
  {
    hide Consistent, Enabled, Step, ParentsOk, SpoilsParents;
    if i > 0 {
      RunKeepsParents(states, ops, per, i - 1);
      RunKeeps(states, ops, per, i - 1);
      StepKeepsParentsIff(states[i - 1], ops[i - 1], per, states[i]);
    }
  }

  // ----- the root -----

  /** "/" everywhere, and ".." in the root, lead to the entry made up for the root, and on an empty volume removing that
      leaves no root behind. */
  lemma EmptyRootIsLost(fat: Fat, data: seq<Bytes>, root: nat, per: nat, fat': Fat, data': seq<Bytes>)
    requires 2 <= root < |fat| == |data| < CLUSTER_LAST && fat[root] == CLUSTER_EOC && data[root] == Zeros(32 * per)
    requires root < TWO_32 && RootFreed(fat, data, OnlyRoot(root, per), fat', data')
    ensures Resolve(data, OnlyRoot(root, per), root, [SLASH]) == Located(root, [], Some(RootEntry(root)))
    ensures Resolve(data, OnlyRoot(root, per), root, DOTDOT) == Located(root, DOTDOT, Some(RootEntry(root)))
    ensures FreesDirectory(data, OnlyRoot(root, per), Some(RootEntry(root)))
    ensures forall cat': Catalogue :: cat'.ns.root == root ==> !Consistent(fat', data', cat')
  {
    hide Consistent, RootFreed, RootEntry, Judge, Fits;
    var cat := OnlyRoot(root, per);
    EmptyVolume(fat, data, root, per);
    RootEntryFacts(root);
    SlashAndUp();
    EmptyListsNothing(per);
    forall cat': Catalogue | cat'.ns.root == root ensures !Consistent(fat', data', cat') {
      RootFreedBreaks(fat, data, cat, fat', data', cat');
    }
  }

  lemma SlashAndUp()
    ensures IsAbsolute([SLASH]) && Parts([SLASH]) == [] && Norm(true, []) == [] && Fits([])
    ensures !IsAbsolute(DOTDOT) && Parts(DOTDOT) == [DOTDOT] && Norm(false, [DOTDOT]) == [DOTDOT] && Fits([DOTDOT])
  {
    assert [SLASH][1..] == [];
    SplitOne(DOTDOT);
    assert [DOTDOT][..0] == [];
    assert Norm(false, [DOTDOT]) == Push(false, Norm(false, []), DOTDOT);
  }

  lemma EmptyListsNothing(per: nat)
    ensures !Found(EmptySlots(per), NotDot)
  {
    var slots := EmptySlots(per);
    if per > 0 {
      FirstUnique(slots, NotDot, 0);
    }
  }
}
