/** When the path a shell shows goes on leading to the directory the shell is in. */
module CachedPaths {
  import opened Options
  import opened Words
  import opened Chains
  import opened Fat32
  import opened Entries
  import opened Slots
  import opened Listings
  import opened Directories
  import opened Files
  import opened Namespaces
  import opened Catalogues
  import opened FileSystems
  import opened Subdirectories
  import opened Renames
  import opened FileWrites
  import opened VolumeRuns
  import opened VolumeInvariants
  import opened Paths
  import opened PathBuffers
  import opened WorkingDirectories
  import opened DirectoryTrees

  // ----- stops of a path -----

  ghost predicate LeadsTo(v: Snapshot, current: nat, path: Bytes) {
    Agrees(v.data, v.cat, current, path)
  }

  /** The directory the first `i` names lead to. */
  ghost function Stop(v: Snapshot, names: seq<Bytes>, i: nat): Option<nat>
    requires i <= |names|
  {
    Walk(v.data, v.cat, v.cat.ns.root, names[..i])
  }

  ghost function DownFrom(v: Snapshot, d: nat, name: Bytes): Option<nat> {
    Down(v.data, v.cat, d, name)
  }

  lemma DownFromEntry(v: Snapshot, d: nat, name: Bytes)
    ensures DownFrom(v, d, name)
            == if IsDirectoryFound(v.Entry(d, name)) then Some(v.Entry(d, name).value.Cluster()) else None
  {
    hide Listing, FindListed, SlotsAt;
  }

  lemma StopStep(v: Snapshot, names: seq<Bytes>, i: nat)
    requires i < |names|
    ensures Stop(v, names, i + 1) == match Stop(v, names, i) case None => None case Some(x) => DownFrom(v, x, names[i])
  {
    assert names[..i + 1] == names[..i] + [names[i]];
    WalkSnoc(v.data, v.cat, v.cat.ns.root, names[..i], names[i]);
  }

  lemma NoNames(v: Snapshot, names: seq<Bytes>)
    ensures Stop(v, names, 0) == Some(v.cat.ns.root)
  {
    assert names[..0] == [];
  }

  lemma AllNamesStop(v: Snapshot, names: seq<Bytes>)
    ensures Stop(v, names, |names|) == Walk(v.data, v.cat, v.cat.ns.root, names)
  {
    assert names[..|names|] == names;
  }

  /** A name leads from a directory to one that its slot owns. */
  lemma DownNamed(v: Snapshot, d: nat, name: Bytes)
    requires v.Ok() && d in v.cat.ns.tree && IsName(name) && DownFrom(v, d, name).Some?
    ensures var c := DownFrom(v, d, name).value;
            && c in v.cat.ns.tree && c in v.cat.ns.owner && c != v.cat.ns.root
            && v.cat.ns.owner[c] == Home(d, v.SlotOf(d, name))
  {
    hide Consistent, Listing, FindListed, SlotsAt, LinkOf, GoodSlots, IsShown, DisplayName, First;
    DownFromEntry(v, d, name);
    EntryKnown(v, d, name);
    DirectoryCluster(v.Entry(d, name).value);
    ConsistentParts(v.fat, v.data, v.cat);
  }

  /** Where a path leads, every part of it leads to a directory. */
  lemma {:induction false} StopsExist(v: Snapshot, names: seq<Bytes>, i: nat, n: nat)
    requires i <= n <= |names| && Stop(v, names, n).Some?
    ensures Stop(v, names, i).Some?
    decreases n - i
  {
    hide Down, Walk;
    if i < n {
      StopsExist(v, names, i + 1, n);
      StopStep(v, names, i);
    }
  }

  lemma {:induction false} StopKnown(v: Snapshot, names: seq<Bytes>, i: nat)
    requires v.Ok() && AllNames(names) && i <= |names| && Stop(v, names, i).Some?
    ensures Stop(v, names, i).value in v.cat.ns.tree
  {
    hide Consistent, Walk, Down;
    if i == 0 {
      NoNames(v, names);
      ConsistentParts(v.fat, v.data, v.cat);
    } else {
      StopStep(v, names, i - 1);
      StopKnown(v, names, i - 1);
      assert IsName(names[i - 1]);
      DownNamed(v, Stop(v, names, i - 1).value, names[i - 1]);
    }
  }

  /** The steps of a path that leads somewhere. */
  lemma PathStop(v: Snapshot, current: nat, path: Bytes, i: nat)
    requires v.Ok() && LeadsTo(v, current, path) && i < |Parts(path)|
    ensures Stop(v, Parts(path), i).Some? && Stop(v, Parts(path), i + 1).Some? && IsName(Parts(path)[i])
    ensures var d, c := Stop(v, Parts(path), i).value, Stop(v, Parts(path), i + 1).value;
            && d in v.cat.ns.tree && c in v.cat.ns.tree && c != v.cat.ns.root && c in v.cat.ns.owner
            && DownFrom(v, d, Parts(path)[i]) == Some(c)
            && IsDirectoryFound(v.Entry(d, Parts(path)[i])) && v.Entry(d, Parts(path)[i]).value.Cluster() == c
            && v.cat.ns.owner[c] == Home(d, v.SlotOf(d, Parts(path)[i]))
  {
    hide Consistent, Walk, Parts, AbsolutePath, Down, Snapshot.Entry, Snapshot.SlotOf;
    AllNamesStop(v, Parts(path));
    StopsExist(v, Parts(path), i, |Parts(path)|);
    StopsExist(v, Parts(path), i + 1, |Parts(path)|);
    StopKnown(v, Parts(path), i);
    StopStep(v, Parts(path), i);
    DownNamed(v, Stop(v, Parts(path), i).value, Parts(path)[i]);
    DownFromEntry(v, Stop(v, Parts(path), i).value, Parts(path)[i]);
  }

  lemma PathEnd(v: Snapshot, current: nat, path: Bytes)
    requires LeadsTo(v, current, path)
    ensures Stop(v, Parts(path), |Parts(path)|) == Some(current)
  {
    hide Walk, Parts, AbsolutePath;
    AllNamesStop(v, Parts(path));
  }

  /** A path comes to no directory twice. */
  lemma {:induction false} StopsDistinct(v: Snapshot, current: nat, path: Bytes, i: nat, j: nat)
    requires v.Ok() && LeadsTo(v, current, path) && i < j <= |Parts(path)|
    ensures Stop(v, Parts(path), i) != Stop(v, Parts(path), j)
  {
    hide Snapshot.Ok, LeadsTo, Parts, Stop;
    StopHome(v, current, path, j - 1);
    if i == 0 {
      NoNames(v, Parts(path));
    } else {
      StopHome(v, current, path, i - 1);
      StopsDistinct(v, current, path, i - 1, j - 1);
    }
  }

  /** The directory before this one on a path is the one it lies in. */
  lemma StopHome(v: Snapshot, current: nat, path: Bytes, i: nat)
    requires v.Ok() && LeadsTo(v, current, path) && i < |Parts(path)|
    ensures Stop(v, Parts(path), i + 1).Some? && Stop(v, Parts(path), i + 1).value in v.cat.ns.owner
    ensures Stop(v, Parts(path), i + 1).value != v.cat.ns.root
    ensures Stop(v, Parts(path), i) == Some(v.cat.ns.owner[Stop(v, Parts(path), i + 1).value].dir)
  {
    hide Consistent, Agrees, Parts, DownFrom, Stop;
    PathStop(v, current, path, i);
  }

  /** The path meets the name in the directory at `d`. */
  ghost predicate Meets(v: Snapshot, names: seq<Bytes>, d: nat, name: Bytes) {
    exists i: nat :: MeetsAt(v, names, d, name, i)
  }

  ghost predicate MeetsAt(v: Snapshot, names: seq<Bytes>, d: nat, name: Bytes, i: nat) {
    i < |names| && Stop(v, names, i) == Some(d) && names[i] == name
  }

  // ----- the same path in two volumes -----

  /** The step of the path leads where it led. */
  ghost predicate SameStep(v: Snapshot, v': Snapshot, names: seq<Bytes>, i: nat)
    requires i < |names|
  {
    Stop(v, names, i).Some? ==>
      DownFrom(v', Stop(v, names, i).value, names[i]) == DownFrom(v, Stop(v, names, i).value, names[i])
  }

  ghost predicate SameSteps(v: Snapshot, v': Snapshot, names: seq<Bytes>, n: nat) {
    forall i: nat :: i < n <= |names| ==> SameStep(v, v', names, i)
  }

  lemma {:induction false} SameStops(v: Snapshot, v': Snapshot, names: seq<Bytes>, i: nat)
    requires i <= |names| && SameSteps(v, v', names, i) && v'.cat.ns.root == v.cat.ns.root
    ensures Stop(v', names, i) == Stop(v, names, i)
  {
    hide Down, Walk;
    if i > 0 {
      SameStops(v, v', names, i - 1);
      StopStep(v, names, i - 1);
      StopStep(v', names, i - 1);
      assert SameStep(v, v', names, i - 1);
    } else {
      NoNames(v, names);
      NoNames(v', names);
    }
  }

  /** The directory, if it is still there, lies in the directory it lay in. */
  ghost predicate KeepsHome(v: Snapshot, v': Snapshot, x: nat) {
    x in v.cat.ns.owner && x in v'.cat.ns.owner ==> v'.cat.ns.owner[x].dir == v.cat.ns.owner[x].dir
  }

  /** Two paths to one directory have come the same way as far back as the directories kept their places. */
  lemma {:induction false} StopsTraced(v: Snapshot, v': Snapshot, current: nat, path: Bytes, i: nat)
    requires v.Ok() && v'.Ok() && LeadsTo(v, current, path) && LeadsTo(v', current, path) && i <= |Parts(path)|
    requires forall j: nat :: i < j <= |Parts(path)| && Stop(v, Parts(path), j).Some? ==>
               KeepsHome(v, v', Stop(v, Parts(path), j).value)
    ensures Stop(v', Parts(path), i) == Stop(v, Parts(path), i)
    decreases |Parts(path)| - i
  {
    hide Consistent, Agrees, Parts, DownFrom, Stop;
    if i < |Parts(path)| {
      StopsTraced(v, v', current, path, i + 1);
      PathStop(v, current, path, i);
      PathStop(v', current, path, i);
    } else {
      PathEnd(v, current, path);
      PathEnd(v', current, path);
    }
  }

  /** Where the directories on a path have kept their places, it leads to the same directory if and only if that is
      still there and no step leads elsewhere. */
  lemma PathKeptIff(v: Snapshot, v': Snapshot, current: nat, path: Bytes)
    requires v.Ok() && v'.Ok() && LeadsTo(v, current, path) && v'.cat.ns.root == v.cat.ns.root
    requires forall j: nat :: j <= |Parts(path)| && Stop(v, Parts(path), j).Some? ==>
               KeepsHome(v, v', Stop(v, Parts(path), j).value)
    ensures LeadsTo(v', current, path)
            <==> current in v'.cat.ns.tree && SameSteps(v, v', Parts(path), |Parts(path)|)
  {
    hide Consistent, Agrees, Parts, DownFrom, Stop;
    var names := Parts(path);
    if LeadsTo(v', current, path) {
      forall i: nat | i < |names| ensures SameStep(v, v', names, i) {
        StopsTraced(v, v', current, path, i);
        StopsTraced(v, v', current, path, i + 1);
        PathStop(v, current, path, i);
        PathStop(v', current, path, i);
      }
      CurrentKnown(v'.data, v'.cat, current, path);
    }
    if current in v'.cat.ns.tree && SameSteps(v, v', names, |names|) {
      PathSpared(v, v', current, path);
    }
  }

  /** Whatever has become of the places, it is enough that no step leads elsewhere. */
  lemma PathSpared(v: Snapshot, v': Snapshot, current: nat, path: Bytes)
    requires LeadsTo(v, current, path) && v'.cat.ns.root == v.cat.ns.root && current in v'.cat.ns.tree
    requires SameSteps(v, v', Parts(path), |Parts(path)|)
    ensures LeadsTo(v', current, path)
  {
    hide Walk, Parts, AbsolutePath, Down;
    AllNamesStop(v, Parts(path));
    AllNamesStop(v', Parts(path));
    SameStops(v, v', Parts(path), |Parts(path)|);
  }

  lemma SameEntryDown(v: Snapshot, v': Snapshot, d: nat, name: Bytes)
    requires v'.Entry(d, name) == v.Entry(d, name)
    ensures DownFrom(v', d, name) == DownFrom(v, d, name)
  {
    hide Listing, FindListed, SlotsAt;
  }

  // ----- one directory has changed -----

  /** The path meets the name, and none of the first `k` slots there is listed under it. */
  ghost predicate Shadows(v: Snapshot, names: seq<Bytes>, d: nat, name: Bytes, k: nat)
    requires k <= |v.SlotsOf(d)|
  {
    Meets(v, names, d, name) && FindListed(Listing(v.SlotsOf(d)[..k]), name) == None
  }

  /** Only the steps from that directory can lead elsewhere. */
  lemma OneDirectoryPath(v: Snapshot, v': Snapshot, d: nat, c: nat, current: nat, path: Bytes)
    requires v.Ok() && v'.Ok() && LeadsTo(v, current, path) && v'.cat.ns.root == v.cat.ns.root
    requires current in v'.cat.ns.tree && forall x :: x in v.cat.ns.tree ==> KeepsHome(v, v', x)
    requires Kept(v.data, v.cat.chains, v'.data, v'.cat.chains, {d, c})
    requires forall i: nat :: i < |Parts(path)| && Stop(v, Parts(path), i) == Some(c) ==> c == d
    ensures LeadsTo(v', current, path)
            <==> forall i: nat :: i < |Parts(path)| && Stop(v, Parts(path), i) == Some(d) ==>
                   SameStep(v, v', Parts(path), i)
  {
    hide Consistent, Agrees, Parts, DownFrom, Stop, KeepsHome, Kept, SlotsAt;
    var names := Parts(path);
    forall j: nat | j <= |names| && Stop(v, names, j).Some? ensures KeepsHome(v, v', Stop(v, names, j).value) {
      if j < |names| {
        PathStop(v, current, path, j);
      } else {
        PathEnd(v, current, path);
        CurrentKnown(v.data, v.cat, current, path);
      }
    }
    forall i: nat | i < |names| && Stop(v, names, i) != Some(d) ensures SameStep(v, v', names, i) {
      PathStop(v, current, path, i);
      SameListing(v, v', {d, c}, Stop(v, names, i).value);
      SameListingDown(v, v', Stop(v, names, i).value, names[i]);
    }
    PathKeptIff(v, v', current, path);
  }

  lemma SameListingDown(v: Snapshot, v': Snapshot, d: nat, name: Bytes)
    requires v'.SlotsOf(d) == v.SlotsOf(d)
    ensures DownFrom(v', d, name) == DownFrom(v, d, name)
  {
    hide Listing, FindListed, SlotsAt;
    SameEntryDown(v, v', d, name);
  }

  /** An entry has been created that is a file's or a new directory's. */
  lemma InsertedStepIff(v: Snapshot, v': Snapshot, d: nat, e: DirEntry, per: Positive, current: nat, path: Bytes,
                        i: nat)
    requires v.Ok() && LeadsTo(v, current, path) && i < |Parts(path)| && Stop(v, Parts(path), i) == Some(d)
    requires v'.SlotsOf(d) == Inserted(v.SlotsOf(d), e, per) && !IsEnd(e)
    requires IsShown(e) && e.IsDirectory() ==> Stop(v, Parts(path), i + 1) != Some(e.Cluster())
    ensures SameStep(v, v', Parts(path), i)
            <==> !(IsShown(e) && DisplayName(e.name) == Parts(path)[i]
                   && FindListed(Listing(v.SlotsOf(d)[..First(v.SlotsOf(d), FreeSlot)]), Parts(path)[i]) == None)
  {
    hide Consistent, Agrees, Parts, DownFrom, Stop, SlotsAt, Listing, FindListed, Inserted, IsShown, DisplayName, First,
         ChainSlots, GoodSlots, WellEnded, DirectoryOk, ChainOk;
    var name := Parts(path)[i];
    PathStop(v, current, path, i);
    DirectoryKnown(v.fat, v.data, v.cat, d);
    GoodSlotsEnd(v.SlotsOf(d));
    InsertedFinds(v.SlotsOf(d), e, per, name);
    DownFromEntry(v', d, name);
  }

  lemma InsertedPathIff(v: Snapshot, v': Snapshot, d: nat, e: DirEntry, per: Positive, current: nat, path: Bytes)
    requires v.Ok() && v'.Ok() && LeadsTo(v, current, path) && v'.cat.ns.root == v.cat.ns.root
    requires current in v'.cat.ns.tree && forall x :: x in v.cat.ns.tree ==> KeepsHome(v, v', x)
    requires Kept(v.data, v.cat.chains, v'.data, v'.cat.chains, {d})
    requires v'.SlotsOf(d) == Inserted(v.SlotsOf(d), e, per) && !IsEnd(e)
    requires IsShown(e) && e.IsDirectory() ==> e.Cluster() !in v.cat.ns.tree
    ensures LeadsTo(v', current, path)
            <==> !(IsShown(e)
                   && Shadows(v, Parts(path), d, DisplayName(e.name), First(v.SlotsOf(d), FreeSlot)))
  {
    hide Consistent, Agrees, Parts, DownFrom, Stop, SlotsAt, Listing, FindListed, Inserted, IsShown, DisplayName, First,
         KeepsHome, Kept, SameStep;
    var names, name := Parts(path), DisplayName(e.name);
    forall i: nat | i < |names| && Stop(v, names, i) == Some(d)
      ensures SameStep(v, v', names, i)
              <==> !(IsShown(e) && MeetsAt(v, names, d, name, i)
                     && FindListed(Listing(v.SlotsOf(d)[..First(v.SlotsOf(d), FreeSlot)]), name) == None)
    {
      PathStop(v, current, path, i);
      InsertedStepIff(v, v', d, e, per, current, path, i);
    }
    assert {d, d} == {d};
    OneDirectoryPath(v, v', d, d, current, path);
    if Meets(v, names, d, name) {
      var i: nat :| MeetsAt(v, names, d, name, i);
      assert IsShown(e) && FindListed(Listing(v.SlotsOf(d)[..First(v.SlotsOf(d), FreeSlot)]), name) == None ==>
          !SameStep(v, v', names, i);
    }
  }

  /** Another slot that leads to a directory does not lead to the one this slot leads to. */
  lemma OtherSlot(v: Snapshot, d: nat, j: nat, k: nat, c: nat)
    requires v.Ok() && d in v.cat.ns.tree && j < |v.SlotsOf(d)| && j != k
    requires c in v.cat.ns.owner ==> v.cat.ns.owner[c] == Home(d, k)
    requires IsShown(v.SlotsOf(d)[j]) && !IsDotName(DisplayName(v.SlotsOf(d)[j].name)) && v.SlotsOf(d)[j].IsDirectory()
    ensures v.SlotsOf(d)[j].Cluster() != c
  {
    hide Consistent, SlotsAt, IsShown, DisplayName;
    SlotKnown(v.fat, v.data, v.cat, d, j);
    DirectoryCluster(v.SlotsOf(d)[j]);
  }

  /** The first entry listed under `leaf` has been rewritten or removed. */
  lemma RewrittenStepIff(v: Snapshot, v': Snapshot, d: nat, leaf: Bytes, e: DirEntry, current: nat, path: Bytes, i: nat)
    requires v.Ok() && v'.Ok() && LeadsTo(v, current, path) && i < |Parts(path)| && Stop(v, Parts(path), i) == Some(d)
    requires d in v'.cat.ns.tree && v.Entry(d, leaf).Some? && !IsDotName(leaf)
    requires v.SlotOf(d, leaf) < |v.SlotsOf(d)| && v'.SlotsOf(d) == v.SlotsOf(d)[v.SlotOf(d, leaf) := e] && !IsEnd(e)
    requires IsShown(e) ==> && e.IsDirectory() == v.Entry(d, leaf).value.IsDirectory()
                            && (e.IsDirectory() ==> e.Cluster() == v.Entry(d, leaf).value.Cluster())
    ensures SameStep(v, v', Parts(path), i)
            <==> if Parts(path)[i] == leaf then IsShown(e) && DisplayName(e.name) == leaf
                 else !(IsShown(e) && DisplayName(e.name) == Parts(path)[i]
                        && FindListed(Listing(v.SlotsOf(d)[..v.SlotOf(d, leaf)]), Parts(path)[i]) == None)
  {
    hide Consistent, Agrees, Parts, DownFrom, Stop, SlotsAt, Listing, FindListed, IsShown, DisplayName, First,
         GoodSlots, WellEnded, PlainVolumeBits, LinkOf, GoodEntry, Judge;
    var name, slots, k := Parts(path)[i], v.SlotsOf(d), v.SlotOf(d, leaf);
    PathStop(v, current, path, i);
    EntryKnown(v, d, leaf);
    EntryKnown(v, d, name);
    GoodSlotsEnd(slots);
    GoodSlotsArePlain(slots);
    FirstListed(slots, leaf);
    FindReplaced(slots, k, e, name);
    DownFromEntry(v', d, name);
    NoChainAtZero(v.fat, v.data, v.cat);
    if IsDirectoryFound(v'.Entry(d, name)) {
      EntryKnown(v', d, name);
      if v'.SlotOf(d, name) != k {
        OtherSlot(v, d, v'.SlotOf(d, name), k, v.Entry(d, leaf).value.Cluster());
      }
    }
    if name != leaf {
      OtherSlot(v, d, v.SlotOf(d, name), k, v.Entry(d, leaf).value.Cluster());
    }
  }

  lemma RewrittenPathIff(v: Snapshot, v': Snapshot, d: nat, leaf: Bytes, e: DirEntry, c: nat, current: nat, path: Bytes)
    requires v.Ok() && v'.Ok() && LeadsTo(v, current, path) && v'.cat.ns.root == v.cat.ns.root
    requires current in v'.cat.ns.tree && forall x :: x in v.cat.ns.tree ==> KeepsHome(v, v', x)
    requires Kept(v.data, v.cat.chains, v'.data, v'.cat.chains, {d, c})
    requires forall i: nat :: i < |Parts(path)| && Stop(v, Parts(path), i) == Some(c) ==> c == d
    requires d in v'.cat.ns.tree && v.Entry(d, leaf).Some? && !IsDotName(leaf)
    requires v.SlotOf(d, leaf) < |v.SlotsOf(d)| && v'.SlotsOf(d) == v.SlotsOf(d)[v.SlotOf(d, leaf) := e] && !IsEnd(e)
    requires IsShown(e) ==> && e.IsDirectory() == v.Entry(d, leaf).value.IsDirectory()
                            && (e.IsDirectory() ==> e.Cluster() == v.Entry(d, leaf).value.Cluster())
    ensures LeadsTo(v', current, path)
            <==> if IsShown(e) && DisplayName(e.name) == leaf then true
                 else !Meets(v, Parts(path), d, leaf)
                      && !(IsShown(e) && Shadows(v, Parts(path), d, DisplayName(e.name), v.SlotOf(d, leaf)))
  {
    hide Consistent, Agrees, Parts, DownFrom, Stop, SlotsAt, Listing, FindListed, IsShown, DisplayName, First,
         KeepsHome, Kept, SameStep;
    var names, name, k := Parts(path), DisplayName(e.name), v.SlotOf(d, leaf);
    ghost var before := FindListed(Listing(v.SlotsOf(d)[..k]), name);
    forall i: nat | i < |names| && Stop(v, names, i) == Some(d)
      ensures SameStep(v, v', names, i)
              <==> if IsShown(e) && name == leaf then true
                   else !MeetsAt(v, names, d, leaf, i)
                        && !(IsShown(e) && MeetsAt(v, names, d, name, i) && before == None)
    {
      RewrittenStepIff(v, v', d, leaf, e, current, path, i);
    }
    OneDirectoryPath(v, v', d, c, current, path);
    if !(IsShown(e) && name == leaf) {
      if Meets(v, names, d, leaf) {
        var i: nat :| MeetsAt(v, names, d, leaf, i);
        assert !SameStep(v, v', names, i);
      } else if IsShown(e) && before == None && Meets(v, names, d, name) {
        var i: nat :| MeetsAt(v, names, d, name, i);
        assert !SameStep(v, v', names, i);
      }
    }
  }

  // ----- what the operations do to the path -----

  lemma CreateKeepsPathIff(v: Snapshot, d: nat, leaf: Bytes, per: Positive, v': Snapshot, current: nat, path: Bytes)
    requires v.Ok() && d in v.cat.ns.tree && 0 !in leaf && CreateStep(v, d, leaf, per, v') && LeadsTo(v, current, path)
    ensures LeadsTo(v', current, path)
            <==> !(CanCreate(v, d, leaf) && IsText(leaf)
                   && Shadows(v, Parts(path), d, DisplayName(ShortName(leaf)), First(v.SlotsOf(d), FreeSlot)))
  {
    hide Consistent, Kept, EntryAdded, ShortName, Accepted, Listing, FindListed, SlotsAt, HasRoom, LinkOf, GoodEntry,
         NewEntry, IsShown, Inserted, DisplayName, Agrees, Parts, Meets, First;
    CurrentKnown(v.data, v.cat, current, path);
    if CanCreate(v, d, leaf) {
      var e := NewEntry(ShortName(leaf), ATTR_ARCHIVE, 0);
      FileEntryFacts(leaf);
      NewFileListed(leaf);
      NewEntryName(ShortName(leaf), ATTR_ARCHIVE, 0);
      AddedKeeps(v.fat, v.data, v.cat, d, e, per, v'.fat, v'.data, v'.cat);
      InsertedPathIff(v, v', d, e, per, current, path);
    }
  }

  lemma MakeKeepsPathIff(v: Snapshot, d: nat, leaf: Bytes, per: Positive, v': Snapshot, current: nat, path: Bytes)
    requires v.Ok() && d in v.cat.ns.tree && IsText(leaf) && MakeStep(v, d, leaf, per, v') && LeadsTo(v, current, path)
    ensures LeadsTo(v', current, path)
            <==> !(CanMake(v, d, leaf)
                   && Shadows(v, Parts(path), d, DisplayName(ShortName(leaf)), First(v.SlotsOf(d), FreeSlot)))
  {
    hide Consistent, Kept, DirectoryLaid, NewEntry, ShortName, Accepted, Listing, FindListed, SlotsAt, Inserted, First,
         FreshDirectory, IsText, Agrees, Parts, Meets, DisplayName, Stop, DownFrom;
    CurrentKnown(v.data, v.cat, current, path);
    if CanMake(v, d, leaf) {
      MadeKeeps(v.fat, v.data, v.cat, d, leaf, per, v'.fat, v'.data, v'.cat);
      var e := NewEntry(ShortName(leaf), ATTR_DIRECTORY, LowestFree(v.fat));
      NewEntryListed(leaf, LowestFree(v.fat));
      NewDirectoryCluster(leaf, LowestFree(v.fat));
      ConsistentParts(v.fat, v.data, v.cat);
      InsertedPathIff(v, v', d, e, per, current, path);
    } else {
      forall i: nat | i < |Parts(path)| ensures SameStep(v, v', Parts(path), i) {
        PathStop(v, current, path, i);
        SameListing(v, v', {}, Stop(v, Parts(path), i).value);
        SameListingDown(v, v', Stop(v, Parts(path), i).value, Parts(path)[i]);
      }
      PathSpared(v, v', current, path);
    }
  }

  lemma NewDirectoryCluster(leaf: Bytes, c: nat)
    requires Accepted(leaf) && IsText(leaf) && c < TWO_32
    ensures NewEntry(ShortName(leaf), ATTR_DIRECTORY, c).Cluster() == c
  {
    NewEntryFacts(leaf, ATTR_DIRECTORY, c);
  }

  /** A path goes through directories only, so it does not meet the name of a file. */
  lemma FileNotMet(v: Snapshot, d: nat, leaf: Bytes, current: nat, path: Bytes)
    requires v.Ok() && LeadsTo(v, current, path) && NamesFile(v, d, leaf)
    ensures !Meets(v, Parts(path), d, leaf)
  {
    hide Consistent, Parts, Agrees, Stop, Snapshot.Entry;
    if Meets(v, Parts(path), d, leaf) {
      var i: nat :| MeetsAt(v, Parts(path), d, leaf, i);
      PathStop(v, current, path, i);
      assert false;
    }
  }

  /** A file's chain is no stop of a path. */
  lemma FileIsNoStop(v: Snapshot, c: nat, current: nat, path: Bytes)
    requires v.Ok() && LeadsTo(v, current, path) && c !in v.cat.ns.tree
    ensures forall i: nat :: i < |Parts(path)| ==> Stop(v, Parts(path), i) != Some(c)
  {
    hide Consistent, Agrees, Parts, Stop, DownFrom;
    forall i: nat | i < |Parts(path)| ensures Stop(v, Parts(path), i) != Some(c) {
      PathStop(v, current, path, i);
    }
  }

  lemma DeletedPathIff(v: Snapshot, d: nat, leaf: Bytes, c: nat, v': Snapshot, current: nat, path: Bytes)
    requires v.Ok() && v'.Ok() && d in v.cat.ns.tree && v.Entry(d, leaf).Some? && !IsDotName(leaf)
    requires LeadsTo(v, current, path) && current in v'.cat.ns.tree && d in v'.cat.ns.tree
    requires Deleted(v.fat, v.data, v.cat, v'.fat, v'.data, v'.cat, d, leaf, c) && v'.cat.ns.root == v.cat.ns.root
    requires forall i: nat :: i < |Parts(path)| ==> Stop(v, Parts(path), i) != Some(c)
    ensures LeadsTo(v', current, path) <==> !Meets(v, Parts(path), d, leaf)
  {
    hide Consistent, Kept, ShortName, Accepted, Listing, FindListed, LinkOf, GoodEntry, IsShown, GoodSlots, ChainSlots,
         Tombstone, SlotsAt, Judge, LinksOf, DisplayName, First, Agrees, Parts, Meets, Stop;
    EntryKnown(v, d, leaf);
    var slots, k := v.SlotsOf(d), v.SlotOf(d, leaf);
    TombstoneIsLost(slots[k]);
    assert {c, d} == {d, c};
    RewrittenPathIff(v, v', d, leaf, Tombstone(slots[k]), c, current, path);
  }

  lemma DeleteKeepsPath(v: Snapshot, d: nat, leaf: Bytes, v': Snapshot, current: nat, path: Bytes)
    requires v.Ok() && d in v.cat.ns.tree && DeleteStep(v, d, leaf, v') && LeadsTo(v, current, path)
    ensures LeadsTo(v', current, path)
  {
    hide Consistent, Kept, Deleted, Listing, FindListed, SlotsAt, LinkOf, GoodEntry, IsShown, GoodSlots, First, Good,
         DisplayName, Agrees, Parts, Meets, Stop;
    if NamesFile(v, d, leaf) {
      CurrentKnown(v.data, v.cat, current, path);
      DeleteKeeps(v, d, leaf, v');
      GoodIsOk(v, v', {d, NamedCluster(v, d, leaf)});
      EntryKnown(v, d, leaf);
      var c := v.Entry(d, leaf).value.Cluster();
      NoChainAtZero(v.fat, v.data, v.cat);
      FileNotMet(v, d, leaf, current, path);
      FileIsNoStop(v, c, current, path);
      OthersStay(v, d, leaf, c, v');
      DeletedPathIff(v, d, leaf, c, v', current, path);
    }
  }

  /** No directory is gone but the one that was freed. */
  lemma OthersStay(v: Snapshot, d: nat, leaf: Bytes, c: nat, v': Snapshot)
    requires v.Ok() && d in v.cat.ns.tree && v.Entry(d, leaf).Some?
    requires Deleted(v.fat, v.data, v.cat, v'.fat, v'.data, v'.cat, d, leaf, c)
    ensures v'.cat.ns.tree.Keys == v.cat.ns.tree.Keys - {c} && v'.cat.ns.root == v.cat.ns.root
  {
    hide Consistent, Kept, Listing, FindListed, SlotsAt, LinkOf, GoodEntry, IsShown, GoodSlots, First, DisplayName,
         Tombstone, WithoutChain, LinksOf, SlotsRewritten;
    EntryKnown(v, d, leaf);
    var slots, k := v.SlotsOf(d), v.SlotOf(d, leaf);
    WithoutChainIs(v.cat, d, c, slots[k := Tombstone(slots[k])]);
  }

  /** A path that goes on from a directory meets a name there, so the directory is not empty. */
  lemma EmptyIsNoStop(v: Snapshot, c: nat, current: nat, path: Bytes)
    requires v.Ok() && LeadsTo(v, current, path) && c in v.cat.ns.tree && !Found(v.SlotsOf(c), NotDot)
    ensures forall i: nat :: i < |Parts(path)| ==> Stop(v, Parts(path), i) != Some(c)
  {
    hide Consistent, Agrees, Parts, Stop, SlotsAt, Listing, FindListed, DisplayName, IsShown, GoodEntry, LinkOf,
         WellEnded, Judge, First;
    forall i: nat | i < |Parts(path)| ensures Stop(v, Parts(path), i) != Some(c) {
      PathStop(v, current, path, i);
      if Stop(v, Parts(path), i) == Some(c) {
        EntryKnown(v, c, Parts(path)[i]);
        GoodSlotsEnd(v.SlotsOf(c));
        ShownIsFound(v.SlotsOf(c), v.SlotOf(c, Parts(path)[i]));
      }
    }
  }

  /** Removing a directory breaks the path exactly if it leads there. */
  lemma RemoveKeepsPathIff(v: Snapshot, d: nat, leaf: Bytes, v': Snapshot, current: nat, path: Bytes)
    requires v.Ok() && d in v.cat.ns.tree && !IsDotName(leaf) && RemoveStep(v, d, leaf, v')
    requires FreesDirectory(v.data, v.cat, v.Entry(d, leaf)) && LeadsTo(v, current, path)
    ensures LeadsTo(v', current, path) <==> NamedCluster(v, d, leaf) != current
  {
    hide Consistent, Kept, Deleted, Listing, FindListed, SlotsAt, LinkOf, GoodEntry, IsShown, GoodSlots, First, Good,
         DisplayName, Agrees, Parts, Stop, Found;
    CurrentKnown(v.data, v.cat, current, path);
    RemoveKeeps(v, d, leaf, v');
    GoodIsOk(v, v', {d, NamedCluster(v, d, leaf)});
    EntryKnown(v, d, leaf);
    var c := v.Entry(d, leaf).value.Cluster();
    DirectoryCluster(v.Entry(d, leaf).value);
    EmptyIsNoStop(v, c, current, path);
    OthersStay(v, d, leaf, c, v');
    if c == current {
      if LeadsTo(v', current, path) {
        CurrentKnown(v'.data, v'.cat, current, path);
        assert false;
      }
    } else {
      RemovedNotMet(v, d, leaf, current, path);
      NotEmptied(v, d, leaf);
      DeletedPathIff(v, d, leaf, c, v', current, path);
    }
  }

  lemma RemovedNotMet(v: Snapshot, d: nat, leaf: Bytes, current: nat, path: Bytes)
    requires v.Ok() && LeadsTo(v, current, path) && IsDirectoryFound(v.Entry(d, leaf))
    requires v.Entry(d, leaf).value.Cluster() != current
    requires forall i: nat :: i < |Parts(path)| ==> Stop(v, Parts(path), i) != Some(v.Entry(d, leaf).value.Cluster())
    ensures !Meets(v, Parts(path), d, leaf)
  {
    hide Consistent, Parts, Agrees, Stop, Snapshot.Entry;
    if Meets(v, Parts(path), d, leaf) {
      var i: nat :| MeetsAt(v, Parts(path), d, leaf, i);
      PathStop(v, current, path, i);
      PathEnd(v, current, path);
      assert false;
    }
  }

  /** The directory that lists the emptied one is another. */
  lemma NotEmptied(v: Snapshot, d: nat, leaf: Bytes)
    requires v.Ok() && d in v.cat.ns.tree && v.Entry(d, leaf).Some? && !IsDotName(leaf)
    requires !Found(v.SlotsOf(v.Entry(d, leaf).value.Cluster()), NotDot)
    ensures v.Entry(d, leaf).value.Cluster() != d
  {
    hide Consistent, Listing, FindListed, SlotsAt, LinkOf, GoodEntry, IsShown, GoodSlots, WellEnded, DisplayName, Judge,
         First;
    EntryKnown(v, d, leaf);
    GoodSlotsEnd(v.SlotsOf(d));
    if v.Entry(d, leaf).value.Cluster() == d {
      ShownIsFound(v.SlotsOf(d), v.SlotOf(d, leaf));
    }
  }

  lemma RenameKeepsPathIff(v: Snapshot, d: nat, leaf: Bytes, newLeaf: Bytes, v': Snapshot, current: nat, path: Bytes)
    requires v.Ok() && d in v.cat.ns.tree && IsText(newLeaf) && !IsDotName(leaf) && RenameStep(v, d, leaf, newLeaf, v')
    requires LeadsTo(v, current, path)
    ensures LeadsTo(v', current, path)
            <==> !(CanRename(v, d, leaf, newLeaf)
                   && RenamedOff(v, Parts(path), d, leaf, DisplayName(ShortName(newLeaf))))
  {
    hide Consistent, Kept, ShortName, Accepted, Listing, FindListed, SlotsAt, IsText, LinkOf, GoodEntry, DisplayName,
         GoodSlots, IsShown, ChainSlots, First, Agrees, Parts, Meets, Stop;
    CurrentKnown(v.data, v.cat, current, path);
    if CanRename(v, d, leaf, newLeaf) {
      EntryKnown(v, d, leaf);
      RenamedKeeps(v.fat, v.data, v.cat, d, leaf, newLeaf, v'.data);
      DirectoryKnown(v'.fat, v'.data, v'.cat, d);
      var slots, k := v.SlotsOf(d), v.SlotOf(d, leaf);
      var e := slots[k].(name := ShortName(newLeaf));
      RenamedFacts(slots[k], newLeaf);
      SameKind(slots[k], ShortName(newLeaf));
      ShownIsLive(e);
      assert {d, d} == {d};
      RewrittenPathIff(v, v', d, leaf, e, d, current, path);
    }
  }

  /** A directory on the path gets another name, or the new name shadows a directory on the path. */
  ghost predicate RenamedOff(v: Snapshot, names: seq<Bytes>, d: nat, leaf: Bytes, name: Bytes) {
    name != leaf && (Meets(v, names, d, leaf) || Shadows(v, names, d, name, v.SlotOf(d, leaf)))
  }

  // ----- moving -----

  /** The entry as it stands in the destination. */
  ghost function MovedEntry(v: Snapshot, d: nat, leaf: Bytes, newLeaf: Bytes): DirEntry
    requires v.Entry(d, leaf).Some? && Accepted(newLeaf)
  {
    v.Entry(d, leaf).value.(name := ShortName(newLeaf))
  }

  /** What is found after the move. */
  lemma MovedLookup(v: Snapshot, d: nat, leaf: Bytes, destination: nat, newLeaf: Bytes, per: Positive, v': Snapshot,
                    x: nat, name: Bytes)
    requires v.Ok() && d in v.cat.ns.tree && destination in v.cat.ns.tree && destination != d && x in v.cat.ns.tree
    requires IsText(newLeaf) && !IsDotName(leaf) && MoveStep(v, d, leaf, destination, newLeaf, per, v')
    requires CanMove(v, d, leaf, destination, newLeaf) && (x == d ==> name != leaf)
    ensures v'.Entry(x, name)
            == if x == destination && name == DisplayName(ShortName(newLeaf))
                  && FindListed(Listing(v.SlotsOf(x)[..First(v.SlotsOf(x), FreeSlot)]), name) == None
               then Some(MovedEntry(v, d, leaf, newLeaf)) else v.Entry(x, name)
  {
    hide Consistent, Kept, EntryTransferred, ShortName, Accepted, Listing, FindListed, SlotsAt, IsText, LinkOf,
         GoodEntry, GoodSlots, IsShown, HasRoom, Inserted, Tombstone, DisplayName, First, WellEnded, DirectoryOk,
         ChainOk, ChainSlots, PlainVolumeBits, Judge;
    EntryKnown(v, d, leaf);
    var slots, into, k := v.SlotsOf(d), v.SlotsOf(destination), v.SlotOf(d, leaf);
    var e := slots[k].(name := ShortName(newLeaf));
    RenamedFacts(slots[k], newLeaf);
    ShownIsLive(e);
    TransferSlots(v.fat, v.data, v.cat, d, destination, leaf, e, per, v'.fat, v'.data, v'.cat);
    if x == d {
      FoundInside(slots, leaf);
      TombstoneIsLost(slots[k]);
      GoodSlotsEnd(slots);
      FindReplaced(slots, k, Tombstone(slots[k]), name);
    } else if x == destination {
      DirectoryKnown(v.fat, v.data, v.cat, destination);
      GoodSlotsEnd(into);
      InsertedFinds(into, e, per, name);
    } else {
      SameListing(v, v', {d, destination}, x);
    }
  }

  /** A step of the path that does not meet the name of the moved entry. */
  lemma MovedStepIff(v: Snapshot, d: nat, leaf: Bytes, destination: nat, newLeaf: Bytes, per: Positive, v': Snapshot,
                     current: nat, path: Bytes, i: nat)
    requires v.Ok() && d in v.cat.ns.tree && destination in v.cat.ns.tree && destination != d
    requires IsText(newLeaf) && !IsDotName(leaf) && MoveStep(v, d, leaf, destination, newLeaf, per, v')
    requires CanMove(v, d, leaf, destination, newLeaf) && LeadsTo(v, current, path)
    requires i < |Parts(path)| && !MeetsAt(v, Parts(path), d, leaf, i)
    ensures SameStep(v, v', Parts(path), i)
            <==> !(MeetsAt(v, Parts(path), destination, DisplayName(ShortName(newLeaf)), i)
                   && FindListed(Listing(v.SlotsOf(destination)[..First(v.SlotsOf(destination), FreeSlot)]),
                                 Parts(path)[i]) == None)
    ensures !SameStep(v, v', Parts(path), i) && v.Entry(d, leaf).value.IsDirectory() ==>
              DownFrom(v', Stop(v, Parts(path), i).value, Parts(path)[i]) == Some(v.Entry(d, leaf).value.Cluster())
    ensures !SameStep(v, v', Parts(path), i) && !v.Entry(d, leaf).value.IsDirectory() ==>
              DownFrom(v', Stop(v, Parts(path), i).value, Parts(path)[i]) == None
  {
    hide Consistent, ShortName, Accepted, Listing, FindListed, SlotsAt, IsText, DisplayName, First, MoveStep, HasRoom,
         Agrees, Parts, Stop, DownFrom;
    var x, name := Stop(v, Parts(path), i), Parts(path)[i];
    PathStop(v, current, path, i);
    MovedLookup(v, d, leaf, destination, newLeaf, per, v', x.value, name);
    MovedOwners(v, d, leaf, destination, newLeaf, per, v');
    DownFromEntry(v', x.value, name);
    DownFromEntry(v, x.value, name);
    SameKind(v.Entry(d, leaf).value, ShortName(newLeaf));
  }

  /** A directory off the path does not lie on it afterwards; a directory on it is met. */
  lemma MovedHomes(v: Snapshot, d: nat, leaf: Bytes, destination: nat, newLeaf: Bytes, per: Positive, v': Snapshot,
                   current: nat, path: Bytes, j: nat)
    requires v.Ok() && d in v.cat.ns.tree && destination in v.cat.ns.tree && destination != d
    requires IsText(newLeaf) && !IsDotName(leaf) && MoveStep(v, d, leaf, destination, newLeaf, per, v')
    requires CanMove(v, d, leaf, destination, newLeaf) && LeadsTo(v, current, path)
    requires j <= |Parts(path)| && (j > 0 ==> !MeetsAt(v, Parts(path), d, leaf, j - 1))
    ensures Stop(v, Parts(path), j).Some? && KeepsHome(v, v', Stop(v, Parts(path), j).value)
  {
    hide Consistent, ShortName, Accepted, Listing, FindListed, SlotsAt, IsText, DisplayName, First, MoveStep, HasRoom,
         Agrees, Parts, Stop, DownFrom, LinkOf, GoodEntry, IsShown, GoodSlots;
    MovedOwners(v, d, leaf, destination, newLeaf, per, v');
    if j == 0 {
      NoNames(v, Parts(path));
      ConsistentParts(v.fat, v.data, v.cat);
    } else {
      PathStop(v, current, path, j - 1);
      EntryKnown(v, d, leaf);
      EntryKnown(v, Stop(v, Parts(path), j - 1).value, Parts(path)[j - 1]);
    }
  }

  /** The move of a directory on the path: what is left of the path before it would have to lead to two places. */
  lemma {:induction false} MovedBefore(v: Snapshot, d: nat, leaf: Bytes, destination: nat, newLeaf: Bytes,
                                       per: Positive, v': Snapshot, current: nat, path: Bytes, i: nat, j: nat)
    requires v.Ok() && d in v.cat.ns.tree && destination in v.cat.ns.tree && destination != d
    requires IsText(newLeaf) && !IsDotName(leaf) && MoveStep(v, d, leaf, destination, newLeaf, per, v')
    requires CanMove(v, d, leaf, destination, newLeaf) && LeadsTo(v, current, path) && LeadsTo(v', current, path)
    requires v'.Ok() && v'.cat.ns.root == v.cat.ns.root
    requires MeetsAt(v, Parts(path), d, leaf, i) && j <= i && v.Entry(d, leaf).value.IsDirectory()
    requires Stop(v', Parts(path), i + 1) == Some(v.Entry(d, leaf).value.Cluster())
    ensures Stop(v', Parts(path), j) == Stop(v, Parts(path), j)
    decreases j
  {
    hide Consistent, ShortName, Accepted, Listing, FindListed, SlotsAt, IsText, DisplayName, First, MoveStep, CanMove,
         Agrees, Parts, Stop, DownFrom, Snapshot.Entry;
    if j == 0 {
      NoNames(v, Parts(path));
      NoNames(v', Parts(path));
    } else {
      MovedBefore(v, d, leaf, destination, newLeaf, per, v', current, path, i, j - 1);
      StopsDistinct(v, current, path, j - 1, i);
      MovedStepIff(v, d, leaf, destination, newLeaf, per, v', current, path, j - 1);
      PathStop(v, current, path, j - 1);
      PathStop(v', current, path, j - 1);
      StopsDistinct(v', current, path, j, i + 1);
    }
  }

  /** A path that goes through a moved directory does not lead there any more. */
  lemma MovedOff(v: Snapshot, d: nat, leaf: Bytes, destination: nat, newLeaf: Bytes, per: Positive, v': Snapshot,
                 current: nat, path: Bytes, i: nat)
    requires v.Ok() && d in v.cat.ns.tree && destination in v.cat.ns.tree && destination != d
    requires IsText(newLeaf) && !IsDotName(leaf) && MoveStep(v, d, leaf, destination, newLeaf, per, v')
    requires CanMove(v, d, leaf, destination, newLeaf) && LeadsTo(v, current, path)
    requires MeetsAt(v, Parts(path), d, leaf, i)
    ensures !LeadsTo(v', current, path)
  {
    hide Consistent, ShortName, Accepted, Listing, FindListed, SlotsAt, IsText, DisplayName, First, MoveStep, CanMove,
         Agrees, Parts, Stop, DownFrom, Snapshot.Entry;
    if LeadsTo(v', current, path) {
      PathStop(v, current, path, i);
      MovedOwners(v, d, leaf, destination, newLeaf, per, v');
      forall j: nat | i + 1 < j <= |Parts(path)|
        ensures Stop(v, Parts(path), j).Some? && KeepsHome(v, v', Stop(v, Parts(path), j).value)
      {
        StopsDistinct(v, current, path, i, j - 1);
        MovedHomes(v, d, leaf, destination, newLeaf, per, v', current, path, j);
      }
      StopsTraced(v, v', current, path, i + 1);
      PathStop(v', current, path, i);
      MovedBefore(v, d, leaf, destination, newLeaf, per, v', current, path, i, i);
      assert false;
    }
  }

  lemma MoveKeepsPathIff(v: Snapshot, d: nat, leaf: Bytes, destination: nat, newLeaf: Bytes, per: Positive,
                         v': Snapshot, current: nat, path: Bytes)
    requires v.Ok() && d in v.cat.ns.tree && destination in v.cat.ns.tree && destination != d
    requires IsText(newLeaf) && !IsDotName(leaf) && MoveStep(v, d, leaf, destination, newLeaf, per, v')
    requires LeadsTo(v, current, path)
    ensures LeadsTo(v', current, path)
            <==> !(CanMove(v, d, leaf, destination, newLeaf)
                   && (Meets(v, Parts(path), d, leaf)
                       || Shadows(v, Parts(path), destination, DisplayName(ShortName(newLeaf)),
                                  First(v.SlotsOf(destination), FreeSlot))))
  {
    hide Consistent, ShortName, Accepted, Listing, FindListed, SlotsAt, IsText, DisplayName, First, Agrees, Parts,
         Stop, SameStep, KeepsHome, EntryTransferred;
    if CanMove(v, d, leaf, destination, newLeaf) {
      var names, name := Parts(path), DisplayName(ShortName(newLeaf));
      if Meets(v, names, d, leaf) {
        var i: nat :| MeetsAt(v, names, d, leaf, i);
        MovedOff(v, d, leaf, destination, newLeaf, per, v', current, path, i);
      } else {
        ghost var into := v.SlotsOf(destination);
        ghost var before := FindListed(Listing(into[..First(into, FreeSlot)]), name);
        CurrentKnown(v.data, v.cat, current, path);
        MovedOwners(v, d, leaf, destination, newLeaf, per, v');
        forall j: nat | j <= |names| ensures Stop(v, names, j).Some? && KeepsHome(v, v', Stop(v, names, j).value) {
          MovedHomes(v, d, leaf, destination, newLeaf, per, v', current, path, j);
        }
        forall i: nat | i < |names|
          ensures SameStep(v, v', names, i) <==> !(MeetsAt(v, names, destination, name, i) && before == None)
        {
          MovedStepIff(v, d, leaf, destination, newLeaf, per, v', current, path, i);
        }
        PathKeptIff(v, v', current, path);
        if before == None && Meets(v, names, destination, name) {
          var i: nat :| MeetsAt(v, names, destination, name, i);
          assert !SameStep(v, v', names, i);
        }
      }
    }
  }

  // ----- writing -----

  lemma StoredKeepsPath(v: Snapshot, d: nat, leaf: Bytes, e': DirEntry, t: seq<nat>, v': Snapshot, current: nat,
                        path: Bytes)
    requires v.Ok() && d in v.cat.ns.tree && NamesFile(v, d, leaf) && LeadsTo(v, current, path)
    requires StoredAs(v, d, leaf, e', t, v')
    ensures LeadsTo(v', current, path)
  {
    hide Consistent, Kept, SlotsAt, LinkOf, GoodEntry, IsShown, DisplayName, Agrees, Parts, Meets, Stop, Listing,
         FindListed, First, GoodSlots;
    CurrentKnown(v.data, v.cat, current, path);
    EntryKnown(v, d, leaf);
    ShownIsLive(e');
    NoChainAtZero(v.fat, v.data, v.cat);
    FileIsNoStop(v, v.Entry(d, leaf).value.Cluster(), current, path);
    if LinkOf(e') != Nothing {
      SlotKnown(v'.fat, v'.data, v'.cat, d, v.SlotOf(d, leaf));
    }
    RewrittenPathIff(v, v', d, leaf, e', v.Entry(d, leaf).value.Cluster(), current, path);
  }

  lemma WriteKeepsPath(v: Snapshot, d: nat, leaf: Bytes, bytes: Bytes, per: Positive, v': Snapshot, current: nat,
                       path: Bytes)
    requires v.Ok() && d in v.cat.ns.tree && LeadsTo(v, current, path)
    requires WriteFileStep(v, d, leaf, bytes, per, v') || AppendFileStep(v, d, leaf, bytes, per, v')
    ensures LeadsTo(v', current, path)
  {
    hide Consistent, Agrees, Parts, Listing, FindListed, SlotsAt, StoredAs, WriteOutcome, AppendOutcome;
    if NamesFile(v, d, leaf) {
      var e', t;
      if WriteFileStep(v, d, leaf, bytes, per, v') {
        e', t := WriteStores(v, d, leaf, bytes, per, v');
      } else {
        e', t := AppendStores(v, d, leaf, bytes, per, v');
      }
      if StoredAs(v, d, leaf, e', t, v') {
        StoredKeepsPath(v, d, leaf, e', t, v', current, path);
      }
    }
  }

  // ----- every operation -----

  /** The operations after which the path does not lead to the directory: one that puts an entry in front of a directory
      the path goes through, under its name, one that removes the directory it leads to, and one that moves a directory
      it goes through or stores it under another name. */
  ghost predicate BreaksPath(v: Snapshot, op: Operation, current: nat, names: seq<Bytes>) {
    match op
    case Create(d, leaf) =>
      && CanCreate(v, d, leaf) && IsText(leaf)
      && Shadows(v, names, d, DisplayName(ShortName(leaf)), First(v.SlotsOf(d), FreeSlot))
    case MakeDir(d, leaf) =>
      && CanMake(v, d, leaf)
      && Shadows(v, names, d, DisplayName(ShortName(leaf)), First(v.SlotsOf(d), FreeSlot))
    case Delete(_, _) => false
    case RemoveDir(_, _, entry) => FreesDirectory(v.data, v.cat, entry) && entry.value.Cluster() == current
    case Rename(d, leaf, newLeaf, occupied) =>
      !occupied && CanRename(v, d, leaf, newLeaf) && RenamedOff(v, names, d, leaf, DisplayName(ShortName(newLeaf)))
    case Move(d, leaf, destination, newLeaf, occupied) =>
      && !occupied && CanMove(v, d, leaf, destination, newLeaf)
      && (Meets(v, names, d, leaf)
          || Shadows(v, names, destination, DisplayName(ShortName(newLeaf)),
                     First(v.SlotsOf(destination), FreeSlot)))
    case Write(_, _, _) => false
    case Append(_, _, _) => false
  }

  /** The cached path goes on leading to the cached directory exactly after the other operations. */
  lemma StepKeepsPathIff(v: Snapshot, op: Operation, per: Positive, v': Snapshot, current: nat, path: Bytes)
    requires v.Ok() && Enabled(v, op) && Step(v, op, per, v') && LeadsTo(v, current, path)
    ensures LeadsTo(v', current, path) <==> !BreaksPath(v, op, current, Parts(path))
  {
    hide Consistent, CreateStep, DeleteStep, RemoveStep, MakeStep, RenameStep, MoveStep, WriteFileStep, AppendFileStep,
         ParentsOk, IsText, Listing, FindListed, ShortName, DisplayName, Accepted, Agrees, Meets, Parts, CanCreate,
         CanMake, CanRename, CanMove, Shadows, RenamedOff, Stop, First, SlotsAt;
    match op {
      case Create(d, leaf) => CreateKeepsPathIff(v, d, leaf, per, v', current, path);
      case Delete(d, leaf) => DeleteKeepsPath(v, d, leaf, v', current, path);
      case RemoveDir(d, leaf, entry) => RemovalKeepsPathIff(v, d, leaf, entry, v', current, path);
      case MakeDir(d, leaf) => MakeKeepsPathIff(v, d, leaf, per, v', current, path);
      case Rename(d, leaf, newLeaf, occupied) =>
        if !occupied {
          RenameKeepsPathIff(v, d, leaf, newLeaf, v', current, path);
        }
      case Move(d, leaf, destination, newLeaf, occupied) =>
        if !occupied {
          MoveKeepsPathIff(v, d, leaf, destination, newLeaf, per, v', current, path);
        }
      case Write(d, leaf, bytes) => WriteKeepsPath(v, d, leaf, bytes, per, v', current, path);
      case Append(d, leaf, bytes) => WriteKeepsPath(v, d, leaf, bytes, per, v', current, path);
    }
  }

  lemma RemovalKeepsPathIff(v: Snapshot, d: nat, leaf: Bytes, entry: Option<DirEntry>, v': Snapshot, current: nat,
                            path: Bytes)
    requires v.Ok() && Enabled(v, RemoveDir(d, leaf, entry)) && RemoveLocated(v, d, leaf, entry, v')
    requires LeadsTo(v, current, path)
    ensures LeadsTo(v', current, path) <==> !(FreesDirectory(v.data, v.cat, entry) && entry.value.Cluster() == current)
  {
    hide Consistent, ParentsOk, Found, SlotsAt, RootEntry, Listing, FindListed, Deleted, RootFreed, LinkOf, IsShown,
         First, Agrees, Parts;
    RootEntryKept(v, Located(d, leaf, entry));
    RemovalIsListed(v, d, leaf, entry, v');
    if FreesDirectory(v.data, v.cat, entry) {
      RemoveKeepsPathIff(v, d, leaf, v', current, path);
    }
  }

  /** Over a run of the other operations the cached path leads to the cached directory at every moment. */
  lemma {:induction false} RunKeepsPath(states: seq<Snapshot>, ops: seq<Operation>, per: Positive, current: nat,
                                        path: Bytes, i: nat)
    requires IsRun(states, ops, per) && states[0].Ok() && LeadsTo(states[0], current, path) && i < |states|
    requires forall j: nat :: j < i ==> !BreaksPath(states[j], ops[j], current, Parts(path))
    ensures LeadsTo(states[i], current, path)
    decreases i
  {
    hide Consistent, Enabled, Step, Agrees, BreaksPath, Parts;
    if i > 0 {
      RunKeepsPath(states, ops, per, current, path, i - 1);
      RunKeeps(states, ops, per, i - 1);
      StepKeepsPathIff(states[i - 1], ops[i - 1], per, states[i], current, path);
    }
  }
}
