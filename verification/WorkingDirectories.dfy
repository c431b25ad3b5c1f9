/** Finding the entry a path names, and the cached current directory: a cluster and a path that must agree. */
module WorkingDirectories {
  import opened VolumeLaws
  import opened Options
  import opened Words
  import opened Chains
  import opened Fat32
  import opened Entries
  import opened Slots
  import opened Listings
  import opened Iterators
  import opened Namespaces
  import opened Catalogues
  import opened FileSystems
  import opened Subdirectories
  import opened Paths
  import opened PathBuffers

  /** The directory one component leads to. */
  ghost function Down(data: seq<Bytes>, cat: Catalogue, d: nat, name: Bytes): Option<nat> {
    match EntryIn(data, cat, d, name)
    case None => None
    case Some(e) => if e.IsDirectory() then Some(e.Cluster()) else None
  }

  /** The directory a list of components leads to. */
  ghost function Walk(data: seq<Bytes>, cat: Catalogue, d: nat, names: seq<Bytes>): Option<nat> {
    if names == [] then Some(d)
    else
      match Walk(data, cat, d, names[..|names| - 1])
      case None => None
      case Some(x) => Down(data, cat, x, names[|names| - 1])
  }

  // ----- single steps -----

  lemma {:induction false} FindListedName(listing: Directory, name: Bytes)
    ensures FindListed(listing, name).Some? ==>
              DisplayName(FindListed(listing, name).value.name) == name && FindListed(listing, name).value in listing
  {
    if listing != [] && DisplayName(listing[0].name) != name {
      FindListedName(listing[1..], name);
    }
  }

  /** A name leads to a directory owned by this one, `..` to the owner. */
  lemma DownKnown(fat: Fat, data: seq<Bytes>, cat: Catalogue, d: nat, name: Bytes)
    requires Consistent(fat, data, cat) && ParentsOk(data, cat) && d in cat.ns.tree
    requires Down(data, cat, d, name).Some? && name != DOT
    ensures var c := Down(data, cat, d, name).value;
            && c in cat.ns.tree && name != []
            && (IsName(name) ==> c in cat.ns.owner && cat.ns.owner[c].dir == d && c != cat.ns.root)
            && (name == DOTDOT ==> d in cat.ns.owner && d != cat.ns.root && c == cat.ns.owner[d].dir)
  {
    hide DirectoryOk, ChainsOk, Listing, FindListed, DisplayName, GoodSlots, ChainSlots, First, Judge;
    assert ParentOk(data, cat, d);
    var slots := SlotsAt(data, cat.chains, d);
    DirectoryKnown(fat, data, cat, d);
    FindAgrees(slots, name);
    FindListedName(Listing(slots), name);
    ConsistentParts(fat, data, cat);
    if IsName(name) {
      var k := First(slots, Listed(name));
      FoundAt(slots, name, k);
      SlotKnown(fat, data, cat, d, k);
    } else {
      assert cat.ns.OwnerOk(d);
    }
  }

  lemma FoundAt(slots: Directory, name: Bytes, k: nat)
    requires Found(slots, Listed(name)) && k == First(slots, Listed(name))
    ensures k < |slots|
  {
  }

  lemma {:induction false} WalkKnown(fat: Fat, data: seq<Bytes>, cat: Catalogue, d: nat, names: seq<Bytes>)
    requires Consistent(fat, data, cat) && ParentsOk(data, cat) && d in cat.ns.tree
    requires Walk(data, cat, d, names).Some? && DOT !in names
    ensures Walk(data, cat, d, names).value in cat.ns.tree
    ensures forall i :: 0 <= i < |names| ==> names[i] != []
    decreases |names|
  {
    hide Consistent, ParentsOk, Down;
    if names != [] {
      var n := |names| - 1;
      assert names[n] in names;
      WalkKnown(fat, data, cat, d, names[..n]);
      DownKnown(fat, data, cat, Walk(data, cat, d, names[..n]).value, names[n]);
    }
  }

  lemma WalkSnoc(data: seq<Bytes>, cat: Catalogue, d: nat, names: seq<Bytes>, name: Bytes)
    ensures Walk(data, cat, d, names + [name])
            == match Walk(data, cat, d, names) case None => None case Some(x) => Down(data, cat, x, name)
  {
    assert (names + [name])[..|names|] == names;
  }

  // ----- where a list of components leads -----

  /** Only the empty list of names leads from the root to the root. */
  lemma RootAtEmptyPath(fat: Fat, data: seq<Bytes>, cat: Catalogue, names: seq<Bytes>)
    requires Consistent(fat, data, cat) && ParentsOk(data, cat) && AllNames(names)
    requires Walk(data, cat, cat.ns.root, names) == Some(cat.ns.root)
    ensures names == []
  {
    hide Consistent, ParentsOk, Down;
    ConsistentParts(fat, data, cat);
    if names != [] {
      var n := |names| - 1;
      assert IsName(names[n]) && DOT !in names[..n];
      WalkKnown(fat, data, cat, cat.ns.root, names[..n]);
      DownKnown(fat, data, cat, Walk(data, cat, cat.ns.root, names[..n]).value, names[n]);
    }
  }

  /** Going up from the end of a path is going to the end of the path without its last name. */
  lemma WalkUp(fat: Fat, data: seq<Bytes>, cat: Catalogue, names: seq<Bytes>, d: nat)
    requires Consistent(fat, data, cat) && ParentsOk(data, cat) && AllNames(names)
    requires Walk(data, cat, cat.ns.root, names) == Some(d) && d in cat.ns.tree
    requires Down(data, cat, d, DOTDOT).Some?
    ensures names != []
    ensures Walk(data, cat, cat.ns.root, names[..|names| - 1]) == Down(data, cat, d, DOTDOT)
  {
    hide Consistent, ParentsOk, Down;
    ConsistentParts(fat, data, cat);
    DownKnown(fat, data, cat, d, DOTDOT);
    assert names != [];
    var n := |names| - 1;
    assert IsName(names[n]) && DOT !in names[..n];
    WalkKnown(fat, data, cat, cat.ns.root, names[..n]);
    DownKnown(fat, data, cat, Walk(data, cat, cat.ns.root, names[..n]).value, names[n]);
  }

  /** Walking on from the end of a path leads to where the path leads that the walk makes of it. */
  lemma {:induction false} WalkActs(fat: Fat, data: seq<Bytes>, cat: Catalogue, base: seq<Bytes>, d: nat,
                                    components: seq<Bytes>)
    requires Consistent(fat, data, cat) && ParentsOk(data, cat) && AllNames(base) && DOT !in components
    requires Walk(data, cat, cat.ns.root, base) == Some(d) && d in cat.ns.tree
    requires Walk(data, cat, d, components).Some?
    ensures Walk(data, cat, cat.ns.root, Act(base, components)) == Walk(data, cat, d, components)
    ensures AllNames(Act(base, components))
    decreases |components|
  {
    hide Consistent, ParentsOk, Down, Act;
    if components == [] {
      ActNothing(base);
    } else {
      var n := |components| - 1;
      var init, last := components[..n], components[n];
      assert components == init + [last] && last in components;
      WalkActs(fat, data, cat, base, d, init);
      WalkKnown(fat, data, cat, d, init);
      ActSnoc(base, init, last);
      var names, x := Act(base, init), Walk(data, cat, d, init).value;
      if last == DOTDOT {
        WalkUp(fat, data, cat, names, x);
      } else {
        WalkSnoc(data, cat, cat.ns.root, names, last);
      }
    }
  }

  lemma ActNothing(base: seq<Bytes>)
    ensures Act(base, []) == base
  {
  }

  // ----- directories just made -----

  /** A new directory lists itself and its parent, and nothing without a name. */
  lemma FreshDirectoryLists(cluster: nat, parent: nat, per: nat)
    requires 0 < cluster < TWO_32 && 0 < parent < TWO_32 && per >= 2
    ensures var listing := Listing(FreshDirectory(cluster, parent, per));
            && FindListed(listing, DOT) == Some(DotEntry(1, cluster))
            && FindListed(listing, DOTDOT) == Some(DotEntry(2, parent))
            && FindListed(listing, []) == None
            && DotEntry(1, cluster).Cluster() == cluster && DotEntry(2, parent).Cluster() == parent
  {
    hide DotEntry, EmptySlots;
    var slots := FreshDirectory(cluster, parent, per);
    DotEntryFacts(1, cluster);
    DotEntryFacts(2, parent);
    var dot, dotdot := DotEntry(1, cluster), DotEntry(2, parent);
    FreshSlots(cluster, parent, per);
    assert slots[1..][0] == dotdot && slots[1..][1..] == slots[2..];
    ListingOfFree(slots[2..]);
    assert Listing(slots[1..]) == [dotdot];
    assert Listing(slots) == [dot, dotdot];
    FindOfTwo(dot, dotdot, DOT);
    FindOfTwo(dot, dotdot, DOTDOT);
    FindOfTwo(dot, dotdot, []);
  }

  lemma FindOfTwo(a: DirEntry, b: DirEntry, name: Bytes)
    ensures FindListed([a, b], name) == if DisplayName(a.name) == name then Some(a)
                                        else if DisplayName(b.name) == name then Some(b) else None
  {
    assert [a, b][1..] == [b] && [b][1..] == [];
    assert FindListed([b], name) == if DisplayName(b.name) == name then Some(b) else None;
  }

  lemma FreshSlots(cluster: nat, parent: nat, per: nat)
    requires cluster < TWO_32 && parent < TWO_32 && per >= 2
    ensures var slots := FreshDirectory(cluster, parent, per);
            && slots[0] == DotEntry(1, cluster) && slots[1] == DotEntry(2, parent)
            && forall k :: 2 <= k < per ==> IsFree(slots[k])
  {
    forall k | 2 <= k < per ensures IsFree(FreshDirectory(cluster, parent, per)[k]) {
      assert FreshDirectory(cluster, parent, per)[k] == EmptySlots(per)[k];
    }
  }

  /** The new directory would be listed without a name, and no other entry is before it. */
  ghost predicate MadeUnnamed(slots: Directory, leaf: Bytes)
    requires Accepted(leaf)
  {
    DisplayName(ShortName(leaf)) == [] && FindListed(Listing(slots[..First(slots, FreeSlot)]), []) == None
  }

  /** Making a directory keeps every `..` leading to the owner, and every directory named, exactly if the new one is not
      the first of its parent to be listed without a name. */
  lemma MadeKeepsParentsIff(fat0: Fat, data0: seq<Bytes>, cat: Catalogue, data: seq<Bytes>, cat': Catalogue,
                            parent: nat, leaf: Bytes, per: Positive)
    requires Consistent(fat0, data0, cat) && ParentsOk(data0, cat) && parent in cat.ns.tree
    requires DirectoryMade(fat0, data0, cat, data, cat', parent, leaf, per) && IsText(leaf) && Accepted(leaf)
    ensures ParentsOk(data, cat') <==> !MadeUnnamed(SlotsAt(data0, cat.chains, parent), leaf)
  {
    hide *;
    MadeParts(fat0, data0, cat, data, cat', parent, leaf, per);
    DirectoryKnown(fat0, data0, cat, parent);
    var c, slots := LowestFree(fat0), SlotsAt(data0, cat.chains, parent);
    var e := NewEntry(ShortName(leaf), ATTR_DIRECTORY, c);
    NewEntryListed(leaf, c);
    GoodSlotsEnd(slots);
    InsertedFinds(slots, e, per, DOTDOT);
    InsertedFinds(slots, e, per, []);
    ParentAt(data0, cat, parent);
    MadeUnnamedIs(slots, leaf);
    if MadeUnnamed(slots, leaf) {
      UnnamedIsNotOk(data, cat', parent);
    } else {
      forall d | d in cat'.ns.tree.Keys ensures ParentOk(data, cat', d) {
        if d == c {
          FreshDirectoryLists(c, parent, per);
          ParentWhen(data, cat', d);
        } else if d == parent {
          ParentWhen(data, cat', d);
        } else {
          ParentAt(data0, cat, d);
          KeptSlots(fat0, data0, cat, data, cat'.chains, {parent}, d);
          ParentWhen(data, cat', d);
        }
      }
      ParentsWhen(data, cat');
    }
  }

  lemma MadeUnnamedIs(slots: Directory, leaf: Bytes)
    requires Accepted(leaf)
    ensures MadeUnnamed(slots, leaf)
            <==> DisplayName(ShortName(leaf)) == [] && FindListed(Listing(slots[..First(slots, FreeSlot)]), []) == None
  {
  }

  lemma UnnamedIsNotOk(data: seq<Bytes>, cat: Catalogue, d: nat)
    requires d in cat.ns.tree && FindListed(Listing(SlotsAt(data, cat.chains, d)), []).Some?
    requires FindListed(Listing(SlotsAt(data, cat.chains, d)), []).value.IsDirectory()
    ensures !ParentsOk(data, cat)
  {
    hide Listing, FindListed, SlotsAt;
    assert !ParentOk(data, cat, d);
  }

  lemma GoodSlotsEnd(slots: Directory)
    requires GoodSlots(slots)
    ensures WellEnded(slots)
  {
  }

  lemma ParentsWhen(data: seq<Bytes>, cat: Catalogue)
    requires forall d :: d in cat.ns.tree.Keys ==> ParentOk(data, cat, d)
    ensures ParentsOk(data, cat)
  {
  }

  lemma ParentAt(data: seq<Bytes>, cat: Catalogue, d: nat)
    requires ParentsOk(data, cat) && d in cat.ns.tree
    ensures var listing := Listing(SlotsAt(data, cat.chains, d));
            && (FindListed(listing, DOTDOT).Some? ==>
                  d in cat.ns.owner && FindListed(listing, DOTDOT).value.Cluster() == cat.ns.owner[d].dir)
            && (FindListed(listing, []).Some? ==> !FindListed(listing, []).value.IsDirectory())
  {
    hide Listing, FindListed, SlotsAt;
    assert ParentOk(data, cat, d);
  }

  lemma ParentWhen(data: seq<Bytes>, cat: Catalogue, d: nat)
    requires var listing := Listing(SlotsAt(data, cat.chains, d));
             && (FindListed(listing, DOTDOT).Some? ==>
                   d in cat.ns.owner && FindListed(listing, DOTDOT).value.Cluster() == cat.ns.owner[d].dir)
             && (FindListed(listing, []).Some? ==> !FindListed(listing, []).value.IsDirectory())
    ensures ParentOk(data, cat, d)
  {
    hide Listing, FindListed, SlotsAt;
  }

  lemma MadeParts(fat0: Fat, data0: seq<Bytes>, cat: Catalogue, data: seq<Bytes>, cat': Catalogue,
                  parent: nat, leaf: Bytes, per: Positive)
    requires Consistent(fat0, data0, cat) && parent in cat.ns.tree
    requires DirectoryMade(fat0, data0, cat, data, cat', parent, leaf, per)
    ensures var c := LowestFree(fat0);
            && 0 < c < TWO_32 && 0 < parent < TWO_32 && per >= 2 && c != parent && Accepted(leaf)
            && c in cat'.ns.owner && cat'.ns.owner[c].dir == parent
            && (forall d :: d in cat'.ns.tree.Keys && d != c ==> d in cat.ns.tree)
            && parent in cat'.ns.tree
            && (forall d :: d in cat.ns.owner && d != c ==> d in cat'.ns.owner && cat'.ns.owner[d] == cat.ns.owner[d])
            && Kept(data0, cat.chains, data, cat'.chains, {parent})
            && SlotsAt(data, cat'.chains, parent)
               == Inserted(SlotsAt(data0, cat.chains, parent), NewEntry(ShortName(leaf), ATTR_DIRECTORY, c), per)
            && SlotsAt(data, cat'.chains, c) == FreshDirectory(c, parent, per)
  {
    hide Kept, SlotsAt, Inserted, NewEntry, FreshDirectory, LowestFree, Accepted, ShortName, Consistent, Namespace.Ok,
         ChainsOk, First, FreeClusters;
    ConsistentParts(fat0, data0, cat);
    NoChainAtZero(fat0, data0, cat);
  }

  lemma NewEntryListed(leaf: Bytes, c: nat)
    requires Accepted(leaf) && IsText(leaf) && c < TWO_32
    ensures var e := NewEntry(ShortName(leaf), ATTR_DIRECTORY, c);
            IsShown(e) && !IsEnd(e) && DisplayName(e.name) != DOTDOT && e.IsDirectory() && e.name == ShortName(leaf)
  {
    NewEntryFacts(leaf, ATTR_DIRECTORY, c);
  }

  // ----- path_lookup -----

  /** Where `path` leads from the directory at `current`. */
  ghost function Resolve(data: seq<Bytes>, cat: Catalogue, current: nat, path: Bytes): Located
    requires cat.ns.root < TWO_32
  {
    var absolute, names := IsAbsolute(path), Norm(IsAbsolute(path), Parts(path));
    if !Fits(Parts(path)) then Located(0, [], None)
    else if !absolute && names == [DOTDOT] && current == cat.ns.root then
      Located(cat.ns.root, DOTDOT, Some(RootEntry(cat.ns.root)))
    else if names == [] then
      if absolute then Located(cat.ns.root, [], Some(RootEntry(cat.ns.root))) else Located(0, [], None)
    else
      ResolveFrom(data, cat, if absolute then cat.ns.root else current, names)
  }

  ghost function ResolveFrom(data: seq<Bytes>, cat: Catalogue, start: nat, names: seq<Bytes>): Located
    requires names != []
  {
    var n := |names| - 1;
    match Walk(data, cat, start, names[..n])
    case None => Located(0, names[n], None)
    case Some(d) => Located(d, names[n], EntryIn(data, cat, d, names[n]))
  }

  /** The entry of `d` under the name is that of the directory at `c`. */
  ghost predicate LeadsDown(data: seq<Bytes>, cat: Catalogue, d: nat, name: Bytes, c: nat) {
    var e := EntryIn(data, cat, d, name);
    e.Some? && e.value.IsDirectory() && e.value.Cluster() == c
  }

  /** Directories, each of which lists the next one under the next name. */
  ghost predicate IsTrail(data: seq<Bytes>, cat: Catalogue, stops: seq<nat>, names: seq<Bytes>) {
    && |stops| == |names| + 1
    && forall i :: 0 <= i < |names| ==> LeadsDown(data, cat, stops[i], names[i], stops[i + 1])
  }

  lemma {:induction false} WalkHasTrail(data: seq<Bytes>, cat: Catalogue, d: nat, names: seq<Bytes>)
    returns (stops: seq<nat>)
    requires Walk(data, cat, d, names).Some?
    ensures IsTrail(data, cat, stops, names) && stops[0] == d && Some(stops[|names|]) == Walk(data, cat, d, names)
    decreases |names|
  {
    if names == [] {
      stops := [d];
    } else {
      var init, last := names[..|names| - 1], names[|names| - 1];
      var before := WalkHasTrail(data, cat, d, init);
      stops := before + [Walk(data, cat, d, names).value];
      forall i | 0 <= i < |names| ensures LeadsDown(data, cat, stops[i], names[i], stops[i + 1]) {
        if i < |init| {
          assert init[i] == names[i] && LeadsDown(data, cat, before[i], init[i], before[i + 1]);
        }
      }
    }
  }

  lemma {:induction false} TrailIsWalk(data: seq<Bytes>, cat: Catalogue, stops: seq<nat>, names: seq<Bytes>)
    requires IsTrail(data, cat, stops, names)
    ensures Walk(data, cat, stops[0], names) == Some(stops[|names|])
    decreases |names|
  {
    if names != [] {
      var n := |names| - 1;
      forall i | 0 <= i < n ensures LeadsDown(data, cat, stops[..n + 1][i], names[..n][i], stops[..n + 1][i + 1]) {
        assert LeadsDown(data, cat, stops[i], names[i], stops[i + 1]);
      }
      TrailIsWalk(data, cat, stops[..n + 1], names[..n]);
      assert LeadsDown(data, cat, stops[n], names[n], stops[n + 1]);
    }
  }

  /** All names but the last lead from `start` to `d`, and `d` lists `e` under the last. */
  ghost predicate Finds(data: seq<Bytes>, cat: Catalogue, start: nat, names: seq<Bytes>, d: nat, e: DirEntry)
    requires names != []
  {
    var n := |names| - 1;
    && EntryIn(data, cat, d, names[n]) == Some(e)
    && exists stops :: IsTrail(data, cat, stops, names[..n]) && stops[0] == start && stops[n] == d
  }

  /** What looking the path up from the directory at `current` is to find: the entry `e` in the directory at `d`. An
      absolute path starts at the root; where it ends there, and for ".." in the root, the entry is made up. */
  ghost predicate Answers(data: seq<Bytes>, cat: Catalogue, current: nat, path: Bytes, d: nat, e: DirEntry)
    requires cat.ns.root < TWO_32
  {
    var root, absolute := cat.ns.root, path != [] && path[0] == SLASH;
    var names := Norm(absolute, Parts(path));
    && Fits(Parts(path))
    && if names == [] then absolute && d == root && e == RootEntry(root)
       else if !absolute && names == [DOTDOT] && current == root then d == root && e == RootEntry(root)
       else Finds(data, cat, if absolute then root else current, names, d, e)
  }

  /** The path leads from the directory at `current` to the one at `c`. */
  ghost predicate PathLeads(data: seq<Bytes>, cat: Catalogue, current: nat, path: Bytes, c: nat)
    requires cat.ns.root < TWO_32
  {
    exists d, e :: Answers(data, cat, current, path, d, e) && e.IsDirectory() && e.Cluster() == c
  }

  lemma ResolvedLeads(data: seq<Bytes>, cat: Catalogue, current: nat, path: Bytes)
    requires cat.ns.root < TWO_32
    ensures var r := Resolve(data, cat, current, path);
            forall c :: PathLeads(data, cat, current, path, c)
                        <==> r.entry.Some? && r.entry.value.IsDirectory() && r.entry.value.Cluster() == c
  {
    hide Resolve, Answers;
    var r := Resolve(data, cat, current, path);
    if r.entry.Some? {
      ResolvedIff(data, cat, current, path, r.parent, r.entry.value);
    }
    forall c | PathLeads(data, cat, current, path, c)
      ensures r.entry.Some? && r.entry.value.IsDirectory() && r.entry.value.Cluster() == c
    {
      var d, e :| Answers(data, cat, current, path, d, e) && e.IsDirectory() && e.Cluster() == c;
      ResolvedIff(data, cat, current, path, d, e);
    }
  }

  lemma FoundFrom(data: seq<Bytes>, cat: Catalogue, start: nat, names: seq<Bytes>, d: nat, e: DirEntry)
    requires names != []
    ensures var r := ResolveFrom(data, cat, start, names);
            r.entry == Some(e) && r.parent == d <==> Finds(data, cat, start, names, d, e)
  {
    hide EntryIn, Walk, LeadsDown;
    var n := |names| - 1;
    if Walk(data, cat, start, names[..n]).Some? {
      var stops := WalkHasTrail(data, cat, start, names[..n]);
      assert |stops| == n + 1;
    }
    if Finds(data, cat, start, names, d, e) {
      var stops :| IsTrail(data, cat, stops, names[..n]) && stops[0] == start && stops[n] == d;
      TrailIsWalk(data, cat, stops, names[..n]);
    }
  }

  /** That and nothing else is found. */
  lemma ResolvedIff(data: seq<Bytes>, cat: Catalogue, current: nat, path: Bytes, d: nat, e: DirEntry)
    requires cat.ns.root < TWO_32
    ensures var r := Resolve(data, cat, current, path);
            r.entry == Some(e) && r.parent == d <==> Answers(data, cat, current, path, d, e)
  {
    hide Norm, Fits, Parts, RootEntry, Finds, ResolveFrom;
    var absolute, names := IsAbsolute(path), Norm(IsAbsolute(path), Parts(path));
    if names != [] {
      FoundFrom(data, cat, if absolute then cat.ns.root else current, names, d, e);
    }
  }

  /** Where an entry found, or to be created, belongs: the last name, in the directory the other names lead to, if they
      lead to one. */
  lemma ResolvedPlace(data: seq<Bytes>, cat: Catalogue, current: nat, path: Bytes, stops: seq<nat>)
    requires cat.ns.root < TWO_32 && Fits(Parts(path))
    ensures var absolute := path != [] && path[0] == SLASH;
            var r, names := Resolve(data, cat, current, path), Norm(absolute, Parts(path));
            var n, start := |names| - 1, if absolute then cat.ns.root else current;
            && (names == [] ==> r.leaf == [])
            && (names != [] ==> r.leaf == names[n])
            && (names != [] && r.parent != 0 && r.entry.None? ==>
                  exists found :: IsTrail(data, cat, found, names[..n]) && found[0] == start && found[n] == r.parent)
            && (n > 0 && IsTrail(data, cat, stops, names[..n]) && stops[0] == start ==> r.parent == stops[n])
            && (n == 0 && names != [DOTDOT] ==> r.parent == start)
  {
    hide Norm, Fits, Parts, RootEntry, EntryIn, LeadsDown;
    var absolute, names := IsAbsolute(path), Norm(IsAbsolute(path), Parts(path));
    var n, start := |names| - 1, if absolute then cat.ns.root else current;
    if names != [] {
      if Walk(data, cat, start, names[..n]).Some? {
        var found := WalkHasTrail(data, cat, start, names[..n]);
        assert |found| == n + 1;
      }
      if n > 0 && IsTrail(data, cat, stops, names[..n]) && stops[0] == start {
        TrailIsWalk(data, cat, stops, names[..n]);
      }
    }
  }

  /** `path_lookup`. */
  method LookupPath(vol: Volume, current: nat, path: Bytes, ghost cat: Catalogue) returns (r: Located)
    requires IsVolume(vol, cat) && ParentsOk(vol.data, cat) && current in cat.ns.tree
    ensures cat.ns.root < TWO_32 && r == Resolve(vol.data, cat, current, path)
    ensures r.entry.Some? ==> Answers(vol.data, cat, current, path, r.parent, r.entry.value)
    ensures r.entry.None? ==> forall d: nat, e: DirEntry :: !Answers(vol.data, cat, current, path, d, e)
  {
    hide Consistent, ParentsOk, FatRefines, DataRefines, Resolve, Answers;
    r := Look(vol, current, path, cat);
    if r.entry.Some? {
      ResolvedIff(vol.data, cat, current, path, r.parent, r.entry.value);
    }
    forall d: nat, e: DirEntry | r.entry.None? ensures !Answers(vol.data, cat, current, path, d, e) {
      ResolvedIff(vol.data, cat, current, path, d, e);
    }
  }

  method Look(vol: Volume, current: nat, path: Bytes, ghost cat: Catalogue) returns (r: Located)
    requires IsVolume(vol, cat) && ParentsOk(vol.data, cat) && current in cat.ns.tree
    ensures cat.ns.root < TWO_32 && r == Resolve(vol.data, cat, current, path)
  {
    hide Consistent, ParentsOk, Norm, Fits, Parts, ResolveFrom, NewEntry, FatRefines, DataRefines, DirectoryOk, Walk;
    var parsed := new PathBuffer();
    var ok := parsed.Split(path);
    ConsistentParts(vol.fat, vol.data, cat);
    var root := vol.geometry.rootCluster;
    if !ok {
      return Located(0, [], None);
    }
    NormCanonical(IsAbsolute(path), Parts(path));
    parsed.Normalize();
    if !parsed.absolute && parsed.count == 1 && parsed.components[0] == DOTDOT && current == root {
      assert parsed.List() == [DOTDOT];
      return Located(root, DOTDOT, Some(RootEntry(root)));
    }
    if parsed.count == 0 {
      if !parsed.absolute {
        return Located(0, [], None);
      }
      return Located(root, [], Some(RootEntry(root)));
    }
    assert parsed.List() == [DOTDOT] ==> parsed.components[0] == DOTDOT;
    r := LookupFrom(vol, if parsed.absolute then root else current, parsed, cat);
  }

  /** The loop of `path_lookup`. */
  method LookupFrom(vol: Volume, start: nat, parsed: PathBuffer, ghost cat: Catalogue) returns (r: Located)
    requires IsVolume(vol, cat) && ParentsOk(vol.data, cat) && start in cat.ns.tree
    requires parsed.Valid() && parsed.count > 0 && DOT !in parsed.List()
    ensures r == ResolveFrom(vol.data, cat, start, parsed.List())
  {
    hide Consistent, ParentsOk, FatRefines, DataRefines, Down, DirectoryOk, Judge, First, ChainSlots, Listing,
         FindListed, Walk;
    ghost var names := parsed.List();
    var cluster, i := start, 0;
    WalkNothing(vol.data, cat, start);
    while i < parsed.count - 1
      invariant 0 <= i < parsed.count && cluster in cat.ns.tree
      invariant Walk(vol.data, cat, start, names[..i]) == Some(cluster)
    {
      DirectoryKnown(vol.fat, vol.data, cat, cluster);
      var current := FindInCluster(vol, cluster, parsed.components[i], cat.chains[cluster]);
      assert names[..i + 1] == names[..i] + [names[i]] && names[i] in names;
      WalkSnoc(vol.data, cat, start, names[..i], names[i]);
      DownIs(vol.data, cat, cluster, names[i]);
      if current.None? || !current.value.IsDirectory() {
        assert names[..parsed.count - 1][..i + 1] == names[..i + 1];
        WalkStops(vol.data, cat, start, names[..parsed.count - 1], i + 1);
        return Located(0, parsed.components[parsed.count - 1], None);
      }
      DownKnown(vol.fat, vol.data, cat, cluster, names[i]);
      cluster := current.value.Cluster();
      i := i + 1;
    }
    DirectoryKnown(vol.fat, vol.data, cat, cluster);
    var entry := FindInCluster(vol, cluster, parsed.components[i], cat.chains[cluster]);
    r := Located(cluster, parsed.components[i], entry);
  }

  /** What a path is resolved to is an entry listed where it was looked up, or the one made up for the root. */
  lemma ResolvedIsLocated(fat: Fat, data: seq<Bytes>, cat: Catalogue, current: nat, path: Bytes)
    requires Consistent(fat, data, cat) && ParentsOk(data, cat) && current in cat.ns.tree && cat.ns.root < TWO_32
    ensures IsLocated(data, cat, Resolve(data, cat, current, path)) && Resolve(data, cat, current, path).leaf != DOT
  {
    hide Consistent, ParentsOk, Norm, Fits, Parts, Walk, RootEntry, Listing, FindListed, SlotsAt;
    ConsistentParts(fat, data, cat);
    var absolute, names := IsAbsolute(path), Norm(IsAbsolute(path), Parts(path));
    NoDots(absolute, Parts(path));
    if names != [] {
      var n, start := |names| - 1, if absolute then cat.ns.root else current;
      assert names[n] in names;
      if Walk(data, cat, start, names[..n]).Some? {
        WalkKnown(fat, data, cat, start, names[..n]);
      }
    }
  }

  /** `directory_delete`. */
  method DeleteDirectory(vol: Volume, current: nat, path: Bytes, ghost cat: Catalogue)
    returns (ok: bool, ghost cat': Catalogue)
    requires IsVolume(vol, cat) && ParentsOk(vol.data, cat) && current in cat.ns.tree
    requires vol.geometry.sectorsPerCluster <= vol.geometry.fatStart
    modifies vol`sectors, vol`fat, vol`data
    ensures vol.Valid() && cat.ns.root < TWO_32
    ensures var at := Resolve(old(vol.data), cat, current, path);
            && (if !FreesDirectory(old(vol.data), cat, at.entry) then
                  !ok && vol.fat == old(vol.fat) && vol.data == old(vol.data) && cat' == cat
                else if at.entry.value.Cluster() == cat.ns.root then
                  RootFreed(old(vol.fat), old(vol.data), cat, vol.fat, vol.data)
                else
                  ok && Deleted(old(vol.fat), old(vol.data), cat, vol.fat, vol.data, cat', at.parent, at.leaf,
                                at.entry.value.Cluster()))
            && (!(IsRootAnswer(cat, at) && FreesDirectory(old(vol.data), cat, at.entry)) ==> IsVolume(vol, cat'))
  {
    hide Consistent, ParentsOk, FatRefines, DataRefines, Resolve, RootFreed, Deleted, FreesDirectory, IsRootAnswer,
         RootEntry;
    var at := LookupPath(vol, current, path, cat);
    ResolvedIsLocated(vol.fat, vol.data, cat, current, path);
    ok, cat' := RemoveDirectory(vol, at, cat);
  }

  lemma WalkNothing(data: seq<Bytes>, cat: Catalogue, d: nat)
    ensures Walk(data, cat, d, []) == Some(d)
  {
  }

  lemma DownIs(data: seq<Bytes>, cat: Catalogue, d: nat, name: Bytes)
    ensures Down(data, cat, d, name)
            == match EntryIn(data, cat, d, name)
               case None => None
               case Some(e) => if e.IsDirectory() then Some(e.Cluster()) else None
  {
  }

  lemma {:induction false} WalkStops(data: seq<Bytes>, cat: Catalogue, d: nat, names: seq<Bytes>, i: nat)
    requires i <= |names| && Walk(data, cat, d, names[..i]) == None
    ensures Walk(data, cat, d, names) == None
    decreases |names| - i
  {
    if i < |names| {
      assert names[..i + 1][..i] == names[..i];
      WalkStops(data, cat, d, names, i + 1);
    } else {
      assert names[..i] == names;
    }
  }

  // ----- the current directory -----

  /** `path` is absolute, in normal form and within the limits, and leads from the root to the directory at
      `current`. */
  ghost predicate Agrees(data: seq<Bytes>, cat: Catalogue, current: nat, path: Bytes) {
    && path == AbsolutePath(Parts(path)) && |path| < OUTPUT_CAPACITY && Fits(Parts(path))
    && AllNames(Parts(path)) && current in cat.ns.tree
    && Walk(data, cat, cat.ns.root, Parts(path)) == Some(current)
  }

  /** A resolved directory and the path built for it agree. */
  lemma ChangeAgrees(fat: Fat, data: seq<Bytes>, cat: Catalogue, current: nat, path: Bytes, name: Bytes)
    requires Consistent(fat, data, cat) && ParentsOk(data, cat) && Agrees(data, cat, current, path)
    requires cat.ns.root < TWO_32
    requires var r := Resolve(data, cat, current, name); r.entry.Some? && r.entry.value.IsDirectory()
    requires Buildable(path, name)
    ensures Agrees(data, cat, Resolve(data, cat, current, name).entry.value.Cluster(),
                   AbsolutePath(Combined(path, name)))
    ensures Parts(AbsolutePath(Combined(path, name))) == Combined(path, name)
  {
    hide Consistent, ParentsOk, Norm, Fits, Parts, Walk, Down, Act, NewEntry, Joined, ResolveFrom;
    ConsistentParts(fat, data, cat);
    var c := Resolve(data, cat, current, name).entry.value.Cluster();
    var absolute, names, built := IsAbsolute(name), Norm(IsAbsolute(name), Parts(name)), Combined(path, name);
    RootEntryFacts(cat.ns.root);
    WalkNothing(data, cat, cat.ns.root);
    BuiltFrom(path, name);
    if !absolute && names == [DOTDOT] && current == cat.ns.root {
      RootAtEmptyPath(fat, data, cat, Parts(path));
      UpFromRoot();
    } else if names == [] {
    } else {
      var start, base := if absolute then cat.ns.root else current, if absolute then [] else Parts(path);
      ResolvedIsWalk(data, cat, start, names);
      NoDots(absolute, Parts(name));
      WalkActs(fat, data, cat, base, start, names);
      WalkKnown(fat, data, cat, start, names);
    }
    AgreesWhenBuilt(fat, data, cat, c, path, name);
  }

  lemma NoDots(absolute: bool, components: seq<Bytes>)
    ensures DOT !in Norm(absolute, components)
  {
    NormCanonical(absolute, components);
  }

  lemma UpFromRoot()
    ensures Act([], [DOTDOT]) == []
  {
    assert Act([], [DOTDOT]) == Act(StepTo([], DOTDOT), []);
  }

  /** The built path is what the normalized input makes of the current one. */
  lemma BuiltFrom(path: Bytes, name: Bytes)
    requires IsAbsolute(path) && AllNames(Parts(path))
    ensures Combined(path, name)
            == if IsAbsolute(name) then Act([], Norm(true, Parts(name))) else Act(Parts(path), Norm(false, Parts(name)))
    ensures IsAbsolute(name) ==> Combined(path, name) == Norm(true, Parts(name))
  {
    hide Norm, Act, Parts;
    NormNames(Parts(name));
    ActNames([], Norm(true, Parts(name)));
    assert [] + Norm(true, Parts(name)) == Norm(true, Parts(name));
    if !IsAbsolute(name) {
      NormIsPlace(Parts(path) + Parts(name));
      ActAppend([], Parts(path), Parts(name));
      ActNames([], Parts(path));
      assert [] + Parts(path) == Parts(path);
      NormKeepsMeaning(Parts(path), Parts(name));
    }
  }

  lemma ResolvedIsWalk(data: seq<Bytes>, cat: Catalogue, start: nat, names: seq<Bytes>)
    requires names != []
    requires ResolveFrom(data, cat, start, names).entry.Some?
    requires ResolveFrom(data, cat, start, names).entry.value.IsDirectory()
    ensures Walk(data, cat, start, names) == Some(ResolveFrom(data, cat, start, names).entry.value.Cluster())
  {
  }

  lemma AgreesWhenBuilt(fat: Fat, data: seq<Bytes>, cat: Catalogue, c: nat, path: Bytes, name: Bytes)
    requires Consistent(fat, data, cat) && ParentsOk(data, cat) && Buildable(path, name)
    requires Walk(data, cat, cat.ns.root, Combined(path, name)) == Some(c) && AllNames(Combined(path, name))
    ensures Agrees(data, cat, c, AbsolutePath(Combined(path, name)))
    ensures Parts(AbsolutePath(Combined(path, name))) == Combined(path, name)
  {
    hide Consistent, ParentsOk, Norm, Parts, Walk, Down, Joined;
    ConsistentParts(fat, data, cat);
    var built := Combined(path, name);
    assert DOT !in built;
    WalkKnown(fat, data, cat, cat.ns.root, built);
    CombinedHasNoSlash(path, name);
    SplitsBackIff(built);
    CombinedFits(path, name);
  }

  /** From wherever it is given, the path of a directory leads there, and changing to it can be carried out and gives
      that path. */
  lemma PathLeadsBack(fat: Fat, data: seq<Bytes>, cat: Catalogue, current: nat, path: Bytes, other: nat,
                      otherPath: Bytes)
    requires Consistent(fat, data, cat) && cat.ns.root < TWO_32 && Agrees(data, cat, current, path)
    ensures PathLeads(data, cat, other, path, current) && Buildable(otherPath, path)
    ensures AbsolutePath(Combined(otherPath, path)) == path
  {
    hide Consistent, Norm, Fits, Parts, Walk, RootEntry, EntryIn, PathLeads, Joined;
    var names := Parts(path);
    ConsistentParts(fat, data, cat);
    RootEntryFacts(cat.ns.root);
    assert IsCanonical(true, names);
    NormOfCanonical(true, names);
    ResolvedLeads(data, cat, other, path);
    if names == [] {
      WalkNothing(data, cat, cat.ns.root);
    } else {
      var n := |names| - 1;
      assert names == names[..n] + [names[n]];
      WalkSnoc(data, cat, cat.ns.root, names[..n], names[n]);
    }
  }

  /** Changing to a name appends it to the path. */
  lemma DescendBuilds(data: seq<Bytes>, cat: Catalogue, current: nat, path: Bytes, name: Bytes)
    requires Agrees(data, cat, current, path) && IsName(name) && name != [] && SLASH !in name && |name| < MAX_NAME
    requires |Parts(path)| < MAX_COMPONENTS
    ensures Combined(path, name) == Parts(path) + [name]
    ensures AbsolutePath(Combined(path, name)) == path + (if Parts(path) == [] then [] else [SLASH]) + name
    ensures Buildable(path, name) <==> |path + (if Parts(path) == [] then [] else [SLASH]) + name| < OUTPUT_CAPACITY
  {
    hide SplitAll, Walk, Norm, Joined;
    var names := Parts(path);
    SplitOne(name);
    forall i | 0 <= i < |names + [name]| ensures IsName((names + [name])[i]) {
    }
    NormOfCanonical(true, names + [name]);
    OneMore(names, name);
  }

  lemma OneMore(names: seq<Bytes>, name: Bytes)
    ensures AbsolutePath(names + [name]) == AbsolutePath(names) + (if names == [] then [] else [SLASH]) + name
  {
    if names != [] {
      JoinedSnoc(names, name);
    }
  }

  /** Changing to ".." drops the last name; in the root it changes nothing. */
  lemma AscendBuilds(data: seq<Bytes>, cat: Catalogue, current: nat, path: Bytes)
    requires Agrees(data, cat, current, path) && |Parts(path)| < MAX_COMPONENTS
    ensures Buildable(path, DOTDOT)
    ensures Combined(path, DOTDOT) == if Parts(path) == [] then [] else Parts(path)[..|Parts(path)| - 1]
  {
    hide SplitAll, Walk, Joined, Norm;
    var names := Parts(path);
    SplitOne(DOTDOT);
    OneLess(names);
    if |names| > 1 {
      JoinedGrows(names, |names| - 1);
    } else {
      NothingJoined(names);
    }
  }

  lemma OneLess(names: seq<Bytes>)
    requires AllNames(names)
    ensures Norm(true, names + [DOTDOT]) == if names == [] then [] else names[..|names| - 1]
  {
    NormOfCanonical(true, names);
    assert (names + [DOTDOT])[..|names|] == names;
    assert names != [] ==> IsName(names[|names| - 1]);
  }

  lemma NothingJoined(names: seq<Bytes>)
    requires |names| <= 1
    ensures names == [] || names[..|names| - 1] == []
    ensures Joined([]) == []
  {
  }

  lemma RootAgrees(fat: Fat, data: seq<Bytes>, cat: Catalogue)
    requires Consistent(fat, data, cat)
    ensures Agrees(data, cat, cat.ns.root, [SLASH])
  {
    hide Consistent;
    ConsistentParts(fat, data, cat);
    assert [SLASH][1..] == [];
    assert Parts([SLASH]) == [];
  }

  /** An empty root directory has no parent to point to. */
  lemma EmptyVolumeParents(fat: Fat, data: seq<Bytes>, root: nat, per: nat)
    requires 2 <= root < |fat| == |data| < CLUSTER_LAST && fat[root] == CLUSTER_EOC && data[root] == Zeros(32 * per)
    ensures ParentsOk(data, OnlyRoot(root, per))
  {
    EmptyVolume(fat, data, root, per);
    assert Listing(EmptySlots(per)) == [];
  }

  class WorkingDirectory {
    var cluster: nat
    var path: Bytes

    /** `fs_mount`: the root directory and the path "/". */
    constructor (vol: Volume, ghost cat: Catalogue)
      requires IsVolume(vol, cat)
      ensures Agrees(vol.data, cat, cluster, path)
      ensures cluster == cat.ns.root && path == [SLASH]
    {
      hide Agrees, Consistent, FatRefines, DataRefines;
      cluster, path := vol.geometry.rootCluster, [SLASH];
      new;
      RootAgrees(vol.fat, vol.data, cat);
    }

    /** `directory_change`. */
    method Change(vol: Volume, name: Bytes, ghost cat: Catalogue) returns (ok: bool)
      requires IsVolume(vol, cat) && ParentsOk(vol.data, cat) && Agrees(vol.data, cat, cluster, path)
      modifies this
      ensures Agrees(vol.data, cat, cluster, path)
      ensures cat.ns.root < TWO_32
      ensures var r := Resolve(vol.data, cat, old(cluster), name);
              && ok == (r.entry.Some? && r.entry.value.IsDirectory() && Buildable(old(path), name))
              && (ok ==> cluster == r.entry.value.Cluster() && Parts(path) == Combined(old(path), name))
      ensures !ok ==> cluster == old(cluster) && path == old(path)
      ensures ok <==> Buildable(old(path), name) && exists c :: PathLeads(vol.data, cat, old(cluster), name, c)
      ensures ok ==> PathLeads(vol.data, cat, old(cluster), name, cluster)
    {
      hide Consistent, ParentsOk, Resolve, Agrees, FatRefines, DataRefines, Buildable, Combined, Parts, PathLeads,
           Answers;
      CurrentKnown(vol.data, cat, cluster, path);
      ResolvedLeads(vol.data, cat, cluster, name);
      var r := LookupPath(vol, cluster, name, cat);
      if r.entry.None? || !r.entry.value.IsDirectory() {
        return false;
      }
      assert PathLeads(vol.data, cat, cluster, name, r.entry.value.Cluster());
      var built := PathBuffer.BuildAbsolute(path, name);
      if built.None? {
        return false;
      }
      ChangeAgrees(vol.fat, vol.data, cat, cluster, path, name);
      cluster, path := r.entry.value.Cluster(), built.value;
      ok := true;
    }
  }

  lemma CurrentKnown(data: seq<Bytes>, cat: Catalogue, current: nat, path: Bytes)
    requires Agrees(data, cat, current, path)
    ensures current in cat.ns.tree
  {
  }
}
