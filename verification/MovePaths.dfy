/** `file_move` from its two paths: where the entry goes, and where its path says it should go. */
module MovePaths {
  import opened Options
  import opened Words
  import opened Chains
  import opened Fat32
  import opened Entries
  import opened Slots
  import opened Listings
  import opened Namespaces
  import opened Catalogues
  import opened FileSystems
  import opened Renames
  import opened VolumeRuns
  import opened Paths
  import opened PathBuffers
  import opened WorkingDirectories

  /** A directory, and a name in it. */
  datatype Target = Target(parent: nat, leaf: Bytes)

  // ----- the path of the parent -----

  /** The names as `file_resolve_destination` writes them: an absolute path gets two slashes. */
  function ParentText(absolute: bool, names: seq<Bytes>): Bytes {
    (if absolute then [SLASH, SLASH] else []) + Joined(names)
  }

  /** The loop that writes them, into a buffer of fixed size. */
  method PrintParent(parsed: PathBuffer) returns (text: Option<Bytes>)
    requires parsed.Valid() && parsed.count >= 2
    ensures var whole := ParentText(parsed.absolute, parsed.List()[..parsed.count - 1]);
            text == if |whole| >= OUTPUT_CAPACITY then None else Some(if whole == [] then DOT else whole)
  {
    hide Joined;
    ghost var names := parsed.List()[..parsed.count - 1];
    var written: Bytes := if parsed.absolute then [SLASH] else [];
    var i := 0;
    while i < parsed.count - 1
      invariant 0 <= i <= parsed.count - 1
      invariant written == if i == 0 then if parsed.absolute then [SLASH] else []
                           else ParentText(parsed.absolute, names[..i])
      invariant |written| < OUTPUT_CAPACITY
    {
      ParentTextStep(parsed.absolute, names, i);
      if i > 0 || parsed.absolute {
        written := written + [SLASH];
      }
      if |written| + |parsed.components[i]| >= OUTPUT_CAPACITY {
        return None;
      }
      written := written + parsed.components[i];
      i := i + 1;
    }
    assert names[..i] == names;
    text := Some(if written == [] then DOT else written);
  }

  lemma ParentTextStep(absolute: bool, names: seq<Bytes>, i: nat)
    requires i < |names|
    ensures ParentText(absolute, names[..i + 1])
            == (if i == 0 then if absolute then [SLASH] else [] else ParentText(absolute, names[..i]))
               + (if i > 0 || absolute then [SLASH] else []) + names[i]
    ensures |ParentText(absolute, names[..i + 1])| <= |ParentText(absolute, names)|
  {
    hide Joined;
    JoinedStep(names, i);
    JoinedGrows(names, i + 1);
    assert ParentText(absolute, names[..i + 1]) == (if absolute then [SLASH, SLASH] else []) + Joined(names[..i + 1]);
  }

  lemma JoinedStep(names: seq<Bytes>, i: nat)
    requires i < |names|
    ensures Joined(names[..i + 1]) == if i == 0 then names[0] else Joined(names[..i]) + [SLASH] + names[i]
  {
    assert names[..i + 1] == names[..i] + [names[i]];
    if i > 0 {
      hide Joined;
      JoinedSnoc(names[..i], names[i]);
    }
  }

  // ----- where the entry goes -----

  /** Where the entry is to go: into the current directory if the new path has one component, and otherwise into the
      directory that the parent of the new path was found in. */
  ghost function Destination(data: seq<Bytes>, cat: Catalogue, current: nat, path: Bytes): Option<Target>
    requires cat.ns.root < TWO_32
  {
    var names := Norm(IsAbsolute(path), Parts(path));
    if !Fits(Parts(path)) || names == [] then None
    else if |names| == 1 then Some(Target(current, names[0]))
    else ParentOf(data, cat, current, ParentText(IsAbsolute(path), names[..|names| - 1]), names[|names| - 1])
  }

  ghost function ParentOf(data: seq<Bytes>, cat: Catalogue, current: nat, text: Bytes, leaf: Bytes): Option<Target>
    requires cat.ns.root < TWO_32
  {
    if |text| >= OUTPUT_CAPACITY then None
    else
      var at := Resolve(data, cat, current, if text == [] then DOT else text);
      if at.entry.Some? then Some(Target(at.parent, leaf)) else None
  }

  /** `file_resolve_destination`. */
  method ResolveDestination(vol: Volume, current: nat, path: Bytes, ghost cat: Catalogue) returns (r: Option<Target>)
    requires IsVolume(vol, cat) && ParentsOk(vol.data, cat) && current in cat.ns.tree
    ensures cat.ns.root < TWO_32 && r == Destination(vol.data, cat, current, path)
  {
    hide Consistent, ParentsOk, Norm, Fits, Parts, Resolve, FatRefines, DataRefines, DirectoryOk, ParentText, Joined,
         IsAbsolute, ChainsOk, Namespace.Ok;
    ConsistentParts(vol.fat, vol.data, cat);
    var parsed := new PathBuffer();
    var ok := parsed.Split(path);
    if !ok {
      return None;
    }
    parsed.Normalize();
    if parsed.count == 0 {
      return None;
    }
    if parsed.count == 1 {
      return Some(Target(current, parsed.components[0]));
    }
    var text := PrintParent(parsed);
    if text.None? {
      return None;
    }
    var at := LookupPath(vol, current, text.value, cat);
    r := if at.entry.Some? then Some(Target(at.parent, parsed.components[parsed.count - 1])) else None;
  }

  // ----- where its path says it should go -----

  /** The directory the new path names: the one its components but the last lead to. */
  ghost function NamedDirectory(data: seq<Bytes>, cat: Catalogue, current: nat, path: Bytes): Option<nat> {
    var names := Norm(IsAbsolute(path), Parts(path));
    if names == [] then None
    else Walk(data, cat, if IsAbsolute(path) then cat.ns.root else current, names[..|names| - 1])
  }

  /** The components of a path in normal form. */
  lemma NormalParts(path: Bytes)
    requires Fits(Parts(path))
    ensures var names := Norm(IsAbsolute(path), Parts(path));
            && Fits(names) && IsCanonical(IsAbsolute(path), names)
            && forall i :: 0 <= i < |names| ==> SLASH !in names[i]
  {
    var absolute, parts := IsAbsolute(path), Parts(path);
    var names := Norm(absolute, parts);
    NormCanonical(absolute, parts);
    NormShorter(absolute, parts);
    NormFrom(absolute, parts);
    PartsHaveNoSlash(if absolute then path[1..] else path);
    forall i | 0 <= i < |names| ensures |names[i]| < MAX_NAME && SLASH !in names[i] {
      assert names[i] in names;
    }
  }

  /** The text of a relative parent splits into the same names; that of an absolute one begins with an empty name. */
  lemma ParentTextParts(absolute: bool, names: seq<Bytes>)
    requires names != [] && [] !in names && forall i :: 0 <= i < |names| ==> SLASH !in names[i]
    ensures var text := ParentText(absolute, names);
            && text != [] && IsAbsolute(text) == absolute && Parts(text) == (if absolute then [[]] else []) + names
  {
    hide SplitAll;
    var text := ParentText(absolute, names);
    SplitJoined(names);
    assert names[0] in names && names[|names| - 1] in names;
    if absolute {
      assert text[1..] == [] + [SLASH] + Joined(names);
      SplitCons([], Joined(names));
    } else {
      assert text == Joined(names);
      assert text[0] == names[0][0];
      assert [] + names == names;
    }
  }

  /** A directory does not lie in itself where all hang from the root. */
  lemma NotInItself(ns: Namespace, c: nat)
    requires ns.Ok() && Rooted(ns) && c in ns.tree && c in ns.owner
    ensures ns.owner[c].dir != c
  {
    var depth :| Ranked(ns, depth);
    assert IsBelow(ns, depth, c);
  }

  /** A step down or up leads to another directory. */
  lemma DownElsewhere(fat: Fat, data: seq<Bytes>, cat: Catalogue, d: nat, name: Bytes)
    requires Consistent(fat, data, cat) && ParentsOk(data, cat) && Rooted(cat.ns) && d in cat.ns.tree
    requires Down(data, cat, d, name).Some? && name != DOT
    ensures Down(data, cat, d, name) != Some(d)
  {
    hide Consistent, ParentsOk, Rooted, Down, Namespace.Ok;
    ConsistentParts(fat, data, cat);
    DownKnown(fat, data, cat, d, name);
    var c := Down(data, cat, d, name).value;
    NotInItself(cat.ns, if IsName(name) then c else d);
  }

  /** The components before the last, where they lead to a directory. */
  lemma NamedParts(fat: Fat, data: seq<Bytes>, cat: Catalogue, current: nat, path: Bytes)
    requires Consistent(fat, data, cat) && ParentsOk(data, cat) && current in cat.ns.tree
    requires Fits(Parts(path)) && NamedDirectory(data, cat, current, path).Some?
    ensures var absolute, names := IsAbsolute(path), Norm(IsAbsolute(path), Parts(path));
            var before := names[..|names| - 1];
            && Fits(names) && [] !in before && IsCanonical(absolute, before) && DOT !in before
            && forall i :: 0 <= i < |before| ==> SLASH !in before[i]
  {
    hide *;
    NormalParts(path);
    ConsistentParts(fat, data, cat);
    var absolute, names := IsAbsolute(path), Norm(IsAbsolute(path), Parts(path));
    WalkBefore(data, cat, current, path);
    var before := names[..|names| - 1];
    NoDotBefore(absolute, names);
    WalkKnown(fat, data, cat, if absolute then cat.ns.root else current, before);
  }

  lemma WalkBefore(data: seq<Bytes>, cat: Catalogue, current: nat, path: Bytes)
    requires NamedDirectory(data, cat, current, path).Some?
    ensures var names := Norm(IsAbsolute(path), Parts(path));
            && names != []
            && Walk(data, cat, if IsAbsolute(path) then cat.ns.root else current, names[..|names| - 1]).Some?
  {
    hide Norm, Walk, Parts;
  }

  lemma NoDotBefore(absolute: bool, names: seq<Bytes>)
    requires IsCanonical(absolute, names) && names != []
    ensures IsCanonical(absolute, names[..|names| - 1]) && DOT !in names[..|names| - 1]
  {
  }

  /** A longer absolute path is not found: its parent is looked up behind an empty name. */
  lemma AbsoluteIsRefused(fat: Fat, data: seq<Bytes>, cat: Catalogue, current: nat, path: Bytes)
    requires Consistent(fat, data, cat) && ParentsOk(data, cat) && current in cat.ns.tree && cat.ns.root < TWO_32
    requires Fits(Parts(path)) && NamedDirectory(data, cat, current, path).Some?
    requires IsAbsolute(path) && |Norm(true, Parts(path))| >= 2
    ensures Destination(data, cat, current, path) == None
  {
    hide Consistent, ParentsOk, Norm, Parts, Walk, Fits, Joined, ParentText, ResolveFrom, RootEntry;
    var names := Norm(true, Parts(path));
    var before := names[..|names| - 1];
    var text := ParentText(true, before);
    NamedParts(fat, data, cat, current, path);
    ConsistentParts(fat, data, cat);
    ParentTextParts(true, before);
    EmptyFirst(before, names);
    NormOfCanonical(true, [[]] + before);
    var inner := ([[]] + before)[..|before|];
    assert inner[0] == [];
    if Walk(data, cat, cat.ns.root, inner).Some? {
      assert DOT !in inner;
      WalkKnown(fat, data, cat, cat.ns.root, inner);
      assert false;
    }
    NotResolved(data, cat, current, text, [[]] + before);
  }

  lemma EmptyFirst(before: seq<Bytes>, names: seq<Bytes>)
    requires IsCanonical(true, before) && Fits(names) && names != [] && before == names[..|names| - 1]
    ensures IsCanonical(true, [[]] + before) && Fits([[]] + before)
  {
  }

  lemma NotResolved(data: seq<Bytes>, cat: Catalogue, current: nat, text: Bytes, names: seq<Bytes>)
    requires cat.ns.root < TWO_32 && IsAbsolute(text) && names == Norm(true, Parts(text)) && names != []
    requires Walk(data, cat, cat.ns.root, names[..|names| - 1]) == None
    ensures Resolve(data, cat, current, text).entry == None
  {
    hide Norm, Parts, Walk;
  }

  /** The last step to the directory named leads from another one. */
  lemma StepToNamed(fat: Fat, data: seq<Bytes>, cat: Catalogue, current: nat, names: seq<Bytes>)
    requires Consistent(fat, data, cat) && ParentsOk(data, cat) && Rooted(cat.ns) && current in cat.ns.tree
    requires names != [] && DOT !in names && Walk(data, cat, current, names).Some?
    ensures var n := |names| - 1;
            var above := Walk(data, cat, current, names[..n]);
            && above.Some? && Walk(data, cat, current, names) == Down(data, cat, above.value, names[n])
            && Walk(data, cat, current, names) != above
            && !(names == [DOTDOT] && current == cat.ns.root)
  {
    hide Consistent, ParentsOk, Rooted, Down, Walk;
    var n := |names| - 1;
    assert names == names[..n] + [names[n]] && names[n] in names;
    WalkSnoc(data, cat, current, names[..n], names[n]);
    WalkKnown(fat, data, cat, current, names[..n]);
    var above := Walk(data, cat, current, names[..n]).value;
    DownElsewhere(fat, data, cat, above, names[n]);
    DownKnown(fat, data, cat, above, names[n]);
    if names == [DOTDOT] {
      assert names[..0] == [];
      WalkNothing(data, cat, current);
    }
  }

  /** A longer relative path: the entry goes one directory above the one named. */
  lemma RelativeGoesAbove(fat: Fat, data: seq<Bytes>, cat: Catalogue, current: nat, path: Bytes)
    requires Consistent(fat, data, cat) && ParentsOk(data, cat) && Rooted(cat.ns)
    requires current in cat.ns.tree && cat.ns.root < TWO_32
    requires Fits(Parts(path)) && NamedDirectory(data, cat, current, path).Some?
    requires !IsAbsolute(path) && |Norm(false, Parts(path))| >= 2
    ensures var names := Norm(false, Parts(path));
            var n := |names| - 1;
            var above := Walk(data, cat, current, names[..n][..n - 1]);
            && above.Some? && NamedDirectory(data, cat, current, path) == Down(data, cat, above.value, names[n - 1])
            && NamedDirectory(data, cat, current, path) != above
            && Destination(data, cat, current, path)
               == if |Joined(names[..n])| >= OUTPUT_CAPACITY then None else Some(Target(above.value, names[n]))
  {
    hide Consistent, ParentsOk, Norm, Parts, Walk, Fits, Joined, RootEntry, Down, Rooted, ParentText, EntryIn, Resolve,
         IsCanonical;
    var names := Norm(false, Parts(path));
    var n := |names| - 1;
    NamedParts(fat, data, cat, current, path);
    StepToNamed(fat, data, cat, current, names[..n]);
    ParentTextParts(false, names[..n]);
    NormOfCanonical(false, names[..n]);
    ShorterFits(names);
    RelativeText(names[..n]);
    ResolvedBefore(data, cat, current, ParentText(false, names[..n]), names[..n]);
  }

  lemma RelativeText(names: seq<Bytes>)
    ensures ParentText(false, names) == Joined(names) && [] + names == names
  {
  }

  /** Where a relative path in normal form is found. */
  lemma ResolvedBefore(data: seq<Bytes>, cat: Catalogue, current: nat, text: Bytes, names: seq<Bytes>)
    requires cat.ns.root < TWO_32 && names != [] && Fits(names) && !IsAbsolute(text) && Parts(text) == names
    requires Norm(false, names) == names && !(names == [DOTDOT] && current == cat.ns.root)
    requires var above := Walk(data, cat, current, names[..|names| - 1]);
             above.Some? && Down(data, cat, above.value, names[|names| - 1]).Some?
    ensures var at := Resolve(data, cat, current, text);
            at.entry.Some? && at.parent == Walk(data, cat, current, names[..|names| - 1]).value
  {
    hide Parts, Norm, Walk, Fits, EntryIn, Down;
    var n := |names| - 1;
    DownIs(data, cat, Walk(data, cat, current, names[..n]).value, names[n]);
  }

  lemma ShorterFits(names: seq<Bytes>)
    requires Fits(names) && names != []
    ensures Fits(names[..|names| - 1])
  {
  }

  /** Where the new path names a directory, that is where the entry goes if and only if the path is a single name, and
      is either relative or given in the root. */
  lemma DestinationIff(fat: Fat, data: seq<Bytes>, cat: Catalogue, current: nat, path: Bytes)
    requires Consistent(fat, data, cat) && ParentsOk(data, cat) && Rooted(cat.ns)
    requires current in cat.ns.tree && cat.ns.root < TWO_32
    requires Fits(Parts(path)) && NamedDirectory(data, cat, current, path).Some?
    ensures var names, goes := Norm(IsAbsolute(path), Parts(path)), Destination(data, cat, current, path);
            (goes.Some? && Some(goes.value.parent) == NamedDirectory(data, cat, current, path))
            <==> |names| == 1 && (!IsAbsolute(path) || current == cat.ns.root)
  {
    hide Consistent, ParentsOk, Norm, Parts, Walk, Fits, RootEntry, Rooted, ParentOf, Joined;
    var names := Norm(IsAbsolute(path), Parts(path));
    WalkNothing(data, cat, current);
    WalkNothing(data, cat, cat.ns.root);
    if |names| == 1 {
      assert names[..0] == [];
    } else if IsAbsolute(path) {
      AbsoluteIsRefused(fat, data, cat, current, path);
    } else {
      RelativeGoesAbove(fat, data, cat, current, path);
    }
  }

  // ----- file_move -----

  lemma {:induction false} PartsHaveNoNul(b: Bytes)
    requires 0 !in b
    ensures forall i :: 0 <= i < |SplitAll(b)| ==> 0 !in SplitAll(b)[i]
    decreases |b|
  {
    if b != [] {
      PartsHaveNoNul(After(b, SLASH));
    }
  }

  /** The destination is a directory, and the name is part of the path. */
  lemma DestinationKnown(fat: Fat, data: seq<Bytes>, cat: Catalogue, current: nat, path: Bytes)
    requires Consistent(fat, data, cat) && ParentsOk(data, cat) && current in cat.ns.tree && cat.ns.root < TWO_32
    requires Destination(data, cat, current, path).Some? && 0 !in path
    ensures Destination(data, cat, current, path).value.parent in cat.ns.tree
    ensures 0 !in Destination(data, cat, current, path).value.leaf
  {
    hide Consistent, ParentsOk, Norm, SplitAll, Fits, Resolve, ParentText, RootEntry, Listing, FindListed, SlotsAt;
    var absolute, names := IsAbsolute(path), Norm(IsAbsolute(path), Parts(path));
    NormFrom(absolute, Parts(path));
    PartsHaveNoNul(if absolute then path[1..] else path);
    assert names[|names| - 1] in names;
    if |names| > 1 {
      var text := ParentText(absolute, names[..|names| - 1]);
      ResolvedIsLocated(fat, data, cat, current, if text == [] then DOT else text);
    }
  }

  /** The end of `file_move`. */
  method RenameOrMove(vol: Volume, at: Located, target: Target, occupied: bool, ghost cat: Catalogue)
    returns (ok: bool, ghost cat': Catalogue)
    requires IsVolume(vol, cat) && at.parent in cat.ns.tree && target.parent in cat.ns.tree && 0 !in target.leaf
    requires IsLocated(vol.data, cat, at) && at.entry.Some?
    modifies vol`sectors, vol`fat, vol`data
    ensures vol.Valid()
    ensures occupied ==> !ok && Taken(vol, cat') == old(Taken(vol, cat))
    ensures var v, op := old(Taken(vol, cat)), OperationOf(at, target, occupied);
            Enabled(v, op) ==>
              && ok == Goes(v, op)
              && IsVolume(vol, cat') && Step(v, op, vol.geometry.SlotsPerCluster(), Taken(vol, cat'))
  {
    hide Consistent, FatRefines, DataRefines, RootEntry, Accepted, ShortName, Listing, FindListed, SlotsAt, IsText,
         FileMoved, EntryTransferred, EntryTakenBack, SlotsRewritten, Renamed, First, GoodEntry, LinkOf, GoodSlots,
         IsShown, DisplayName, Kept;
    cat' := cat;
    ghost var v := Taken(vol, cat);
    if v.Entry(at.parent, at.leaf).Some? {
      EntryKnown(v, at.parent, at.leaf);
    }
    if at.parent == target.parent {
      ok := RenameInDirectory(vol, at, target.leaf, occupied, cat);
    } else {
      ok, cat' := MoveFile(vol, at, target.parent, target.leaf, occupied, cat);
    }
  }

  ghost function OperationOf(at: Located, target: Target, occupied: bool): Operation {
    if at.parent == target.parent then Rename(at.parent, at.leaf, target.leaf, occupied)
    else Move(at.parent, at.leaf, target.parent, target.leaf, occupied)
  }

  /** The rename or move is carried out. */
  ghost predicate Goes(v: Snapshot, op: Operation) {
    && (op.Rename? || op.Move?) && !op.occupied
    && if op.Rename? then CanRename(v, op.parent, op.leaf, op.newLeaf)
       else CanMove(v, op.parent, op.leaf, op.destination, op.newLeaf)
  }

  /** What `file_move` sets out to do. */
  ghost function MoveOperation(v: Snapshot, current: nat, oldPath: Bytes, newPath: Bytes): Option<Operation>
    requires v.cat.ns.root < TWO_32
  {
    var at := Resolve(v.data, v.cat, current, oldPath);
    var target := Destination(v.data, v.cat, current, newPath);
    var occupied := Resolve(v.data, v.cat, current, newPath).entry.Some?;
    if at.entry.None? || target.None? then None else Some(OperationOf(at, target.value, occupied))
  }

  /** `file_move`: unless it renames or moves a dot entry, or gives a name that begins with the mark of a deleted entry,
      it is a step of a volume. */
  method MovePath(vol: Volume, current: nat, oldPath: Bytes, newPath: Bytes, ghost cat: Catalogue)
    returns (ok: bool, ghost cat': Catalogue)
    requires IsVolume(vol, cat) && ParentsOk(vol.data, cat) && current in cat.ns.tree && 0 !in newPath
    modifies vol`sectors, vol`fat, vol`data
    ensures vol.Valid() && cat.ns.root < TWO_32
    ensures forall d: nat, e: DirEntry :: Answers(old(vol.data), cat, current, newPath, d, e) ==>
              !ok && Taken(vol, cat') == old(Taken(vol, cat))
    ensures (forall d: nat, e: DirEntry :: !Answers(old(vol.data), cat, current, oldPath, d, e)) ==>
              !ok && Taken(vol, cat') == old(Taken(vol, cat))
    ensures var v, op := old(Taken(vol, cat)), MoveOperation(old(Taken(vol, cat)), current, oldPath, newPath);
            && (op.None? ==> !ok && Taken(vol, cat') == v)
            && (op.Some? && Enabled(v, op.value) ==>
                  && ok == Goes(v, op.value)
                  && IsVolume(vol, cat') && Step(v, op.value, vol.geometry.SlotsPerCluster(), Taken(vol, cat')))
  {
    hide Consistent, ParentsOk, Resolve, Destination, FatRefines, DataRefines, Enabled, Step, IsLocated, OperationOf,
         Goes, Answers;
    cat' := cat;
    var at := LookupPath(vol, current, oldPath, cat);
    if at.entry.None? {
      return false, cat';
    }
    var target := ResolveDestination(vol, current, newPath, cat);
    if target.None? {
      return false, cat';
    }
    var existing := LookupPath(vol, current, newPath, cat);
    ResolvedIsLocated(vol.fat, vol.data, cat, current, oldPath);
    LocatedParent(vol.data, cat, at);
    DestinationKnown(vol.fat, vol.data, cat, current, newPath);
    ok, cat' := RenameOrMove(vol, at, target.value, existing.entry.Some?, cat);
  }

  lemma LocatedParent(data: seq<Bytes>, cat: Catalogue, at: Located)
    requires IsLocated(data, cat, at) && at.entry.Some?
    ensures at.parent in cat.ns.tree
  {
  }
}
