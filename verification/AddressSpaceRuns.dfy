/** Runs over all address spaces: spaces are created, activated, mapped, unmapped and destroyed in any order. */
module AddressSpaceRuns {
  import opened Options
  import opened Frames
  import opened PageTables
  import opened AddressSpaces

  /** The spaces and frames, and the active space. */
  datatype Machine = Machine(st: State, current: nat) {
    ghost predicate Ok() {
      Sound(st) && current in st.spaces
    }
  }

  datatype Event =
    | CreateSpace(heapAvailable: bool)
    | ActivateSpace(space: nat)
    | DestroySpace(space: nat)
    | Map(address: nat, physical: nat, flags: nat)
    | Unmap(address: nat)

  ghost predicate Enabled(m: Machine, e: Event) {
    match e
    case CreateSpace(_) => true
    case ActivateSpace(s) => s == 0 || s in m.st.spaces
    case DestroySpace(s) => s == 0 || s in m.st.spaces
    case Map(v, _, _) => v < 0x1_0000_0000
    case Unmap(v) => v < 0x1_0000_0000
  }

  // ----- one step -----

  ghost predicate Step(m: Machine, e: Event, m': Machine) {
    match e
    case CreateSpace(heapAvailable) =>
      if heapAvailable && (exists a, b :: a in m.st.free && b in m.st.free && a != b)
      then exists s: nat, directory: nat :: IsCreation(m, s, directory, m')
      else m' == m
    case ActivateSpace(s) => m' == m.(current := if s == 0 then m.current else s)
    case DestroySpace(s) => m' == if Destroys(m, s) then m.(st := Destroyed(m.st, s)) else m
    case Map(v, physical, flags) =>
      if CanMap(m, v) then
        && m'.current == m.current && Conserves(m.st, m'.st, m.current) && m'.st.free <= m.st.free
        && ChangesPage(m.st, m'.st, m.current, v, Mapped(physical, flags))
      else m' == m
    case Unmap(v) =>
      && m'.current == m.current && Conserves(m.st, m'.st, m.current) && m'.st.free <= m.st.free
      && ChangesPage(m.st, m'.st, m.current, v, None)
  }

  ghost predicate IsCreation(m: Machine, s: nat, directory: nat, m': Machine) {
    && s in m.st.free && directory in m.st.free && s < directory && m.st.kernelDirectory in m.st.memory
    && m' == m.(st := Created(m.st, s, directory))
  }

  ghost predicate Destroys(m: Machine, s: nat) {
    s != 0 && s != m.st.kernel && s != m.current
  }

  /** The address is a user's, and there is a table for it or a frame for one. */
  ghost predicate CanMap(m: Machine, v: nat) {
    IsUserAddress(v) && (HasTable(m.st, m.current, v) || m.st.free != {})
  }

  ghost function Taken(mapper: Mapper): Machine
    reads mapper, mapper.frames
  {
    Machine(mapper.State(), mapper.current)
  }

  /** The class takes such steps. */
  method Perform(mapper: Mapper, e: Event)
    requires mapper.Valid() && Enabled(Taken(mapper), e)
    modifies mapper`memory, mapper`spaces, mapper`owner, mapper`current, mapper.frames`free, mapper.frames.bitmap
    ensures mapper.Valid() && Step(old(Taken(mapper)), e, Taken(mapper))
  {
    hide Sound, Conserves, ChangesPage, HasTable, Destroyed, Created, Mapped;
    match e {
      case CreateSpace(heapAvailable) =>
        ghost var m := Taken(mapper);
        var s := mapper.Create(heapAvailable);
        if s != 0 {
          assert IsCreation(m, s, mapper.spaces[s].directory, Taken(mapper));
        }
      case ActivateSpace(s) => mapper.Activate(s);
      case DestroySpace(s) => mapper.Destroy(s);
      case Map(v, physical, flags) => mapper.MapPage(v, physical, flags);
      case Unmap(v) => mapper.UnmapPage(v);
    }
  }

  lemma StepKeeps(m: Machine, e: Event, m': Machine)
    requires m.Ok() && Enabled(m, e) && Step(m, e, m')
    ensures m'.Ok() && m'.st.kernel == m.st.kernel && m'.st.kernelDirectory == m.st.kernelDirectory
    ensures Pool(m'.st) == Pool(m.st)
  {
    hide Holds, Justified, Mirrored, ChangesPage, HasTable, Mapped;
    match e {
      case CreateSpace(heapAvailable) =>
        if m' != m {
          var s: nat, directory: nat :| IsCreation(m, s, directory, m');
          CreatedSound(m.st, s, directory);
          CreatedPool(m.st, s, directory);
        }
      case ActivateSpace(s) =>
      case DestroySpace(s) =>
        if Destroys(m, s) {
          DestroyedSound(m.st, s);
          DestroyedPool(m.st, s);
        }
      case Map(v, physical, flags) =>
        ConservedPool(m.st, m'.st, m.current);
      case Unmap(v) =>
        ConservedPool(m.st, m'.st, m.current);
    }
  }

  lemma ConservedPool(st: State, st': State, s: nat)
    requires Sound(st) && (Conserves(st, st', s) || st' == st)
    ensures Pool(st') == Pool(st)
  {
    hide Sound;
    if st' != st {
      forall a ensures a in Pool(st') <==> a in Pool(st) {
        OwnedOrFree(st, st', s, a);
      }
    }
  }

  lemma OwnedOrFree(st: State, st': State, s: nat, a: nat)
    requires Conserves(st, st', s)
    ensures a in Pool(st') <==> a in Pool(st)
  {
    hide Sound;
    assert a in st'.free + OwnedBy(st', s) <==> a in st.free + OwnedBy(st, s);
    if a in st'.owner {
      assert a in OwnedBy(st', st'.owner[a].space);
      assert st'.owner[a].space != s ==> a in OwnedBy(st, st'.owner[a].space);
    }
    if a in st.owner {
      assert a in OwnedBy(st, st.owner[a].space);
      assert st.owner[a].space != s ==> a in OwnedBy(st', st.owner[a].space);
    }
  }

  // ----- runs -----

  ghost predicate IsRun(ms: seq<Machine>, es: seq<Event>) {
    && |ms| == |es| + 1
    && forall i: nat :: i < |es| ==> Enabled(ms[i], es[i]) && Step(ms[i], es[i], ms[i + 1])
  }

  /** In every run every state keeps both copies of the tables in agreement and every frame in one place, and no frame
      is lost or gained. */
  lemma {:induction false} RunKeeps(ms: seq<Machine>, es: seq<Event>, i: nat)
    requires IsRun(ms, es) && ms[0].Ok() && i < |ms|
    ensures ms[i].Ok() && Pool(ms[i].st) == Pool(ms[0].st)
    decreases i
  {
    hide Machine.Ok, Enabled, Step, Pool;
    if i > 0 {
      RunKeeps(ms, es, i - 1);
      StepKeeps(ms[i - 1], es[i - 1], ms[i]);
    }
  }

  // ----- the frames a space takes -----

  /** The step acts for the space `s`: it creates it, or maps or unmaps while it is active. */
  ghost predicate ActsFor(m: Machine, e: Event, m': Machine, s: nat) {
    match e
    case CreateSpace(_) => s !in m.st.spaces && s in m'.st.spaces
    case Map(_, _, _) => m.current == s
    case Unmap(_) => m.current == s
    case ActivateSpace(_) => false
    case DestroySpace(_) => false
  }

  /** The frames that left the free ones in a step. */
  ghost function TakenIn(m: Machine, m': Machine): set<nat> {
    m.st.free - m'.st.free
  }

  /** The frames taken for the space `s` in the steps from `a` up to `i`. */
  ghost function TakenFor(ms: seq<Machine>, es: seq<Event>, s: nat, a: nat, i: nat): set<nat>
    requires a <= i < |ms| == |es| + 1
    decreases i
  {
    if i == a then {}
    else TakenFor(ms, es, s, a, i - 1)
         + if ActsFor(ms[i - 1], es[i - 1], ms[i], s) then TakenIn(ms[i - 1], ms[i]) else {}
  }

  lemma SpaceNotFree(st: State, s: nat)
    requires Sound(st) && s in st.free
    ensures s !in st.spaces
  {
    hide Mirrored, Justified;
    assert s in st.spaces ==> Holds(st, s);
  }

  /** A step adds to the frames of a space what it takes for it. */
  lemma StepTakes(m: Machine, e: Event, m': Machine, s: nat)
    requires m.Ok() && Enabled(m, e) && Step(m, e, m') && s in m'.st.spaces
    ensures OwnedBy(m'.st, s) == OwnedBy(m.st, s) + if ActsFor(m, e, m', s) then TakenIn(m, m') else {}
  {
    hide Sound, ChangesPage, HasTable, Mapped;
    StepKeeps(m, e, m');
    OwnedNotFree(m.st, s);
    OwnedNotFree(m'.st, s);
    match e {
      case CreateSpace(heapAvailable) =>
        if m' != m {
          var t: nat, directory: nat :| IsCreation(m, t, directory, m');
          CreatedTakes(m.st, t, directory, s);
        }
      case ActivateSpace(t) =>
      case DestroySpace(t) =>
        if Destroys(m, t) {
          DestroyedTakes(m.st, t, s);
        }
      case Map(v, physical, flags) =>
        if m' != m {
          ConservedTakes(m.st, m'.st, m.current, s);
        }
      case Unmap(v) =>
        ConservedTakes(m.st, m'.st, m.current, s);
    }
  }

  lemma CreatedTakes(st: State, t: nat, directory: nat, s: nat)
    requires Sound(st) && t in st.free && directory in st.free && t != directory && st.kernelDirectory in st.memory
    ensures t !in st.spaces
    ensures s != t ==> OwnedBy(Created(st, t, directory), s) == OwnedBy(st, s)
    ensures s == t ==> OwnedBy(st, s) == {} && OwnedBy(Created(st, t, directory), s)
                                              == st.free - Created(st, t, directory).free
  {
    hide Holds, Justified;
    SpaceNotFree(st, t);
    UnknownOwnsNothing(st, t);
    assert t !in st.owner && directory !in st.owner;
  }

  lemma DestroyedTakes(st: State, t: nat, s: nat)
    ensures s != t ==> OwnedBy(Destroyed(st, t), s) == OwnedBy(st, s)
    ensures t !in Destroyed(st, t).spaces
  {
  }

  lemma ConservedTakes(st: State, st': State, t: nat, s: nat)
    requires Conserves(st, st', t) && st'.free <= st.free && OwnedBy(st, s) !! st.free && OwnedBy(st', s) !! st'.free
    ensures OwnedBy(st', s) == OwnedBy(st, s) + if s == t then st.free - st'.free else {}
  {
    hide Sound, OwnedBy;
    if s == t {
      forall a ensures a in OwnedBy(st', s) <==> a in OwnedBy(st, s) + (st.free - st'.free) {
        assert a in st'.free + OwnedBy(st', s) <==> a in st.free + OwnedBy(st, s);
      }
    }
  }

  /** At every moment of its life a space has exactly the frames taken for it since it was created, whatever was done
      for other spaces in between. */
  lemma {:induction false} FramesTaken(ms: seq<Machine>, es: seq<Event>, s: nat, a: nat, i: nat)
    requires IsRun(ms, es) && ms[0].Ok() && a < i < |ms| && s !in ms[a].st.spaces
    requires forall j: nat :: a < j <= i ==> s in ms[j].st.spaces
    ensures OwnedBy(ms[i].st, s) == TakenFor(ms, es, s, a, i)
    decreases i
  {
    hide Machine.Ok, Enabled, Step, OwnedBy, ActsFor, TakenIn;
    RunKeeps(ms, es, i - 1);
    StepTakes(ms[i - 1], es[i - 1], ms[i], s);
    if i - 1 > a {
      FramesTaken(ms, es, s, a, i - 1);
    } else {
      NothingYet(ms[a], s);
      assert TakenFor(ms, es, s, a, a) == {};
    }
  }

  lemma NothingYet(m: Machine, s: nat)
    requires m.Ok() && s !in m.st.spaces
    ensures OwnedBy(m.st, s) == {}
  {
    UnknownOwnsNothing(m.st, s);
  }

  /** So its destruction frees exactly the frames it has taken in its life, none of which was free before, and every
      other space has the frames it had. */
  lemma DestructionFreesTaken(ms: seq<Machine>, es: seq<Event>, s: nat, a: nat, i: nat)
    requires IsRun(ms, es) && ms[0].Ok() && a < i < |es| && s !in ms[a].st.spaces
    requires forall j: nat :: a < j <= i ==> s in ms[j].st.spaces
    requires es[i] == DestroySpace(s) && Destroys(ms[i], s)
    ensures ms[i + 1].st.free == ms[i].st.free + TakenFor(ms, es, s, a, i)
    ensures TakenFor(ms, es, s, a, i) !! ms[i].st.free && s !in ms[i + 1].st.spaces
    ensures forall t :: t != s ==> OwnedBy(ms[i + 1].st, t) == OwnedBy(ms[i].st, t)
  {
    hide Sound, OwnedBy, ActsFor, TakenIn;
    FramesTaken(ms, es, s, a, i);
    RunKeeps(ms, es, i);
    OwnedNotFree(ms[i].st, s);
    assert Step(ms[i], es[i], ms[i + 1]);
    forall t | t != s ensures OwnedBy(ms[i + 1].st, t) == OwnedBy(ms[i].st, t) {
      DestroyedTakes(ms[i].st, s, t);
    }
  }

  // ----- the pages a space sees -----

  /** The page of an address above the shared first table in the space `s` after a step, given the one before. */
  ghost function PageAfter(m: Machine, e: Event, s: nat, address: nat, page: Option<Grant>): Option<Grant> {
    match e
    case Map(v, physical, flags) =>
      if CanMap(m, v) && m.current == s && SamePage(address, v) then
        Mapped(physical, flags)
      else page
    case Unmap(v) => if m.current == s && SamePage(address, v) then None else page
    case CreateSpace(_) => page
    case ActivateSpace(_) => page
    case DestroySpace(_) => page
  }

  /** What was last mapped for the address in the steps from `a` up to `i`, while the space was active. */
  ghost function LastMapped(ms: seq<Machine>, es: seq<Event>, s: nat, address: nat, a: nat, i: nat): Option<Grant>
    requires a <= i < |ms| == |es| + 1
    decreases i
  {
    if i == a then None
    else PageAfter(ms[i - 1], es[i - 1], s, address, LastMapped(ms, es, s, address, a, i - 1))
  }

  lemma NotShared(address: nat, v: nat)
    requires USER_START <= address < 0x1_0000_0000 && SamePage(address, v)
    ensures DirectoryIndex(v) != 0
  {
  }

  lemma StepTranslates(m: Machine, e: Event, m': Machine, s: nat, address: nat)
    requires m.Ok() && Enabled(m, e) && Step(m, e, m') && s in m.st.spaces && s in m'.st.spaces
    requires USER_START <= address < 0x1_0000_0000
    ensures WalkIn(m'.st, s, address) == PageAfter(m, e, s, address, WalkIn(m.st, s, address))
  {
    hide Sound, Walk, DirectoryIndex, Conserves, Mapped, SamePage, CanMap;
    match e {
      case CreateSpace(heapAvailable) =>
        if m' != m {
          var t: nat, directory: nat :| IsCreation(m, t, directory, m');
          CreatedWalks(m.st, t, directory);
          assert SameWalk(m.st, m'.st, s, address);
        }
      case ActivateSpace(_) =>
      case DestroySpace(t) =>
      case Map(v, physical, flags) =>
        if CanMap(m, v) {
          var page := Mapped(physical, flags);
          assert ChangesPageAt(m.st, m'.st, m.current, v, page, s, address);
          if SamePage(address, v) {
            NotShared(address, v);
          }
        }
      case Unmap(v) =>
        assert ChangesPageAt(m.st, m'.st, m.current, v, None, s, address);
        if SamePage(address, v) {
          NotShared(address, v);
        }
    }
  }

  /** A new space sees nothing above the shared first table. */
  lemma NewSeesNothing(m: Machine, e: Event, m': Machine, s: nat, address: nat)
    requires m.Ok() && Enabled(m, e) && Step(m, e, m') && s !in m.st.spaces && s in m'.st.spaces
    requires USER_START <= address < 0x1_0000_0000
    ensures WalkIn(m'.st, s, address) == None == PageAfter(m, e, s, address, None)
  {
    hide Sound, Walk, DirectoryIndex, OwnedBy, Mapped, SamePage, CanMap, ChangesPage;
    match e {
      case CreateSpace(heapAvailable) =>
        var t: nat, directory: nat :| IsCreation(m, t, directory, m');
        CreatedWalks(m.st, t, directory);
        SamePageItself(address);
        NotShared(address, address);
      case ActivateSpace(_) =>
      case DestroySpace(_) =>
      case Map(v, _, _) =>
      case Unmap(v) =>
    }
  }

  lemma SamePageItself(address: nat)
    ensures SamePage(address, address)
  {
  }

  /** At every moment of its life the processor finds in a space, for every address above the shared first table, the
      page last mapped there while the space was active: nothing done for other spaces, and no table made or given back
      in between, shows. */
  lemma {:induction false} RunTranslates(ms: seq<Machine>, es: seq<Event>, s: nat, address: nat, a: nat, i: nat)
    requires IsRun(ms, es) && ms[0].Ok() && a < i < |ms| && s !in ms[a].st.spaces
    requires forall j: nat :: a < j <= i ==> s in ms[j].st.spaces
    requires USER_START <= address < 0x1_0000_0000
    ensures WalkIn(ms[i].st, s, address) == LastMapped(ms, es, s, address, a, i)
    decreases i
  {
    hide Machine.Ok, Enabled, Step, WalkIn, PageAfter;
    RunKeeps(ms, es, i - 1);
    if i - 1 > a {
      RunTranslates(ms, es, s, address, a, i - 1);
      StepTranslates(ms[i - 1], es[i - 1], ms[i], s, address);
    } else {
      NewSeesNothing(ms[a], es[a], ms[i], s, address);
      assert LastMapped(ms, es, s, address, a, a) == None;
    }
  }

  // ----- what users cannot reach -----

  /** Where users may go in any space: between the shared first table and the kernel's half. */
  ghost predicate Guarded(st: State) {
    forall s: nat, address: nat :: s in st.spaces && address < 0x1_0000_0000 ==> GuardedAt(st, s, address)
  }

  ghost predicate GuardedAt(st: State, s: nat, address: nat)
    requires s in st.spaces
  {
    WalkIn(st, s, address).Some? && WalkIn(st, s, address).value.user ==> IsUserAddress(address)
  }

  lemma SameRange(address: nat, v: nat)
    requires SamePage(address, v) && IsUserAddress(v)
    ensures IsUserAddress(address)
  {
  }

  /** What a step does to one address of one space, also below the shared first table. */
  lemma StepGuards(m: Machine, e: Event, m': Machine, s: nat, address: nat)
    requires m.Ok() && Enabled(m, e) && Step(m, e, m') && Guarded(m.st) && s in m'.st.spaces
    requires address < 0x1_0000_0000
    ensures GuardedAt(m'.st, s, address)
  {
    hide Sound, Walk, DirectoryIndex, OwnedBy, Mapped, SamePage, IsUserAddress;
    StepKeeps(m, e, m');
    if address < USER_START {
      NoUsersBelow(m'.st, s, address);
    } else if s !in m.st.spaces {
      NewSeesNothing(m, e, m', s, address);
    } else {
      StepTranslates(m, e, m', s, address);
      assert GuardedAt(m.st, s, address);
      if e.Map? && CanMap(m, e.address) && SamePage(address, e.address) {
        SameRange(address, e.address);
      }
    }
  }

  /** In every run, in every space, users reach user addresses only. */
  lemma {:induction false} RunGuards(ms: seq<Machine>, es: seq<Event>, i: nat)
    requires IsRun(ms, es) && ms[0].Ok() && Guarded(ms[0].st) && i < |ms|
    ensures Guarded(ms[i].st)
    decreases i
  {
    hide Machine.Ok, Enabled, Step, GuardedAt;
    if i > 0 {
      RunGuards(ms, es, i - 1);
      RunKeeps(ms, es, i - 1);
      forall s: nat, address: nat | s in ms[i].st.spaces && address < 0x1_0000_0000
        ensures GuardedAt(ms[i].st, s, address)
      {
        StepGuards(ms[i - 1], es[i - 1], ms[i], s, address);
      }
    }
  }

  /** At boot nobody but the kernel reaches anything. */
  lemma BootedGuarded(kernel: nat, kernelDirectory: nat, firstTable: nat, page: Page, free: set<nat>, imageStart: nat,
                      imageEnd: nat)
    requires Apart(kernel, kernelDirectory, firstTable, free) && IsFirstTable(page, imageStart, imageEnd)
    requires forall a :: a in free ==> Aligned(a)
    ensures Machine(Booted(kernel, kernelDirectory, firstTable, page, free), kernel).Ok()
    ensures Guarded(Booted(kernel, kernelDirectory, firstTable, page, free))
  {
    hide WalkIn, Sound, IsFirstTable;
    BootedSound(kernel, kernelDirectory, firstTable, page, free);
    var st := Booted(kernel, kernelDirectory, firstTable, page, free);
    forall s: nat, address: nat | s in st.spaces && address < 0x1_0000_0000 ensures GuardedAt(st, s, address) {
      BootedWalks(kernel, kernelDirectory, firstTable, page, free, imageStart, imageEnd, address);
    }
  }

  lemma StepShrinks(m: Machine, e: Event, m': Machine, s: nat, address: nat)
    requires m.Ok() && Enabled(m, e) && Step(m, e, m') && s in m'.st.spaces && address < USER_START
    ensures m.st.kernel in m.st.spaces
    ensures WalkIn(m'.st, s, address) == None || WalkIn(m'.st, s, address) == WalkIn(m.st, m.st.kernel, address)
  {
    hide Sound, Walk, OwnedBy, Mapped;
    KernelIsSpace(m.st);
    SamePageItself(address);
    if s in m.st.spaces {
      FirstTableSame(m.st, m.st.kernel, s, address, address);
    }
    match e {
      case CreateSpace(heapAvailable) =>
        if m' != m {
          var t: nat, directory: nat :| IsCreation(m, t, directory, m');
          CreatedWalks(m.st, t, directory);
          assert s in m.st.spaces ==> SameWalk(m.st, m'.st, s, address);
        }
      case ActivateSpace(_) =>
      case DestroySpace(t) =>
      case Map(v, physical, flags) =>
        if CanMap(m, v) {
          assert ChangesPageAt(m.st, m'.st, m.current, v, Mapped(physical, flags), s, address);
          if SamePage(address, v) {
            SameRange(address, v);
            assert false;
          }
        }
      case Unmap(v) =>
        assert ChangesPageAt(m.st, m'.st, m.current, v, None, s, address);
    }
  }

  /** In every run a page of the first 4 MiB is, in every space, what it was for the kernel at the start, or gone: the
      kernel image stays read-only. */
  lemma {:induction false} SharedOnlyShrinks(ms: seq<Machine>, es: seq<Event>, s: nat, address: nat, i: nat)
    requires IsRun(ms, es) && ms[0].Ok() && i < |ms| && s in ms[i].st.spaces && address < USER_START
    ensures ms[0].st.kernel in ms[0].st.spaces && ms[i].st.kernel == ms[0].st.kernel
    ensures WalkIn(ms[i].st, s, address) == None
            || WalkIn(ms[i].st, s, address) == WalkIn(ms[0].st, ms[0].st.kernel, address)
    decreases i
  {
    hide Sound, Enabled, Step, WalkIn;
    KernelIsSpace(ms[0].st);
    if i > 0 {
      RunKeeps(ms, es, i - 1);
      StepKeeps(ms[i - 1], es[i - 1], ms[i]);
      StepShrinks(ms[i - 1], es[i - 1], ms[i], s, address);
      SharedOnlyShrinks(ms, es, ms[i - 1].st.kernel, address, i - 1);
    } else {
      SamePageItself(address);
      FirstTableSame(ms[0].st, ms[0].st.kernel, s, address, address);
    }
  }
}
