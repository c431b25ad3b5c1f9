/** What each step of the scheduler does, said without the functions that describe it: where the threads stand
    afterwards, and what stays. */
module SchedulerEffects {
  import opened Tasks
  import opened Systems
  import opened SchedulerLaws

  // ----- threads -----

  /** Only the threads in `changed` have another state, and none has come or gone. */
  ghost predicate StatesKept(r: Roster, r': Roster, changed: set<Thread>) {
    r'.states.Keys == r.states.Keys && forall t :: t in r.states && t !in changed ==> r'.states[t] == r.states[t]
  }

  ghost predicate RolesKept(r: Roster, r': Roster) {
    r'.idle == r.idle && r'.bootstrap == r.bootstrap
  }

  /** The first waiting thread runs, or the idle one if none waits, in its process and address space; the others have
      moved up, and the threads in `behind` stand behind them. */
  ghost predicate Switches(s: System, s': System, behind: seq<Thread>) {
    && TakesNext(s.threads, s'.threads, behind) && Follows(s.mapping, s'.mapping, s'.threads.current)
    && s'.mapping.spaceOf == s.mapping.spaceOf && s'.mapping.live == s.mapping.live
  }

  ghost predicate TakesNext(r: Roster, r': Roster, behind: seq<Thread>) {
    && RolesKept(r, r')
    && (if r.ready == [] then r'.current == r.idle && r'.ready == behind
        else r'.current == r.ready[0] && r'.ready == r.ready[1..] + behind)
    && r'.current in r'.states && r'.states[r'.current] == Running
  }

  /** The process and the address space are those of the thread. */
  ghost predicate Follows(m: Mapping, m': Mapping, current: Thread) {
    && m'.process == current.process && current.process in m.spaceOf && m'.active == m.spaceOf[current.process]
  }

  /** The current thread waits behind the others. */
  ghost predicate GivesWay(s: System, s': System) {
    var r, r' := s.threads, s'.threads;
    && Switches(s, s', [r.current]) && StatesKept(r, r', {r.current, r'.current})
    && (r.ready != [] ==> r.current in r'.states && r'.states[r.current] == Ready)
    && r'.terminated == r.terminated && r'.created == r.created && s'.registry == s.registry
  }

  /** The current thread is blocked and waits in no queue. */
  ghost predicate Stops(s: System, s': System) {
    var r, r' := s.threads, s'.threads;
    && Switches(s, s', []) && StatesKept(r, r', {r.current, r'.current})
    && r.current in r'.states && r'.states[r.current] == Blocked && r.current !in r'.ready
    && r'.terminated == r.terminated && r'.created == r.created && s'.registry == s.registry
  }

  /** The current thread has ended: it stands last in the queue of threads to be freed and does not wait to run. */
  ghost predicate Ends(s: System, s': System) {
    var r, r' := s.threads, s'.threads;
    && Switches(s, s', []) && StatesKept(r, r', {r.current, r'.current})
    && r.current in r'.states && r'.states[r.current] == Terminated
    && r.current !in r'.ready && r.current != r'.current
    && r'.terminated == r.terminated + [r.current] && r'.created == r.created && s'.registry == s.registry
  }

  /** The thread is ready and stands last in the ready queue. */
  ghost predicate Waits(s: System, s': System, t: Thread) {
    var r, r' := s.threads, s'.threads;
    && StatesKept(r, r', {t}) && RolesKept(r, r') && t in r'.states && r'.states[t] == Ready
    && r'.ready == r.ready + [t] && r'.terminated == r.terminated && r'.current == r.current
    && s'.registry == s.registry && s'.mapping == s.mapping
  }

  /** The thread has ended without running again, and stands last in the queue of threads to be freed. */
  ghost predicate Dies(s: System, s': System, t: Thread) {
    var r, r' := s.threads, s'.threads;
    && StatesKept(r, r', {t}) && RolesKept(r, r') && t in r'.states && r'.states[t] == Terminated
    && r'.terminated == r.terminated + [t] && r'.ready == r.ready && r'.current == r.current
    && r'.created == r.created && s'.registry == s.registry && s'.mapping == s.mapping
  }

  /** What a wake-up does: a blocked thread waits again, or dies if its process has ended. */
  ghost predicate Wakes(s: System, s': System, t: Thread)
    requires t in s.threads.states
  {
    if s.threads.states[t] != Blocked then s' == s
    else if t.process in s.registry.conditions && s.registry.conditions[t.process] == Dead then Dies(s, s', t)
    else Waits(s, s', t) && s'.threads.created == s.threads.created
  }

  lemma WakesThread(s: System, t: Thread)
    requires Inv(s) && t in s.threads.states
    ensures Wakes(s, Unblock(s, t), t)
  {
    hide Inv;
  }

  /** Whether the thread has a part that cannot end. */
  ghost predicate Endless(r: Roster, t: Thread) {
    t == r.bootstrap || t == r.idle
  }

  ghost predicate EndsOrNot(s: System, s': System) {
    if Endless(s.threads, s.threads.current) then s' == s else Ends(s, s')
  }

  lemma EndsThread(s: System)
    requires Inv(s)
    ensures EndsOrNot(s, Terminate(s))
  {
    hide Located, Counted;
    NextProcessKnown(s);
  }

  /** The process of whichever thread comes next has an address space. */
  lemma NextProcessKnown(s: System)
    requires Inv(s)
    ensures s.threads.current.process in s.mapping.spaceOf && s.mapping.process == s.threads.current.process
    ensures s.mapping.active == s.mapping.spaceOf[s.threads.current.process]
    ensures s.threads.idle in s.threads.states && s.threads.idle.process in s.mapping.spaceOf
    ensures s.threads.ready != [] ==>
              s.threads.ready[0] in s.threads.states && s.threads.ready[0].process in s.mapping.spaceOf
  {
    hide Located, Registered;
  }

  lemma StopsThread(s: System)
    requires Inv(s) && (s.threads.current != s.threads.idle || s.threads.ready == [])
    ensures if s.threads.current == s.threads.idle then Block(s) == s else Stops(s, Block(s))
  {
    hide Located, Counted;
    NextProcessKnown(s);
  }

  lemma YieldsThread(s: System)
    requires Inv(s)
    ensures if s.threads.current == s.threads.idle || s.threads.ready == [] then Yield(s) == s
            else GivesWay(s, Yield(s))
  {
    hide Located, Counted;
    NextProcessKnown(s);
  }

  /** A new thread of a running process is ready but stands in no queue, and its process has one more. */
  ghost predicate Adds(s: System, s': System, t: Thread)
    requires t.process in s.registry.counts
  {
    var r, r' := s.threads, s'.threads;
    && r'.states.Keys == r.states.Keys + {t} && r'.states[t] == Ready
    && (forall x :: x in r.states && x != t ==> r'.states[x] == r.states[x])
    && RolesKept(r, r') && r'.current == r.current && r'.ready == r.ready && r'.terminated == r.terminated
    && r'.created == r.created + {t} && s'.mapping == s.mapping
    && s'.registry == s.registry.(counts := s.registry.counts[t.process := s.registry.counts[t.process] + 1])
  }

  lemma AddsThread(s: System, t: Thread)
    requires Inv(s) && t !in s.threads.states && t.process in s.registry.conditions
    ensures t.process in s.registry.counts
    ensures if s.registry.conditions[t.process] == Alive then Adds(s, CreateThread(s, t), t)
            else CreateThread(s, t) == s
  {
    hide Placed, Attuned, Members;
  }

  lemma AddsWhenSound(s: System, t: Thread)
    requires t !in s.threads.states && t.process in s.registry.conditions
    ensures Inv(s) ==> t.process in s.registry.counts && Inv(CreateThread(s, t))
    ensures Inv(s) && s.registry.conditions[t.process] == Alive ==> Adds(s, CreateThread(s, t), t)
  {
    hide Inv, Adds, CreateThread;
    if Inv(s) {
      AddsThread(s, t);
      CreateThreadKeeps(s, t);
    }
  }

  lemma CountsKnown(s: System)
    ensures Inv(s) ==> s.registry.counts.Keys == s.registry.conditions.Keys
  {
    hide Placed, Attuned, Members;
  }

  /** From then on it waits. */
  lemma AdmitsThread(s: System, t: Thread)
    requires Inv(s) && t in s.threads.created
    ensures Waits(s, Admit(s, t), t) && Admit(s, t).threads.created == s.threads.created - {t}
  {
    hide Located, Counted, Attuned;
  }

  /** The thread is gone, and its process has one less. */
  ghost predicate Removes(s: System, s': System, t: Thread)
    requires t.process in s.registry.counts
  {
    var r, r' := s.threads, s'.threads;
    && r'.states == r.states - {t} && RolesKept(r, r') && r'.current == r.current
    && r'.ready == r.ready && r'.terminated == r.terminated && r'.created == r.created - {t}
    && s'.mapping == s.mapping && s.registry.counts[t.process] > 0
    && s'.registry == s.registry.(counts := s.registry.counts[t.process := s.registry.counts[t.process] - 1])
  }

  lemma RemovesThread(s: System, t: Thread)
    requires Inv(s) && t in s.threads.states
    ensures t.process in s.registry.counts
    ensures if HasRole(s.threads, t) then DestroyThread(s, t) == s else Removes(s, DestroyThread(s, t), t)
  {
    hide Placed, Attuned;
    var p := t.process;
    assert t in Members(s.threads.states.Keys, p);
    assert s.registry.counts[p] == |Members(s.threads.states.Keys, p)|;
  }

  // ----- processes -----

  /** A process has ended, with those of its threads that waited to run; the others wait as before. */
  ghost predicate Condemns(s: System, s': System, p: Process) {
    var r, r' := s.threads, s'.threads;
    && (set t | t in r'.ready) == (set t | t in r.ready && (t.process != p || t == r.current))
    && r.terminated <= r'.terminated
    && (set t | t in r'.terminated)
       == (set t | t in r.terminated) + (set t | t in r.ready && t.process == p && t != r.current)
    && r'.states.Keys == r.states.Keys
    && (forall t :: t in r.states ==>
          r'.states[t] == if t in r.ready && t.process == p && t != r.current then Terminated else r.states[t])
    && RolesKept(r, r') && r'.current == r.current && r'.created == r.created && s'.mapping == s.mapping
    && s'.registry == s.registry.(conditions := s.registry.conditions[p := Dead])
  }

  lemma CondemnsProcess(s: System, p: Process)
    requires Inv(s) && p in s.registry.conditions
    ensures if p == s.registry.kernel then ExitBegins(s, p) == s else Condemns(s, ExitBegins(s, p), p)
  {
    hide Inv, Placed, Victims, Survivors, Distinct;
    InvParts(s);
    QueueIsDistinct(s.threads);
    PurgeShape(s.threads.ready, p, s.threads.current);
    ReadyExist(s.threads);
    PurgeSets(s.threads.ready, p, s.threads.current);
    if p != s.registry.kernel {
      assert ExitBegins(s, p).threads.terminated
             == s.threads.terminated + Victims(s.threads.ready, p, s.threads.current);
    }
  }

  lemma PurgeSets(queue: seq<Thread>, p: Process, current: Thread)
    requires Distinct(queue)
    ensures (set t | t in Survivors(queue, p, current)) == (set t | t in queue && (t.process != p || t == current))
    ensures (set t | t in Victims(queue, p, current)) == (set t | t in queue && t.process == p && t != current)
  {
    hide Survivors, Victims, Distinct;
    var stay := set t | t in queue && (t.process != p || t == current);
    var go := set t | t in queue && t.process == p && t != current;
    forall t | t in Survivors(queue, p, current) ensures t in stay {
      PurgedAt(queue, p, current, t);
    }
    forall t | t in Victims(queue, p, current) ensures t in go {
      PurgedAt(queue, p, current, t);
    }
    forall t | t in stay ensures t in Survivors(queue, p, current) {
      PurgedAt(queue, p, current, t);
    }
    forall t | t in go ensures t in Victims(queue, p, current) {
      PurgedAt(queue, p, current, t);
    }
  }

  lemma PurgedAt(queue: seq<Thread>, p: Process, current: Thread, t: Thread)
    requires Distinct(queue)
    ensures t in Survivors(queue, p, current) <==> t in queue && (t.process != p || t == current)
    ensures t in Victims(queue, p, current) <==> t in queue && t.process == p && t != current
  {
    hide Survivors, Victims;
    PurgeShape(queue, p, current);
  }

  lemma ReadyExist(r: Roster)
    requires Placed(r)
    ensures forall t :: t in r.ready ==> t in r.states
  {
  }

  /** If it is the process of the current thread, that ends too. */
  ghost predicate EndsWith(s: System, s': System, p: Process) {
    if p == s.registry.kernel || s.threads.current.process != p then s' == s else Ends(s, s')
  }

  lemma EndsProcess(s: System, p: Process)
    requires Inv(s)
    ensures EndsWith(s, ExitEnds(s, p), p)
  {
    hide Inv, Terminate, Ends;
    EndsThread(s);
    InvParts(s);
  }

  /** A new process is last in the list, alive and without threads, has the next number and the address space. */
  ghost predicate Founds(s: System, s': System, p: Process, space: Space) {
    var g, g', m, m' := s.registry, s'.registry, s.mapping, s'.mapping;
    && s'.threads == s.threads && g'.processes == g.processes + [p] && g'.kernel == g.kernel
    && g'.conditions == g.conditions[p := Alive] && g'.counts == g.counts[p := 0] && g'.pids == g.pids[p := g.nextPid]
    && g'.nextPid == (g.nextPid + 1) % PID_LIMIT && (g'.wrapped <==> g.wrapped || g'.nextPid == 0)
    && m'.spaceOf == m.spaceOf[p := space] && m'.live == m.live + {space}
    && m'.process == m.process && m'.active == m.active
  }

  lemma FoundsProcess(s: System, p: Process, space: Space)
    requires Inv(s) && p !in s.registry.conditions && space !in s.mapping.live
    ensures Founds(s, CreateProcess(s, p, space), p, space)
  {
    hide Placed, Attuned, Members, Distinct;
    assert s.registry.nextPid + 1 == PID_LIMIT ==> (s.registry.nextPid + 1) % PID_LIMIT == 0;
  }

  /** The processes in `gone` have left the list, with what it records of them and their address spaces; the others
      are as they were. */
  ghost predicate Disbands(g: Registry, m: Mapping, g': Registry, m': Mapping, gone: set<Process>) {
    && Listed(g'.processes) == Listed(g.processes) - gone
    && g'.conditions == g.conditions - gone && g'.counts == g.counts - gone && g'.pids == g.pids - gone
    && g'.kernel == g.kernel && g'.nextPid == g.nextPid && g'.wrapped == g.wrapped
    && m'.spaceOf == m.spaceOf - gone && m'.live == m'.spaceOf.Values
    && m'.process == m.process && m'.active == m.active
  }

  lemma ListIsDistinct(s: System)
    requires Inv(s)
    ensures Distinct(s.registry.processes)
  {
    hide Placed, Attuned, Members;
  }

  /** A process that owns no thread is gone, unless it is the kernel's. */
  lemma DisbandsProcess(s: System, p: Process)
    requires Inv(s) && p in s.registry.conditions
    ensures var s' := DestroyProcess(s, p);
            && p in s.registry.counts && s'.threads == s.threads
            && if p == s.registry.kernel || s.registry.counts[p] != 0 then s' == s
               else Disbands(s.registry, s.mapping, s'.registry, s'.mapping, {p})
  {
    hide Inv, Placed, Counted, Dropped, Distinct, Registered;
    InvParts(s);
    DestroyProcessKeeps(s, p);
    if p != s.registry.kernel && s.registry.counts[p] == 0 {
      ListIsDistinct(s);
      DroppedShape(s.registry.processes, p);
      InvParts(DestroyProcess(s, p));
    }
  }

  lemma DisbandsWhenSound(s: System, p: Process)
    requires p in s.registry.conditions
    ensures var s' := DestroyProcess(s, p);
            Inv(s) ==>
              && Inv(s') && p in s.registry.counts && s'.threads == s.threads
              && if p == s.registry.kernel || s.registry.counts[p] != 0 then s' == s
                 else Disbands(s.registry, s.mapping, s'.registry, s'.mapping, {p})
  {
    hide Inv, Disbands, DestroyProcess;
    if Inv(s) {
      DisbandsProcess(s, p);
      DestroyProcessKeeps(s, p);
    }
  }

  // ----- the tick -----

  /** The processes that have ended and own none of the threads. */
  ghost function Abandoned(g: Registry, threads: set<Thread>): set<Process> {
    set p | p in g.conditions && g.conditions[p] == Dead && forall t :: t in threads ==> t.process != p
  }

  /** The current thread waits behind the others, unless it is the idle one, and the first that waits runs; the threads
      that had ended are freed. */
  ghost predicate TicksThreads(r: Roster, r': Roster) {
    && TakesNext(r, r', if r.current == r.idle then [] else [r.current])
    && r'.states.Keys == r.states.Keys - (set t | t in r.terminated)
    && (forall t :: t in r'.states && t != r.current && t != r'.current ==> r'.states[t] == r.states[t])
    && r.current in r'.states
    && r'.states[r.current] == (if r.current == r.idle then Running else Ready)
    && r'.terminated == [] && r'.created == r.created
  }

  /** Every ended process without a thread is gone; the others are as they were, with their threads counted. */
  ghost predicate TicksProcesses(s: System, s': System) {
    var g, g', m, m', threads := s.registry, s'.registry, s.mapping, s'.mapping, s'.threads.states.Keys;
    var gone := Abandoned(g, threads);
    && Listed(g'.processes) == Listed(g.processes) - gone && g'.conditions == g.conditions - gone
    && g'.pids == g.pids - gone && g'.kernel == g.kernel && g'.nextPid == g.nextPid && g'.wrapped == g.wrapped
    && g'.counts.Keys == g.counts.Keys - gone
    && (forall p :: p in g'.counts ==> g'.counts[p] == |set t | t in threads && t.process == p|)
    && m'.spaceOf == m.spaceOf - gone && m'.live == m'.spaceOf.Values
  }

  ghost predicate Ticks(s: System, s': System) {
    TicksThreads(s.threads, s'.threads) && TicksProcesses(s, s') && Follows(s.mapping, s'.mapping, s'.threads.current)
  }

  /** Exactly the processes that can be reaped are. */
  lemma {:induction false} ReapedExactly(s: System, list: seq<Process>)
    requires Inv(s)
    ensures var s', gone := ProcessesReaped(s, list), set p | p in list && Reapable(s, p);
            && Inv(s') && s'.threads == s.threads
            && Disbands(s.registry, s.mapping, s'.registry, s'.mapping, gone)
            && forall p :: Reapable(s', p) <==> Reapable(s, p) && p !in gone
    decreases |list|
  {
    hide Inv, Gone, Reapable, Disbands, Listed;
    var gone := set p | p in list && Reapable(s, p);
    if list == [] {
      assert gone == {};
      NoneDisbanded(s);
    } else {
      var init, last := list[..|list| - 1], list[|list| - 1];
      assert list == init + [last];
      ReapedExactly(s, init);
      var s' := ProcessesReaped(s, init);
      var before := set p | p in init && Reapable(s, p);
      if Reapable(s', last) {
        assert gone == before + {last};
        GoneKeeps(s', last);
        GoneReapables(s', last);
        GoneDisbands(s', last);
        BothDisbanded(s, s', Gone(s', last), before, {last});
      } else {
        assert gone == before;
      }
    }
  }

  lemma NoneDisbanded(s: System)
    requires Inv(s)
    ensures Disbands(s.registry, s.mapping, s.registry, s.mapping, {})
  {
    hide Placed, Counted;
  }

  lemma GoneDisbands(s: System, p: Process)
    requires Inv(s) && Reapable(s, p) && Inv(Gone(s, p))
    ensures Disbands(s.registry, s.mapping, Gone(s, p).registry, Gone(s, p).mapping, {p})
  {
    hide Inv, Placed, Counted, Dropped, Distinct, Registered;
    ListIsDistinct(s);
    DroppedShape(s.registry.processes, p);
    InvParts(Gone(s, p));
  }

  lemma BothDisbanded(s: System, s1: System, s2: System, a: set<Process>, b: set<Process>)
    requires Disbands(s.registry, s.mapping, s1.registry, s1.mapping, a)
    requires Disbands(s1.registry, s1.mapping, s2.registry, s2.mapping, b)
    ensures Disbands(s.registry, s.mapping, s2.registry, s2.mapping, a + b)
  {
    hide Listed;
    var g, m := s.registry, s.mapping;
    assert g.conditions - a - b == g.conditions - (a + b);
    assert g.counts - a - b == g.counts - (a + b);
    assert g.pids - a - b == g.pids - (a + b);
    assert m.spaceOf - a - b == m.spaceOf - (a + b);
  }

  /** The first part of the tick. */
  ghost predicate HalfTicks(s: System, s1: System) {
    var r, r1 := s.threads, s1.threads;
    && TakesNext(r, r1, if r.current == r.idle then [] else [r.current])
    && Follows(s.mapping, s1.mapping, r1.current)
    && StatesKept(r, r1, {r.current, r1.current}) && r.current in r1.states
    && r1.states[r.current] == (if r.current == r.idle then Running else Ready)
    && r1.terminated == r.terminated && r1.created == r.created && s1.registry == s.registry
    && s1.mapping.spaceOf == s.mapping.spaceOf
    && r.current !in r.terminated && r1.current !in r.terminated
  }

  lemma HandsOver(s: System)
    requires Inv(s)
    ensures HalfTicks(s, HandedOver(s, GoesBack(s.threads)))
  {
    hide Located, Counted;
    NextProcessKnown(s);
    ReadyApart(s.threads);
  }

  lemma ReadyApart(r: Roster)
    requires Placed(r)
    ensures forall t :: t in r.terminated ==> t !in r.ready && t != r.idle && t != r.current && t !in r.created
  {
    hide Located, Distinct;
  }

  /** The second part. */
  ghost predicate Frees(s: System, s2: System) {
    && s2.threads == s.threads.(terminated := [],
                                states := s.threads.states - (set t | t in s.threads.terminated))
    && s2.registry == s.registry.(counts := s2.registry.counts) && s2.mapping == s.mapping
    && s2.registry.counts.Keys == s.registry.counts.Keys
  }

  lemma FreesThreads(s: System, keep: Thread)
    requires Inv(s) && keep !in s.threads.terminated
    ensures Frees(s, ThreadsReaped(s, keep)) && Inv(ThreadsReaped(s, keep))
  {
    hide Inv, Placed, Counted, Attuned, AllUncounted, Without, Only;
    InvParts(s);
    ReapKeeps(s, keep);
    WithoutAbsent(s.threads.terminated, keep);
    TerminatedExist(s.threads);
    AllFreedCounts(s.threads.states.Keys, s.registry, s.threads.terminated);
    ReadyApart(s.threads);
    assert s.threads.created - Elements(s.threads.terminated) == s.threads.created;
    UncountedKeys(s.registry, s.threads.terminated);
  }

  lemma {:induction false} UncountedKeys(g: Registry, list: seq<Thread>)
    ensures AllUncounted(g, list).counts.Keys == g.counts.Keys
    decreases |list|
  {
    if list != [] {
      UncountedKeys(g, list[..|list| - 1]);
    }
  }

  /** What can be reaped has ended and owns no thread. */
  lemma ReapablesAbandoned(s: System)
    requires Inv(s)
    ensures (set p | p in s.registry.processes && Reapable(s, p)) == Abandoned(s.registry, s.threads.states.Keys)
  {
    hide Placed, Separate;
    var threads, g := s.threads.states.Keys, s.registry;
    CurrentExists(s.threads);
    forall p | p in g.conditions && g.conditions[p] == Dead
      ensures g.counts[p] == 0 <==> forall t :: t in threads ==> t.process != p
    {
      ThreadlessIff(threads, p);
      assert g.counts[p] == |Members(threads, p)|;
    }
    assert forall p :: p in g.processes <==> p in Listed(g.processes);
  }

  lemma ThreadlessIff(threads: set<Thread>, p: Process)
    ensures |Members(threads, p)| == 0 <==> forall t :: t in threads ==> t.process != p
  {
    forall t | t in threads && t.process == p ensures t in Members(threads, p) {
    }
    if |Members(threads, p)| == 0 {
      assert Members(threads, p) == {};
    } else {
      var t :| t in Members(threads, p);
    }
  }

  lemma TicksSystem(s: System)
    requires Inv(s)
    ensures Ticks(s, Tick(s))
  {
    hide *;
    HandsOver(s);
    DispatchKeeps(s);
    var s1 := HandedOver(s, GoesBack(s.threads));
    SameTerminated(s, s1);
    FreesThreads(s1, s.threads.current);
    var s2 := ThreadsReaped(s1, s.threads.current);
    ReapedExactly(s2, s2.registry.processes);
    ReapablesAbandoned(s2);
    TickKeeps(s);
    TickSteps(s);
    BothHalves(s, s1, s2, Tick(s));
  }

  lemma SameTerminated(s: System, s1: System)
    requires HalfTicks(s, s1)
    ensures s.threads.current !in s1.threads.terminated
  {
  }

  lemma BothHalves(s: System, s1: System, s2: System, s': System)
    requires HalfTicks(s, s1) && Frees(s1, s2) && s'.threads == s2.threads && Inv(s')
    requires Disbands(s2.registry, s2.mapping, s'.registry, s'.mapping, Abandoned(s2.registry, s2.threads.states.Keys))
    ensures Ticks(s, s')
  {
    hide Inv, Listed, Abandoned;
    TickCounts(s');
    SameConditions(s.registry, s2.registry, s'.threads.states.Keys);
  }

  lemma SameConditions(g: Registry, g': Registry, threads: set<Thread>)
    requires g'.conditions == g.conditions
    ensures Abandoned(g', threads) == Abandoned(g, threads)
  {
  }

  lemma TickCounts(s: System)
    requires Inv(s)
    ensures forall p :: p in s.registry.counts ==>
              s.registry.counts[p] == |set t | t in s.threads.states.Keys && t.process == p|
  {
    hide Placed, Registered, Attuned;
    forall p | p in s.registry.counts
      ensures s.registry.counts[p] == |set t | t in s.threads.states.Keys && t.process == p|
    {
      assert Members(s.threads.states.Keys, p) == set t | t in s.threads.states.Keys && t.process == p;
    }
  }
}
