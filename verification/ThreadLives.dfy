/** What becomes of threads and processes over runs: who waits is served, who is blocked stays blocked until woken, who
    has ended never runs again, and an ended process disappears with its threads. */
module ThreadLives {
  import opened Tasks
  import opened Systems
  import opened SchedulerLaws
  import opened SchedulerRuns
  import opened SchedulerEffects

  // ----- waiting -----

  /** A thread that the first step puts behind `n` others is dispatched or ended before the run has dispatched more than
      `n + 1` times after it. */
  lemma LastIsServed(states: seq<System>, steps: seq<Step>, t: Thread, n: nat) returns (k: nat)
    requires IsRun(states, steps) && Inv(states[0]) && steps != []
    requires |states[1].threads.ready| == n + 1 && states[1].threads.ready[n] == t
    requires Dispatches(states[1..], steps[1..]) > n
    ensures 1 < k < |states|
    ensures states[k].threads.current == t || t in states[k].threads.terminated
    ensures Dispatches(states[1..k], steps[1..k - 1]) <= n
  {
    hide Inv, Enabled, Apply, Dispatching, Position, Distinct;
    StepKeeps(states[0], steps[0]);
    InvParts(states[1]);
    QueueIsDistinct(states[1].threads);
    PositionIs(states[1].threads.ready, n);
    assert IsRun(states[1..], steps[1..]);
    var j := BoundedWaiting(states[1..], steps[1..], t);
    k := j + 1;
    assert states[1..][..j] == states[1..k] && steps[1..][..j - 1] == steps[1..k - 1];
  }

  /** A blocked thread of a running process, once woken, is dispatched or ended before as many dispatches as threads
      waited then, and one more. */
  lemma WokenIsServed(states: seq<System>, steps: seq<Step>, t: Thread) returns (k: nat)
    requires IsRun(states, steps) && Inv(states[0]) && steps != [] && steps[0] == UnblockStep(t)
    requires t in states[0].threads.states && states[0].threads.states[t] == Blocked
    requires t.process in states[0].registry.conditions && states[0].registry.conditions[t.process] == Alive
    requires Dispatches(states[1..], steps[1..]) > |states[0].threads.ready|
    ensures 1 < k < |states|
    ensures states[k].threads.current == t || t in states[k].threads.terminated
    ensures Dispatches(states[1..k], steps[1..k - 1]) <= |states[0].threads.ready|
  {
    hide Inv, Unblock, Dispatching;
    WakesThread(states[0], t);
    k := LastIsServed(states, steps, t, |states[0].threads.ready|);
  }

  /** So is a new thread, once it has been put into the queue. */
  lemma StartedIsServed(states: seq<System>, steps: seq<Step>, t: Thread) returns (k: nat)
    requires IsRun(states, steps) && Inv(states[0]) && steps != [] && steps[0] == AdmitStep(t)
    requires Dispatches(states[1..], steps[1..]) > |states[0].threads.ready|
    ensures 1 < k < |states|
    ensures states[k].threads.current == t || t in states[k].threads.terminated
    ensures Dispatches(states[1..k], steps[1..k - 1]) <= |states[0].threads.ready|
  {
    hide Inv, Admit, Dispatching;
    AdmitsThread(states[0], t);
    k := LastIsServed(states, steps, t, |states[0].threads.ready|);
  }

  /** A thread that the timer takes the processor from gets it back, or is ended, before each of the others has been
      dispatched once more. */
  lemma PreemptedIsServed(states: seq<System>, steps: seq<Step>) returns (k: nat)
    requires IsRun(states, steps) && Inv(states[0]) && steps != [] && steps[0] == TickStep
    requires states[0].threads.current != states[0].threads.idle && states[0].threads.ready != []
    requires Dispatches(states[1..], steps[1..]) >= |states[0].threads.ready|
    ensures 1 < k < |states|
    ensures var t := states[0].threads.current;
            states[k].threads.current == t || t in states[k].threads.terminated
    ensures Dispatches(states[1..k], steps[1..k - 1]) < |states[0].threads.ready|
  {
    hide Inv, Tick, Dispatching, TicksProcesses;
    TicksSystem(states[0]);
    k := LastIsServed(states, steps, states[0].threads.current, |states[0].threads.ready| - 1);
  }

  // ----- being blocked -----

  ghost predicate IsBlocked(s: System, t: Thread) {
    t in s.threads.states && s.threads.states[t] == Blocked
  }

  /** It neither runs nor stands in a queue. */
  lemma BlockedIsAside(s: System, t: Thread)
    requires Inv(s) && IsBlocked(s, t)
    ensures t != s.threads.current && t !in s.threads.ready && t !in s.threads.terminated && t !in s.threads.created
    ensures t != NextThread(s.threads) && t != s.threads.idle
  {
    hide Counted, Attuned, Distinct;
    assert LocatedAt(s.threads, t);
  }

  lemma StaysBlocked(s: System, step: Step, t: Thread)
    requires Inv(s) && Enabled(s, step) && IsBlocked(s, t)
    requires step != UnblockStep(t) && step != DestroyThreadStep(t)
    ensures IsBlocked(Apply(s, step), t)
  {
    hide Inv, Tick, Yield, Block, Terminate, Unblock, CreateThread, Admit, DestroyThread, ExitBegins, ExitEnds,
         CreateProcess, DestroyProcess, TicksProcesses, Disbands;
    BlockedIsAside(s, t);
    match step {
      case TickStep => TicksSystem(s);
      case YieldStep => YieldsThread(s);
      case BlockStep => StopsThread(s);
      case TerminateStep => EndsThread(s);
      case UnblockStep(x) => WakesThread(s, x);
      case CreateThreadStep(x) => AddsThread(s, x);
      case AdmitStep(x) => AdmitsThread(s, x);
      case DestroyThreadStep(x) => RemovesThread(s, x);
      case ExitBeginsStep(p) => CondemnsProcess(s, p);
      case ExitEndsStep(p) => EndsProcess(s, p);
      case CreateProcessStep(p, space) => FoundsProcess(s, p, space);
      case DestroyProcessStep(p) => DisbandsProcess(s, p);
    }
  }

  /** In every run a blocked thread stays blocked until it is woken or destroyed. */
  lemma {:induction false} BlockedUntilWoken(states: seq<System>, steps: seq<Step>, t: Thread, i: nat)
    requires IsRun(states, steps) && Inv(states[0]) && IsBlocked(states[0], t) && i < |states|
    requires forall j: nat :: j < i ==> steps[j] != UnblockStep(t) && steps[j] != DestroyThreadStep(t)
    ensures IsBlocked(states[i], t) && t != states[i].threads.current && t !in states[i].threads.ready
    decreases i
  {
    hide Inv, Enabled, Apply;
    RunKeeps(states, steps, i);
    if i > 0 {
      BlockedUntilWoken(states, steps, t, i - 1);
      RunKeeps(states, steps, i - 1);
      StaysBlocked(states[i - 1], steps[i - 1], t);
    }
    BlockedIsAside(states[i], t);
  }

  // ----- having ended -----

  /** The thread has ended, and may have been freed. */
  ghost predicate IsOver(s: System, t: Thread) {
    t in s.threads.states ==> s.threads.states[t] == Terminated
  }

  /** It does not run and does not wait to; until it is freed it stands in the queue for that. */
  lemma OverIsAside(s: System, t: Thread)
    requires Inv(s) && IsOver(s, t)
    ensures t != s.threads.current && t !in s.threads.ready && t !in s.threads.created
    ensures t != NextThread(s.threads) && t != s.threads.idle
    ensures t in s.threads.states ==> t in s.threads.terminated
  {
    hide Counted, Attuned, Distinct;
    assert t in s.threads.states ==> LocatedAt(s.threads, t);
  }

  lemma StaysOver(s: System, step: Step, t: Thread)
    requires Inv(s) && Enabled(s, step) && IsOver(s, t) && step != CreateThreadStep(t)
    ensures IsOver(Apply(s, step), t)
    ensures t !in s.threads.states || step == TickStep ==> t !in Apply(s, step).threads.states
  {
    hide Inv, Tick, Yield, Block, Terminate, Unblock, CreateThread, Admit, DestroyThread, ExitBegins, ExitEnds,
         CreateProcess, DestroyProcess, TicksProcesses, Disbands;
    OverIsAside(s, t);
    match step {
      case TickStep => TicksSystem(s);
      case YieldStep => YieldsThread(s);
      case BlockStep => StopsThread(s);
      case TerminateStep => EndsThread(s);
      case UnblockStep(x) => WakesThread(s, x);
      case CreateThreadStep(x) => AddsThread(s, x);
      case AdmitStep(x) => AdmitsThread(s, x);
      case DestroyThreadStep(x) => RemovesThread(s, x);
      case ExitBeginsStep(p) => CondemnsProcess(s, p);
      case ExitEndsStep(p) => EndsProcess(s, p);
      case CreateProcessStep(p, space) => FoundsProcess(s, p, space);
      case DestroyProcessStep(p) => DisbandsProcess(s, p);
    }
  }

  /** In every run a thread that has ended never runs again and never waits to, and the next tick frees it. */
  lemma {:induction false} EndedForGood(states: seq<System>, steps: seq<Step>, t: Thread, i: nat)
    requires IsRun(states, steps) && Inv(states[0]) && IsOver(states[0], t) && i < |states|
    requires forall j: nat :: j < i ==> steps[j] != CreateThreadStep(t)
    ensures IsOver(states[i], t) && t != states[i].threads.current && t !in states[i].threads.ready
    ensures (exists j: nat :: j < i && steps[j] == TickStep) ==> t !in states[i].threads.states
    decreases i
  {
    hide Inv, Enabled, Apply, IsOver;
    RunKeeps(states, steps, i);
    if i > 0 {
      EndedForGood(states, steps, t, i - 1);
      RunKeeps(states, steps, i - 1);
      StaysOver(states[i - 1], steps[i - 1], t);
    }
    OverIsAside(states[i], t);
  }

  // ----- the end of a process -----

  /** The threads of a process that its exit does not end: those that are blocked, and those not yet put into a
      queue. */
  ghost predicate Spared(s: System, t: Thread, p: Process) {
    t in s.threads.states && t.process == p && (s.threads.states[t] == Blocked || t in s.threads.created)
  }

  /** A thread of the process is left after the exit and a tick exactly if it is one of those. */
  lemma ThreadOfExited(s: System, p: Process, t: Thread)
    requires Inv(s) && p in s.registry.conditions && p != s.registry.kernel && t.process == p
    ensures var s3 := Tick(ExitEnds(ExitBegins(s, p), p));
            t in s3.threads.states <==> Spared(s, t, p)
  {
    hide Inv, Tick, ExitBegins, ExitEnds, Ticks, TicksThreads, Spared;
    var s1 := ExitBegins(s, p);
    var s2 := ExitEnds(s1, p);
    ExitBeginsKeeps(s, p);
    ExitEndsKeeps(s1, p);
    OnceBegun(s, p, t);
    OnceEnded(s1, p, t);
    TicksSystem(s2);
    OnceTicked(s2, Tick(s2), t);
    SparedExists(s, t, p);
  }

  lemma SparedExists(s: System, t: Thread, p: Process)
    ensures Spared(s, t, p) ==> t in s.threads.states
  {
  }

  /** Ended, or running, or spared. */
  lemma OnceBegun(s: System, p: Process, t: Thread)
    requires Inv(s) && p in s.registry.conditions && p != s.registry.kernel && t.process == p
    ensures var s1 := ExitBegins(s, p);
            && (t in s1.threads.states <==> t in s.threads.states) && s1.registry.kernel == s.registry.kernel
            && (Spared(s1, t, p) <==> Spared(s, t, p))
            && (t in s1.threads.states && !Spared(s1, t, p) ==>
                  t in s1.threads.terminated || t == s1.threads.current)
            && (Spared(s1, t, p) ==> t !in s1.threads.terminated && t != s1.threads.current)
  {
    hide Inv, ExitBegins;
    CondemnsProcess(s, p);
    ExitBeginsKeeps(s, p);
    WhereThreadsStand(s, t);
    InvParts(s);
    WhereThreadsStand(ExitBegins(s, p), t);
  }

  lemma OnceEnded(s: System, p: Process, t: Thread)
    requires Inv(s) && p != s.registry.kernel && t.process == p
    requires t in s.threads.states && !Spared(s, t, p) ==> t in s.threads.terminated || t == s.threads.current
    requires Spared(s, t, p) ==> t !in s.threads.terminated && t != s.threads.current
    ensures var s2 := ExitEnds(s, p);
            && (t in s2.threads.states <==> t in s.threads.states)
            && (t in s.threads.states ==> (t in s2.threads.terminated <==> !Spared(s, t, p)))
  {
    hide Inv, ExitEnds, Spared;
    EndsProcess(s, p);
    WhereThreadsStand(s, t);
  }

  lemma OnceTicked(s: System, s': System, t: Thread)
    requires Ticks(s, s')
    ensures t in s'.threads.states <==> t in s.threads.states && t !in s.threads.terminated
  {
    hide TicksProcesses, TakesNext;
    assert t in s'.threads.states.Keys <==> t in s.threads.states.Keys && t !in (set x | x in s.threads.terminated);
  }

  lemma WhereThreadsStand(s: System, t: Thread)
    requires Inv(s) && t.process != s.registry.kernel
    ensures t != s.threads.idle && t != s.threads.bootstrap
    ensures t in s.threads.created ==> t in s.threads.states && t !in s.threads.ready && t !in s.threads.terminated
                                       && t != s.threads.current
    ensures t in s.threads.states && s.threads.states[t] == Blocked ==>
              t !in s.threads.ready && t !in s.threads.terminated && t != s.threads.current
    ensures t in s.threads.states && s.threads.states[t] != Blocked && t !in s.threads.created ==>
              t in s.threads.ready || t in s.threads.terminated || t == s.threads.current
    ensures t in s.threads.ready || t in s.threads.terminated ==> t in s.threads.states
  {
    hide Counted, Attuned, Distinct;
    assert t in s.threads.states ==> LocatedAt(s.threads, t);
  }

  /** After a tick an ended process is gone, with its address space, exactly if none of the threads is its. */
  lemma DeadIsGoneIff(s: System, p: Process)
    requires Inv(s) && p in s.registry.conditions && s.registry.conditions[p] == Dead
    ensures p in s.mapping.spaceOf
    ensures var s' := Tick(s);
            && (p !in s'.registry.processes <==> forall t :: t in s'.threads.states ==> t.process != p)
            && (p !in s'.registry.processes ==>
                  p !in s'.registry.conditions && s.mapping.spaceOf[p] !in s'.mapping.live)
  {
    hide Inv, Tick, TicksThreads, Placed, Distinct, Members;
    InvParts(s);
    TicksSystem(s);
    assert p in s.registry.processes <==> p in Listed(s.registry.processes);
    var s' := Tick(s);
    assert p in s'.registry.processes <==> p in Listed(s'.registry.processes);
    if s.mapping.spaceOf[p] in s'.mapping.live {
      var q :| q in s'.mapping.spaceOf && s'.mapping.spaceOf[q] == s.mapping.spaceOf[p];
      assert q in s.mapping.spaceOf && s.mapping.spaceOf[q] == s.mapping.spaceOf[p];
    }
  }

  lemma StillDead(s: System, p: Process)
    requires Inv(s) && p in s.registry.conditions && p != s.registry.kernel
    ensures var s2 := ExitEnds(ExitBegins(s, p), p);
            Inv(s2) && p in s2.registry.conditions && s2.registry.conditions[p] == Dead
            && s2.mapping.spaceOf == s.mapping.spaceOf
  {
    hide Inv, ExitBegins, ExitEnds;
    CondemnsProcess(s, p);
    ExitBeginsKeeps(s, p);
    EndsProcess(ExitBegins(s, p), p);
    ExitEndsKeeps(ExitBegins(s, p), p);
  }

  /** After the exit of a process and a tick it is gone, with its address space and all its threads, if and only if none
      of its threads was blocked or new. */
  lemma ExitedIsGoneIff(s: System, p: Process)
    requires Inv(s) && p in s.registry.conditions && p != s.registry.kernel
    ensures p in s.mapping.spaceOf
    ensures var s3 := Tick(ExitEnds(ExitBegins(s, p), p));
            && (p !in s3.registry.processes <==> forall t :: t in s.threads.states ==> !Spared(s, t, p))
            && (p !in s3.registry.processes ==>
                  && p !in s3.registry.conditions && s.mapping.spaceOf[p] !in s3.mapping.live
                  && forall t :: t in s3.threads.states ==> t.process != p)
  {
    hide Inv, Tick, ExitBegins, ExitEnds;
    var s2 := ExitEnds(ExitBegins(s, p), p);
    var s3 := Tick(s2);
    StillDead(s, p);
    DeadIsGoneIff(s2, p);
    forall t | t in s3.threads.states && t.process == p ensures t in s.threads.states && Spared(s, t, p) {
      ThreadOfExited(s, p, t);
    }
    forall t | t in s.threads.states && Spared(s, t, p) ensures t in s3.threads.states && t.process == p {
      ThreadOfExited(s, p, t);
    }
  }
}
