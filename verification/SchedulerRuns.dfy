/** Runs of the scheduler: any sequence of its steps keeps the invariant, and no thread waits forever. */
module SchedulerRuns {
  import opened Tasks
  import opened Systems
  import opened SchedulerLaws

  datatype Step =
    | TickStep
    | YieldStep
    | BlockStep
    | TerminateStep
    | UnblockStep(thread: Thread)
    | CreateThreadStep(thread: Thread)
    | AdmitStep(thread: Thread)
    | DestroyThreadStep(thread: Thread)
    | ExitBeginsStep(process: Process)
    | ExitEndsStep(process: Process)
    | CreateProcessStep(process: Process, space: Space)
    | DestroyProcessStep(process: Process)

  /** What the kernel may do in a state: the idle thread never blocks, a new thread enters the queue once and while
      its process is running, and only objects that exist are passed. */
  ghost predicate Enabled(s: System, step: Step) {
    match step
    case BlockStep => s.threads.current != s.threads.idle || s.threads.ready == []
    case UnblockStep(t) => t in s.threads.states
    case CreateThreadStep(t) => t !in s.threads.states && t.process in s.registry.conditions
    case AdmitStep(t) => t in s.threads.created
    case DestroyThreadStep(t) =>
      t in s.threads.states && (HasRole(s.threads, t) || (t !in s.threads.ready && t !in s.threads.terminated))
    case ExitBeginsStep(p) => p in s.registry.conditions
    case CreateProcessStep(p, space) => p !in s.registry.conditions && space !in s.mapping.live
    case DestroyProcessStep(p) => p in s.registry.conditions
    case _ => true
  }

  ghost function Apply(s: System, step: Step): System {
    match step
    case TickStep => Tick(s)
    case YieldStep => Yield(s)
    case BlockStep => Block(s)
    case TerminateStep => Terminate(s)
    case UnblockStep(t) => Unblock(s, t)
    case CreateThreadStep(t) => CreateThread(s, t)
    case AdmitStep(t) => Admit(s, t)
    case DestroyThreadStep(t) => DestroyThread(s, t)
    case ExitBeginsStep(p) => ExitBegins(s, p)
    case ExitEndsStep(p) => ExitEnds(s, p)
    case CreateProcessStep(p, space) => CreateProcess(s, p, space)
    case DestroyProcessStep(p) => DestroyProcess(s, p)
  }

  lemma StepKeeps(s: System, step: Step)
    requires Inv(s) && Enabled(s, step)
    ensures Inv(Apply(s, step))
  {
    hide Inv, Tick, Yield, Block, Terminate, Unblock, CreateThread, Admit, DestroyThread, ExitBegins, ExitEnds,
         CreateProcess, DestroyProcess;
    match step {
      case TickStep => TickKeeps(s);
      case YieldStep => YieldKeeps(s);
      case BlockStep => BlockKeepsIff(s);
      case TerminateStep => TerminateKeeps(s);
      case UnblockStep(t) => UnblockKeeps(s, t);
      case CreateThreadStep(t) => CreateThreadKeeps(s, t);
      case AdmitStep(t) => AdmitKeeps(s, t);
      case DestroyThreadStep(t) => DestroyThreadKeepsIff(s, t);
      case ExitBeginsStep(p) => ExitBeginsKeeps(s, p);
      case ExitEndsStep(p) => ExitEndsKeeps(s, p);
      case CreateProcessStep(p, space) => CreateProcessKeeps(s, p, space);
      case DestroyProcessStep(p) => DestroyProcessKeeps(s, p);
    }
  }

  /** The states a sequence of steps goes through. */
  ghost predicate IsRun(states: seq<System>, steps: seq<Step>) {
    && |states| == |steps| + 1
    && forall i :: 0 <= i < |steps| ==> Enabled(states[i], steps[i]) && states[i + 1] == Apply(states[i], steps[i])
  }

  lemma {:induction false} RunKeeps(states: seq<System>, steps: seq<Step>, i: nat)
    requires IsRun(states, steps) && Inv(states[0]) && i < |states|
    ensures Inv(states[i])
    decreases i
  {
    hide Inv, Enabled, Apply;
    if i > 0 {
      RunKeeps(states, steps, i - 1);
      StepKeeps(states[i - 1], steps[i - 1]);
    }
  }

  // ----- waiting -----

  /** Whether a step takes a thread off the ready queue, or would if there were one. */
  ghost predicate Dispatching(s: System, step: Step) {
    var r := s.threads;
    match step
    case TickStep => true
    case YieldStep => r.current != r.idle && r.ready != []
    case BlockStep => true
    case TerminateStep => r.current != r.bootstrap && r.current != r.idle
    case ExitEndsStep(p) => p != s.registry.kernel && r.current.process == p
    case _ => false
  }

  ghost function Position(queue: seq<Thread>, t: Thread): (i: nat)
    requires t in queue
    ensures i < |queue| && queue[i] == t
  {
    var n := |queue| - 1;
    if t in queue[..n] then Position(queue[..n], t) else n
  }

  lemma {:induction false} PositionIs(queue: seq<Thread>, i: nat)
    requires Distinct(queue) && i < |queue|
    ensures Position(queue, queue[i]) == i
  {
  }

  /** Purging moves no survivor back. */
  lemma {:induction false} SurvivorMovesUp(queue: seq<Thread>, p: Process, current: Thread, t: Thread)
    requires t in queue && !Doomed(t, p, current)
    ensures t in Survivors(queue, p, current) && Position(Survivors(queue, p, current), t) <= Position(queue, t)
    ensures |Survivors(queue, p, current)| <= |queue|
    decreases |queue|
  {
    var n := |queue| - 1;
    var init, last := queue[..n], queue[n];
    SurvivorsShorter(init, p, current);
    var survivors := Survivors(init, p, current);
    if t in init {
      SurvivorMovesUp(init, p, current, t);
      if !Doomed(last, p, current) {
        assert (survivors + [last])[..|survivors|] == survivors;
      } else {
        assert survivors + [] == survivors;
      }
    } else {
      PositionAtMost(survivors + [last], t);
    }
  }

  lemma PositionAtMost(queue: seq<Thread>, t: Thread)
    requires t in queue
    ensures Position(queue, t) <= |queue| - 1
  {
  }

  lemma {:induction false} SurvivorsShorter(queue: seq<Thread>, p: Process, current: Thread)
    ensures |Survivors(queue, p, current)| <= |queue|
    decreases |queue|
  {
    if queue != [] {
      SurvivorsShorter(queue[..|queue| - 1], p, current);
    }
  }

  /** Purging keeps the order of the survivors. */
  lemma {:induction false} PurgeKeepsOrder(queue: seq<Thread>, p: Process, current: Thread, i: nat, j: nat)
    returns (a: nat, b: nat)
    requires i < j < |Survivors(queue, p, current)|
    ensures a < b < |queue|
    ensures queue[a] == Survivors(queue, p, current)[i] && queue[b] == Survivors(queue, p, current)[j]
    decreases |queue|
  {
    var n := |queue| - 1;
    var survivors := Survivors(queue[..n], p, current);
    if j < |survivors| {
      a, b := PurgeKeepsOrder(queue[..n], p, current, i, j);
    } else {
      a := SurvivorAt(queue[..n], p, current, i);
      b := n;
    }
  }

  lemma {:induction false} SurvivorAt(queue: seq<Thread>, p: Process, current: Thread, i: nat) returns (a: nat)
    requires i < |Survivors(queue, p, current)|
    ensures a < |queue| && queue[a] == Survivors(queue, p, current)[i]
    decreases |queue|
  {
    var n := |queue| - 1;
    if i < |Survivors(queue[..n], p, current)| {
      a := SurvivorAt(queue[..n], p, current, i);
    } else {
      a := n;
    }
  }

  /** The thread at index `i` runs, is ended, or is still waiting: not further back, and one further ahead if the
      step dispatched. */
  ghost predicate MovesUp(s': System, t: Thread, i: nat, dispatched: bool) {
    || s'.threads.current == t
    || t in s'.threads.terminated
    || (t in s'.threads.ready && Position(s'.threads.ready, t) + (if dispatched then 1 else 0) <= i)
  }

  lemma HandoverMovesUp(s: System, back: bool, t: Thread)
    requires Distinct(s.threads.ready) && t in s.threads.ready && s.threads.current !in s.threads.ready
    ensures MovesUp(HandedOver(s, back), t, Position(s.threads.ready, t), true)
  {
    var q := s.threads.ready;
    var i := Position(q, t);
    PositionIs(q, i);
    QueueStep(q, s.threads.current, back);
    var q' := HandedOver(s, back).threads.ready;
    if i > 0 {
      assert q'[i - 1] == t;
      PositionIs(q', i - 1);
    }
  }

  lemma BehindMovesUp(queue: seq<Thread>, t: Thread, x: Thread)
    requires Distinct(queue) && t in queue
    ensures t in queue + [x] && Position(queue + [x], t) == Position(queue, t)
  {
    assert (queue + [x])[..|queue|] == queue;
  }

  lemma TickMovesUp(s: System, t: Thread)
    requires Inv(s) && t in s.threads.ready
    ensures MovesUp(Tick(s), t, Position(s.threads.ready, t), true)
  {
    hide HandedOver, ThreadsReaped, ProcessesReaped, GoesBack, Inv, Placed, Position, Distinct;
    InvParts(s);
    QueueIsDistinct(s.threads);
    CurrentExists(s.threads);
    HandoverMovesUp(s, GoesBack(s.threads), t);
    DispatchKeeps(s);
    var s1 := HandedOver(s, GoesBack(s.threads));
    InvParts(s1);
    ReadyNotTerminated(s.threads);
    ReapKeeps(s1, s.threads.current);
    var s2 := ThreadsReaped(s1, s.threads.current);
    ReapFields(s1, s.threads.current);
    ProcessesReapedKeeps(s2, s2.registry.processes);
  }

  lemma ReadyNotTerminated(r: Roster)
    requires Placed(r)
    ensures forall t :: t in r.ready ==> t !in r.terminated
  {
  }

  lemma ReapFields(s: System, keep: Thread)
    ensures ThreadsReaped(s, keep).threads.ready == s.threads.ready
    ensures ThreadsReaped(s, keep).threads.current == s.threads.current
  {
  }

  /** One step brings every waiting thread closer to its turn, or at least no further away. */
  lemma StepMovesUp(s: System, step: Step, t: Thread)
    requires Inv(s) && Enabled(s, step) && t in s.threads.ready
    ensures MovesUp(Apply(s, step), t, Position(s.threads.ready, t), Dispatching(s, step))
  {
    hide HandedOver, Tick, Inv, Placed, Position, Survivors, Victims, Distinct, GoesBack, Gone;
    InvParts(s);
    QueueIsDistinct(s.threads);
    CurrentExists(s.threads);
    var r := s.threads;
    match step {
      case TickStep =>
        TickMovesUp(s, t);
      case YieldStep =>
        HandoverMovesUp(s, GoesBack(r), t);
      case BlockStep =>
        HandoverMovesUp(s.(threads := r.(states := r.states[r.current := Blocked])), false, t);
      case TerminateStep =>
        HandoverMovesUp(s.(threads := Retired(r, r.current)), false, t);
      case ExitEndsStep(p) =>
        HandoverMovesUp(s.(threads := Retired(r, r.current)), false, t);
      case UnblockStep(x) =>
        BehindMovesUp(r.ready, t, x);
      case AdmitStep(x) =>
        BehindMovesUp(r.ready, t, x);
      case ExitBeginsStep(p) =>
        PurgeMovesUp(s, p, t);
      case DestroyProcessStep(p) =>
        DestroyFields(s, p);
      case _ =>
    }
  }

  lemma DestroyFields(s: System, p: Process)
    ensures DestroyProcess(s, p).threads == s.threads
  {
  }

  lemma PurgeMovesUp(s: System, p: Process, t: Thread)
    requires Distinct(s.threads.ready) && t in s.threads.ready
    ensures MovesUp(ExitBegins(s, p), t, Position(s.threads.ready, t), false)
  {
    hide Position, Survivors, Victims;
    var r := s.threads;
    PurgeShape(r.ready, p, r.current);
    if Doomed(t, p, r.current) {
      assert t in Victims(r.ready, p, r.current);
    } else {
      SurvivorMovesUp(r.ready, p, r.current, t);
    }
  }

  ghost function Dispatches(states: seq<System>, steps: seq<Step>): nat
    requires |states| == |steps| + 1
    decreases |steps|
  {
    if steps == [] then 0
    else (if Dispatching(states[0], steps[0]) then 1 else 0) + Dispatches(states[1..], steps[1..])
  }

  /** In every run, a thread at index `i` of the ready queue is dispatched or ended before the run has dispatched
      more than `i + 1` times. */
  lemma {:induction false} BoundedWaiting(states: seq<System>, steps: seq<Step>, t: Thread) returns (k: nat)
    requires IsRun(states, steps) && Inv(states[0]) && t in states[0].threads.ready
    requires Dispatches(states, steps) > Position(states[0].threads.ready, t)
    ensures 0 < k < |states|
    ensures states[k].threads.current == t || t in states[k].threads.terminated
    ensures Dispatches(states[..k], steps[..k - 1]) <= Position(states[0].threads.ready, t)
    decreases |steps|
  {
    hide Inv, Enabled, Apply, Dispatching, Position;
    var s, s' := states[0], states[1];
    StepKeeps(s, steps[0]);
    StepMovesUp(s, steps[0], t);
    if s'.threads.current == t || t in s'.threads.terminated {
      k := 1;
    } else {
      var rest, after := states[1..], steps[1..];
      assert IsRun(rest, after);
      var j := BoundedWaiting(rest, after, t);
      k := j + 1;
      assert states[..k][1..] == rest[..j] && steps[..k - 1][1..] == after[..j - 1];
      assert states[..k][0] == states[0] && steps[..k - 1][0] == steps[0];
    }
  }

  /** The idle thread is chosen only when no thread is waiting. */
  lemma IdleOnlyWhenNoneWaits(s: System, step: Step)
    requires Inv(s) && Enabled(s, step) && Dispatching(s, step)
    requires Apply(s, step).threads.current == s.threads.idle
    ensures s.threads.ready == []
  {
    hide Located, Counted, Attuned;
    if s.threads.ready != [] {
      assert s.threads.ready[0] != s.threads.idle;
      if step.TickStep? {
        TickCurrent(s);
      }
    }
  }

  lemma TickCurrent(s: System)
    requires Inv(s)
    ensures Tick(s).threads.current == NextThread(s.threads)
  {
    hide Inv, ThreadsReaped, ProcessesReaped, GoesBack;
    DispatchKeeps(s);
    var s1 := HandedOver(s, GoesBack(s.threads));
    ReapKeeps(s1, s.threads.current);
    ReapFields(s1, s.threads.current);
    var s2 := ThreadsReaped(s1, s.threads.current);
    ProcessesReapedKeeps(s2, s2.registry.processes);
  }

  // ----- what the invariant means for freed memory and address spaces -----

  /** Reaping frees no thread in use: not the running one, not the outgoing one, none that waits, not the idle one and
      not the bootstrap thread. */
  lemma ReapFreesNoneInUse(s: System, t: Thread)
    requires Inv(s) && t in s.threads.states && t !in Tick(s).threads.states
    ensures t in s.threads.terminated
    ensures t != s.threads.current && t != NextThread(s.threads) && t !in s.threads.ready
    ensures t != s.threads.idle && t != s.threads.bootstrap
  {
    hide HandedOver, ProcessesReaped, GoesBack, Located, Attuned, Counted;
    DispatchKeeps(s);
    var s1 := HandedOver(s, GoesBack(s.threads));
    HandoverStates(s);
    WithoutAbsent(s1.threads.terminated, s.threads.current);
    var s2 := ThreadsReaped(s1, s.threads.current);
    ReapKeeps(s1, s.threads.current);
    ProcessesReapedKeeps(s2, s2.registry.processes);
    TickSteps(s);
    assert t in Elements(s1.threads.terminated);
  }

  lemma HandoverStates(s: System)
    requires Inv(s)
    ensures HandedOver(s, GoesBack(s.threads)).threads.states.Keys == s.threads.states.Keys
  {
  }
}
