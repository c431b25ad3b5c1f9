/** The steps of the scheduler on the value of the whole system, and the invariant every step keeps. */
module Systems {
  import opened Tasks

  const PID_LIMIT: nat := 0x1_0000_0000

  // ----- the invariant -----

  ghost predicate Distinct<X>(s: seq<X>) {
    forall i, j :: 0 <= i < j < |s| ==> s[i] != s[j]
  }

  /** Every thread is in exactly one place, and its state says which. */
  ghost predicate Placed(r: Roster) {
    Roles(r) && Queued(r) && Located(r)
  }

  /** The threads with a special role exist; the running one runs, the idle one is runnable. */
  ghost predicate Roles(r: Roster) {
    && r.current in r.states && r.idle in r.states && r.bootstrap in r.states && r.idle != r.bootstrap
    && r.current !in r.created && r.idle !in r.created && r.bootstrap !in r.created
    && r.states[r.current] == Running
    && (r.states[r.idle] == Ready || r.states[r.idle] == Running)
  }

  /** What the queues and the set of new threads hold. */
  ghost predicate Queued(r: Roster) {
    && Distinct(r.ready) && Distinct(r.terminated)
    && (forall t :: t in r.ready ==> t in r.states && r.states[t] == Ready && t != r.idle && t !in r.created)
    && (forall t :: t in r.terminated ==> t in r.states && r.states[t] == Terminated && t != r.bootstrap)
    && (forall t :: t in r.created ==> t in r.states && r.states[t] == Ready)
  }

  /** Where a thread is, by its state; one that is blocked is in no queue. */
  ghost predicate Located(r: Roster) {
    forall t :: t in r.states ==> LocatedAt(r, t)
  }

  ghost predicate LocatedAt(r: Roster, t: Thread)
    requires t in r.states
  {
    match r.states[t]
    case Ready => t in r.ready || t in r.created || t == r.idle
    case Running => t == r.current || t == r.idle
    case Blocked => t != r.idle
    case Terminated => t in r.terminated
  }

  /** The threads of a process that have not been freed. */
  ghost function Members(threads: set<Thread>, p: Process): set<Thread> {
    set t | t in threads && t.process == p
  }

  ghost function Listed(processes: seq<Process>): set<Process> {
    set p | p in processes
  }

  /** Every process in the list counts its threads. */
  ghost predicate Counted(threads: set<Thread>, g: Registry) {
    && Registered(g)
    && (forall t :: t in threads ==> t.process in g.conditions)
    && (forall p :: p in g.counts ==> g.counts[p] == |Members(threads, p)|)
  }

  /** The list is duplicate-free, the kernel process is in it, and process numbers are unique until they wrap. */
  ghost predicate Registered(g: Registry) {
    && Distinct(g.processes)
    && Listed(g.processes) == g.conditions.Keys == g.counts.Keys == g.pids.Keys
    && g.kernel in g.conditions && g.conditions[g.kernel] == Alive
    && g.nextPid < PID_LIMIT
    && (!g.wrapped ==> forall p :: p in g.pids ==> g.pids[p] < g.nextPid)
    && (!g.wrapped ==> forall p, q :: p in g.pids && q in g.pids && p != q ==> g.pids[p] != g.pids[q])
  }

  /** The running thread, the current process and the active address space belong together, and the address spaces
      that exist are those of the listed processes, one each. */
  ghost predicate Attuned(current: Thread, m: Mapping) {
    && m.process == current.process && current.process in m.spaceOf && m.active == m.spaceOf[current.process]
    && Separate(m)
  }

  ghost predicate Separate(m: Mapping) {
    && (forall p, q :: p in m.spaceOf && q in m.spaceOf && p != q ==> m.spaceOf[p] != m.spaceOf[q])
    && m.live == m.spaceOf.Values
  }

  ghost predicate Inv(s: System) {
    && Placed(s.threads)
    && Counted(s.threads.states.Keys, s.registry)
    && s.threads.idle.process == s.threads.bootstrap.process == s.registry.kernel
    && Attuned(s.threads.current, s.mapping)
    && s.mapping.spaceOf.Keys == s.registry.conditions.Keys
  }

  // ----- the queues -----

  /** Behind the ready queue. */
  ghost function Enqueued(r: Roster, t: Thread): Roster {
    r.(ready := r.ready + [t], states := r.states[t := Ready])
  }

  /** Behind the queue of threads to be freed. */
  ghost function Retired(r: Roster, t: Thread): Roster {
    r.(terminated := r.terminated + [t], states := r.states[t := Terminated])
  }

  ghost function NextThread(r: Roster): Thread {
    if r.ready == [] then r.idle else r.ready[0]
  }

  ghost function Rest(queue: seq<Thread>): seq<Thread> {
    if queue == [] then [] else queue[1..]
  }

  /** The processor goes to the next thread; the current one goes to the end of the queue if `back`. */
  ghost function Handover(r: Roster, back: bool): Roster {
    r.(ready := if back then Rest(r.ready) + [r.current] else Rest(r.ready),
       states := if back then r.states[r.current := Ready][NextThread(r) := Running]
                 else r.states[NextThread(r) := Running],
       current := NextThread(r))
  }

  /** Whether the tick puts the current thread back into the queue. */
  ghost predicate GoesBack(r: Roster) {
    && r.current != r.idle && r.current in r.states
    && r.states[r.current] != Terminated && r.states[r.current] != Blocked
  }

  /** The process and the address space follow the thread. */
  ghost function Moved(m: Mapping, from: Thread, to: Thread): Mapping {
    if to.process != from.process && to.process in m.spaceOf
    then m.(process := to.process, active := m.spaceOf[to.process]) else m
  }

  ghost function HandedOver(s: System, back: bool): System {
    s.(threads := Handover(s.threads, back), mapping := Moved(s.mapping, s.threads.current, NextThread(s.threads)))
  }

  // ----- freeing -----

  /** One thread less. */
  ghost function Uncounted(g: Registry, p: Process): Registry {
    if p in g.counts && g.counts[p] > 0 then g.(counts := g.counts[p := g.counts[p] - 1]) else g
  }

  ghost function AllUncounted(g: Registry, list: seq<Thread>): Registry
    decreases |list|
  {
    if list == [] then g else Uncounted(AllUncounted(g, list[..|list| - 1]), list[|list| - 1].process)
  }

  ghost function Elements(list: seq<Thread>): set<Thread> {
    set t | t in list
  }

  ghost function Without(list: seq<Thread>, keep: Thread): seq<Thread> {
    if list == [] then []
    else Without(list[..|list| - 1], keep) + if list[|list| - 1] == keep then [] else [list[|list| - 1]]
  }

  ghost function Only(list: seq<Thread>, keep: Thread): seq<Thread> {
    if list == [] then []
    else Only(list[..|list| - 1], keep) + if list[|list| - 1] == keep then [keep] else []
  }

  /** `thread_reap_terminated`: frees every terminated thread but `keep`. */
  ghost function ThreadsReaped(s: System, keep: Thread): System {
    var gone := Without(s.threads.terminated, keep);
    s.(threads := s.threads.(terminated := Only(s.threads.terminated, keep),
                             states := s.threads.states - Elements(gone),
                             created := s.threads.created - Elements(gone)),
       registry := AllUncounted(s.registry, gone))
  }

  ghost function Dropped(list: seq<Process>, p: Process): seq<Process> {
    if list == [] then []
    else Dropped(list[..|list| - 1], p) + if list[|list| - 1] == p then [] else [list[|list| - 1]]
  }

  /** The process leaves the list. */
  ghost function Unlisted(g: Registry, p: Process): Registry {
    g.(processes := Dropped(g.processes, p),
       conditions := g.conditions - {p}, counts := g.counts - {p}, pids := g.pids - {p})
  }

  /** Its address space is given back, unless it is the active one. */
  ghost function Unmapped(m: Mapping, p: Process): Mapping {
    m.(spaceOf := m.spaceOf - {p},
       live := if p in m.spaceOf && m.spaceOf[p] != m.active then m.live - {m.spaceOf[p]} else m.live)
  }

  ghost function Gone(s: System, p: Process): System {
    s.(registry := Unlisted(s.registry, p), mapping := Unmapped(s.mapping, p))
  }

  ghost predicate Reapable(s: System, p: Process) {
    && p in s.registry.conditions && p in s.registry.counts
    && p != s.registry.kernel && p != s.mapping.process
    && s.registry.conditions[p] == Dead && s.registry.counts[p] == 0
  }

  /** `process_reap_terminated` over the processes in `list`. */
  ghost function ProcessesReaped(s: System, list: seq<Process>): System
    decreases |list|
  {
    if list == [] then s
    else
      var s', p := ProcessesReaped(s, list[..|list| - 1]), list[|list| - 1];
      if Reapable(s', p) then Gone(s', p) else s'
  }

  // ----- the steps -----

  /** The timer tick: `scheduler_schedule`. */
  ghost function Tick(s: System): System {
    var s' := ThreadsReaped(HandedOver(s, GoesBack(s.threads)), s.threads.current);
    ProcessesReaped(s', s'.registry.processes)
  }

  ghost function Yield(s: System): System {
    if s.threads.current == s.threads.idle || s.threads.ready == [] then s else HandedOver(s, GoesBack(s.threads))
  }

  ghost function Block(s: System): System {
    HandedOver(s.(threads := s.threads.(states := s.threads.states[s.threads.current := Blocked])), false)
  }

  ghost function Unblock(s: System, t: Thread): System {
    if t !in s.threads.states || s.threads.states[t] != Blocked then s
    else if t.process in s.registry.conditions && s.registry.conditions[t.process] == Dead
    then s.(threads := Retired(s.threads, t))
    else s.(threads := Enqueued(s.threads, t))
  }

  ghost function Terminate(s: System): System {
    var r := s.threads;
    if r.current == r.bootstrap || r.current == r.idle || r.current !in r.states || r.states[r.current] == Terminated
    then s
    else HandedOver(s.(threads := Retired(r, r.current)), false)
  }

  ghost function CreateThread(s: System, t: Thread): System {
    var r, g := s.threads, s.registry;
    if t.process !in g.conditions || t.process !in g.counts || g.conditions[t.process] != Alive then s
    else s.(threads := r.(states := r.states[t := Ready], created := r.created + {t}),
            registry := g.(counts := g.counts[t.process := g.counts[t.process] + 1]))
  }

  ghost function Admit(s: System, t: Thread): System {
    s.(threads := Enqueued(s.threads, t).(created := s.threads.created - {t}))
  }

  ghost function DestroyThread(s: System, t: Thread): System {
    var r := s.threads;
    if t == r.current || t == r.bootstrap || t == r.idle then s
    else s.(threads := r.(states := r.states - {t}, created := r.created - {t}),
            registry := Uncounted(s.registry, t.process))
  }

  // ----- ending a process -----

  ghost predicate Doomed(t: Thread, p: Process, current: Thread) {
    t.process == p && t != current
  }

  ghost function Victims(queue: seq<Thread>, p: Process, current: Thread): seq<Thread> {
    if queue == [] then []
    else Victims(queue[..|queue| - 1], p, current)
         + if Doomed(queue[|queue| - 1], p, current) then [queue[|queue| - 1]] else []
  }

  ghost function Survivors(queue: seq<Thread>, p: Process, current: Thread): seq<Thread> {
    if queue == [] then []
    else Survivors(queue[..|queue| - 1], p, current)
         + if Doomed(queue[|queue| - 1], p, current) then [] else [queue[|queue| - 1]]
  }

  /** `states` with every thread of `list` terminated. */
  ghost function Ended(states: map<Thread, ThreadState>, list: seq<Thread>): map<Thread, ThreadState> {
    map t | t in states.Keys + Elements(list) :: if t in list then Terminated else states[t]
  }

  /** `thread_terminate_process_threads`. */
  ghost function Purged(r: Roster, p: Process): Roster {
    var victims := Victims(r.ready, p, r.current);
    r.(ready := Survivors(r.ready, p, r.current), terminated := r.terminated + victims,
       states := Ended(r.states, victims))
  }

  /** The first part of `process_exit`, up to where interrupts are enabled again. */
  ghost function ExitBegins(s: System, p: Process): System {
    if p == s.registry.kernel then s
    else s.(threads := Purged(s.threads, p), registry := s.registry.(conditions := s.registry.conditions[p := Dead]))
  }

  /** The rest of `process_exit`. */
  ghost function ExitEnds(s: System, p: Process): System {
    if p == s.registry.kernel || s.threads.current.process != p then s else Terminate(s)
  }

  // ----- creating and destroying processes -----

  ghost function CreateProcess(s: System, p: Process, space: Space): System {
    var g := s.registry;
    System(s.threads,
           g.(processes := g.processes + [p],
              conditions := g.conditions[p := Alive], counts := g.counts[p := 0], pids := g.pids[p := g.nextPid],
              nextPid := if g.nextPid + 1 < PID_LIMIT then g.nextPid + 1 else 0,
              wrapped := g.wrapped || g.nextPid + 1 == PID_LIMIT),
           s.mapping.(spaceOf := s.mapping.spaceOf[p := space], live := s.mapping.live + {space}))
  }

  ghost function DestroyProcess(s: System, p: Process): System {
    if p == s.registry.kernel || p !in s.registry.counts || s.registry.counts[p] != 0 then s
    else Gone(if p == s.mapping.process then s.(mapping := s.mapping.(process := null)) else s, p)
  }
}
