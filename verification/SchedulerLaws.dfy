/** Every step of the scheduler keeps the invariant of the system. */
module SchedulerLaws {
  import opened Tasks
  import opened Systems

  // ----- where threads are -----

  /** Taking the head of a queue and putting another element behind the rest. */
  lemma QueueStep(q: seq<Thread>, t: Thread, back: bool)
    requires Distinct(q) && t !in q
    ensures var q' := if back then Rest(q) + [t] else Rest(q);
            && Distinct(q')
            && (forall x :: x in q' <==> (x in q && x != q[0]) || (back && x == t))
  {
    if q != [] {
      assert forall x :: x in q[1..] <==> x in q && x != q[0] by {
        assert q == [q[0]] + q[1..];
      }
    }
  }

  /** The running thread may hand over: it can run on and goes back into the queue, or it is idle, blocked or ended. */
  ghost predicate MayLeave(r: Roster, back: bool) {
    && Queued(r) && r.current in r.states && r.idle in r.states && r.bootstrap in r.states && r.idle != r.bootstrap
    && r.current !in r.created && r.idle !in r.created && r.bootstrap !in r.created
    && (r.states[r.idle] == Ready || r.states[r.idle] == Running)
    && r.current !in r.ready
    && (forall t :: t in r.states && t != r.current ==> LocatedAt(r, t))
    && (if back then r.current != r.idle && r.states[r.current] == Running
        else match r.states[r.current]
             case Ready => false
             case Running => r.current == r.idle
             case Blocked => r.current != r.idle
             case Terminated => r.current in r.terminated)
  }

  lemma HandoverPlaces(r: Roster, back: bool)
    requires MayLeave(r, back)
    ensures Placed(Handover(r, back))
  {
    QueueStep(r.ready, r.current, back);
    var r' := Handover(r, back);
    forall t | t in r'.states ensures LocatedAt(r', t) {
      assert t != r.current ==> LocatedAt(r, t);
    }
  }

  lemma TickMayLeave(r: Roster)
    requires Placed(r)
    ensures MayLeave(r, GoesBack(r)) && GoesBack(r) == (r.current != r.idle)
    ensures r.current !in r.terminated
  {
  }

  /** Blocking; the idle thread never blocks. */
  lemma BlockMayLeave(r: Roster)
    requires Placed(r) && r.current != r.idle
    ensures MayLeave(r.(states := r.states[r.current := Blocked]), false)
  {
    var r' := r.(states := r.states[r.current := Blocked]);
    forall t | t in r'.states && t != r.current ensures LocatedAt(r', t) {
      assert LocatedAt(r, t);
    }
  }

  lemma RetiredPlaces(r: Roster, t: Thread)
    requires Queued(r) && t in r.states && t !in r.ready && t !in r.terminated && t !in r.created && t != r.bootstrap
    ensures Queued(Retired(r, t))
    ensures forall x :: x in r.states && x != t && LocatedAt(r, x) ==> LocatedAt(Retired(r, t), x)
  {
  }

  lemma TerminateMayLeave(r: Roster)
    requires Placed(r) && r.current != r.bootstrap && r.current != r.idle
    ensures MayLeave(Retired(r, r.current), false)
  {
    RetiredPlaces(r, r.current);
    var r' := Retired(r, r.current);
    forall t | t in r'.states && t != r.current ensures LocatedAt(r', t) {
      assert LocatedAt(r, t);
    }
  }

  lemma UnblockPlaces(r: Roster, t: Thread)
    requires Placed(r) && t in r.states && r.states[t] == Blocked
    ensures Placed(Enqueued(r, t))
    ensures t != r.bootstrap ==> Placed(Retired(r, t))
  {
    assert LocatedAt(r, t);
    EnqueuedPlaces(r, t);
    if t != r.bootstrap {
      RetiredPlaces(r, t);
      var r' := Retired(r, t);
      forall x | x in r'.states ensures LocatedAt(r', x) {
        assert x != t ==> LocatedAt(r, x);
      }
    }
  }

  lemma EnqueuedPlaces(r: Roster, t: Thread)
    requires Placed(r) && t in r.states && t !in r.ready && t !in r.terminated && t !in r.created && t != r.idle
    requires t != r.current
    ensures Placed(Enqueued(r, t))
  {
    var r' := Enqueued(r, t);
    forall x | x in r'.states ensures LocatedAt(r', x) {
      assert LocatedAt(r, x);
    }
  }

  /** A new thread exists beside the queues. */
  lemma CreatePlaces(r: Roster, t: Thread)
    requires Placed(r) && t !in r.states
    ensures Placed(r.(states := r.states[t := Ready], created := r.created + {t}))
  {
    var r' := r.(states := r.states[t := Ready], created := r.created + {t});
    forall x | x in r'.states ensures LocatedAt(r', x) {
      assert x != t ==> LocatedAt(r, x);
    }
  }

  /** A new thread enters the ready queue. */
  lemma AdmitPlaces(r: Roster, t: Thread)
    requires Placed(r) && t in r.created
    ensures Placed(Enqueued(r, t).(created := r.created - {t}))
  {
    var r' := Enqueued(r, t).(created := r.created - {t});
    forall x | x in r'.states ensures LocatedAt(r', x) {
      assert LocatedAt(r, x);
    }
  }

  /** Threads that are in no ready place disappear. */
  lemma FreePlaces(r: Roster, gone: set<Thread>, terminated: seq<Thread>)
    requires Placed(r) && gone !! {r.current, r.idle, r.bootstrap}
    requires forall t :: t in r.ready ==> t !in gone
    requires Distinct(terminated) && forall t :: t in terminated <==> t in r.terminated && t !in gone
    ensures Placed(r.(states := r.states - gone, created := r.created - gone, terminated := terminated))
  {
    var r' := r.(states := r.states - gone, created := r.created - gone, terminated := terminated);
    forall x | x in r'.states ensures LocatedAt(r', x) {
      assert LocatedAt(r, x);
    }
  }

  // ----- reaping -----

  lemma WithoutSnoc(list: seq<Thread>, t: Thread, keep: Thread)
    ensures Without(list + [t], keep) == Without(list, keep) + if t == keep then [] else [t]
    ensures Only(list + [t], keep) == Only(list, keep) + if t == keep then [keep] else []
  {
    assert (list + [t])[..|list|] == list;
  }

  lemma {:induction false} WithoutAbsent(list: seq<Thread>, keep: Thread)
    requires keep !in list
    ensures Without(list, keep) == list && Only(list, keep) == []
    decreases |list|
  {
    hide Without, Only;
    if list == [] {
      WithoutNothing(keep);
    } else {
      var init, last := list[..|list| - 1], list[|list| - 1];
      assert list == init + [last] && last in list;
      WithoutAbsent(init, keep);
      WithoutSnoc(init, last, keep);
    }
  }

  lemma WithoutNothing(keep: Thread)
    ensures Without([], keep) == [] && Only([], keep) == []
  {
  }

  /** Nobody on the terminated queue runs, waits or has a role, so reaping frees all of it. */
  lemma ReapPlaces(r: Roster)
    requires Placed(r)
    ensures Elements(r.terminated) !! {r.current, r.idle, r.bootstrap} && Elements(r.terminated) !! Elements(r.ready)
    ensures Placed(r.(terminated := [], states := r.states - Elements(r.terminated),
                      created := r.created - Elements(r.terminated)))
  {
    FreePlaces(r, Elements(r.terminated), []);
  }

  // ----- counting threads -----

  lemma MemberAdded(threads: set<Thread>, t: Thread, p: Process)
    requires t !in threads
    ensures |Members(threads + {t}, p)| == |Members(threads, p)| + if t.process == p then 1 else 0
  {
    assert Members(threads + {t}, p) == if t.process == p then Members(threads, p) + {t} else Members(threads, p);
  }

  lemma CreateCounts(threads: set<Thread>, g: Registry, t: Thread)
    requires Counted(threads, g) && t !in threads && t.process in g.conditions
    ensures Counted(threads + {t}, g.(counts := g.counts[t.process := g.counts[t.process] + 1]))
  {
    hide Distinct, Listed;
    forall p | p in g.counts ensures |Members(threads + {t}, p)| == g.counts[p] + if t.process == p then 1 else 0 {
      MemberAdded(threads, t, p);
    }
  }

  lemma FreedCounts(threads: set<Thread>, g: Registry, t: Thread)
    requires Counted(threads, g) && t in threads
    ensures Counted(threads - {t}, Uncounted(g, t.process))
    ensures g.counts[t.process] > 0
  {
    hide Distinct, Listed;
    assert threads - {t} + {t} == threads;
    forall p | p in g.counts ensures g.counts[p] == |Members(threads - {t}, p)| + if t.process == p then 1 else 0 {
      MemberAdded(threads - {t}, t, p);
    }
  }

  lemma {:induction false} AllFreedCounts(threads: set<Thread>, g: Registry, list: seq<Thread>)
    requires Counted(threads, g) && Distinct(list) && Elements(list) <= threads
    ensures Counted(threads - Elements(list), AllUncounted(g, list))
    ensures AllUncounted(g, list) == g.(counts := AllUncounted(g, list).counts)
    decreases |list|
  {
    hide Counted, Uncounted;
    if list == [] {
      assert threads - Elements(list) == threads;
    } else {
      var init, last := list[..|list| - 1], list[|list| - 1];
      assert list == init + [last] && Elements(list) == Elements(init) + {last};
      AllFreedCounts(threads, g, init);
      FreedCounts(threads - Elements(init), AllUncounted(g, init), last);
      assert threads - Elements(init) - {last} == threads - Elements(list);
      UncountedShape(AllUncounted(g, init), last.process);
    }
  }

  lemma UncountedShape(g: Registry, p: Process)
    ensures Uncounted(g, p) == g.(counts := Uncounted(g, p).counts) && Uncounted(g, p).counts.Keys == g.counts.Keys
  {
  }

  // ----- processes -----

  lemma {:induction false} DroppedShape(list: seq<Process>, p: Process)
    requires Distinct(list)
    ensures Distinct(Dropped(list, p)) && Listed(Dropped(list, p)) == Listed(list) - {p}
    decreases |list|
  {
    if list != [] {
      var init, last := list[..|list| - 1], list[|list| - 1];
      assert list == init + [last];
      DroppedShape(init, p);
      assert Listed(list) == Listed(init) + {last} && last !in Listed(init);
      assert Listed(Dropped(list, p)) == Listed(Dropped(init, p)) + if last == p then {} else {last};
    }
  }

  lemma UnlistedCounts(threads: set<Thread>, g: Registry, p: Process)
    requires Counted(threads, g) && p in g.counts && g.counts[p] == 0 && p != g.kernel
    ensures Counted(threads, Unlisted(g, p))
  {
    hide Distinct, Listed;
    DroppedShape(g.processes, p);
    forall t | t in threads ensures t.process != p {
      NoMembers(threads, p, t);
    }
  }

  lemma NoMembers(threads: set<Thread>, p: Process, t: Thread)
    requires |Members(threads, p)| == 0 && t in threads
    ensures t.process != p
  {
    assert t.process == p ==> t in Members(threads, p);
  }

  lemma CreatedCounts(threads: set<Thread>, g: Registry, p: Process)
    requires Counted(threads, g) && p !in g.conditions
    ensures var g' := g.(processes := g.processes + [p],
                         conditions := g.conditions[p := Alive],
                         counts := g.counts[p := 0], pids := g.pids[p := g.nextPid],
                         nextPid := if g.nextPid + 1 < PID_LIMIT then g.nextPid + 1 else 0,
                         wrapped := g.wrapped || g.nextPid + 1 == PID_LIMIT);
            Counted(threads, g')
  {
    hide Registered, Members;
    CreatedRegistered(g, p);
    UnknownHasNone(threads, g, p);
  }

  lemma CreatedRegistered(g: Registry, p: Process)
    requires Registered(g) && p !in g.conditions
    ensures Registered(g.(processes := g.processes + [p],
                          conditions := g.conditions[p := Alive],
                          counts := g.counts[p := 0], pids := g.pids[p := g.nextPid],
                          nextPid := if g.nextPid + 1 < PID_LIMIT then g.nextPid + 1 else 0,
                          wrapped := g.wrapped || g.nextPid + 1 == PID_LIMIT))
    ensures g.counts.Keys <= g.conditions.Keys
  {
    assert p !in Listed(g.processes);
    assert Listed(g.processes + [p]) == Listed(g.processes) + {p};
  }

  lemma UnknownHasNone(threads: set<Thread>, g: Registry, p: Process)
    requires Counted(threads, g) && p !in g.conditions
    ensures Members(threads, p) == {}
  {
    hide Registered;
  }

  // ----- address spaces -----

  lemma UnmappedSeparate(m: Mapping, p: Process)
    requires Separate(m) && p in m.spaceOf && m.spaceOf[p] != m.active
    ensures Separate(Unmapped(m, p)) && Unmapped(m, p).live == m.live - {m.spaceOf[p]}
  {
    var m' := Unmapped(m, p);
    forall x ensures x in m'.live <==> x in m'.spaceOf.Values {
      if x in m'.live {
        var q: Process :| q in m.spaceOf && m.spaceOf[q] == x;
        assert q in m'.spaceOf && m'.spaceOf[q] == x;
      }
    }
  }

  lemma CreatedSeparate(m: Mapping, p: Process, space: Space)
    requires Separate(m) && p !in m.spaceOf && space !in m.live
    ensures Separate(m.(spaceOf := m.spaceOf[p := space], live := m.live + {space}))
  {
    var spaceOf := m.spaceOf[p := space];
    forall q | q in m.spaceOf ensures m.spaceOf[q] in m.live && m.spaceOf[q] != space {
      assert m.spaceOf[q] in m.spaceOf.Values;
    }
    forall x ensures x in m.live + {space} <==> x in spaceOf.Values {
      if x in m.live {
        var q: Process :| q in m.spaceOf && m.spaceOf[q] == x;
        assert spaceOf[q] == x;
      } else if x == space {
        assert spaceOf[p] == x;
      }
    }
  }

  lemma MovedAttuned(current: Thread, m: Mapping, next: Thread)
    requires Attuned(current, m) && next.process in m.spaceOf
    ensures Attuned(next, Moved(m, current, next)) && Moved(m, current, next).spaceOf == m.spaceOf
  {
  }

  // ----- the steps -----

  /** The outgoing thread's process is listed, and so is the next one's. */
  lemma HandoverKeeps(s: System, s0: System, back: bool)
    requires Inv(s0) && MayLeave(s.threads, back) && s.threads.states.Keys == s0.threads.states.Keys
    requires s.registry == s0.registry && s.mapping == s0.mapping && s.threads.current == s0.threads.current
    requires s.threads.idle == s0.threads.idle && s.threads.bootstrap == s0.threads.bootstrap
    ensures Inv(HandedOver(s, back))
    ensures HandedOver(s, back).threads.states.Keys == s0.threads.states.Keys
    ensures HandedOver(s, back).registry == s0.registry
  {
    hide Placed, Attuned, MayLeave, Moved, Handover, Counted, NextThread;
    var next := NextThread(s.threads);
    InvParts(s0);
    HandoverPlaces(s.threads, back);
    NextExists(s.threads, back);
    ListedThreads(s0.threads.states.Keys, s0.registry);
    MovedAttuned(s.threads.current, s.mapping, next);
  }

  lemma ListedThreads(threads: set<Thread>, g: Registry)
    requires Counted(threads, g)
    ensures forall t :: t in threads ==> t.process in g.conditions
  {
  }

  lemma NextExists(r: Roster, back: bool)
    requires MayLeave(r, back)
    ensures NextThread(r) in r.states && r.current in r.states
    ensures var r' := Handover(r, back);
            && r'.states.Keys == r.states.Keys && r'.current == NextThread(r)
            && r'.idle == r.idle && r'.bootstrap == r.bootstrap
  {
    assert Handover(r, back).states.Keys == r.states.Keys;
  }

  /** The invariant survives blocking unless the idle thread blocks while another is ready: it is to stand by, ready or
      running. */
  lemma BlockKeepsIff(s: System)
    requires Inv(s)
    ensures Inv(Block(s)) <==> s.threads.current != s.threads.idle || s.threads.ready == []
  {
    hide Inv, Placed, MayLeave;
    InvParts(s);
    var r := s.threads;
    CurrentExists(r);
    if r.current != r.idle {
      BlockMayLeave(r);
      HandoverKeeps(s.(threads := r.(states := r.states[r.current := Blocked])), s, false);
    } else {
      IdleBlocks(s);
    }
  }

  /** The idle thread follows itself when none is ready, and otherwise is left blocked. */
  lemma IdleBlocks(s: System)
    requires Inv(s) && s.threads.current == s.threads.idle
    ensures if s.threads.ready == [] then Block(s) == s else !Inv(Block(s))
  {
    hide Counted, Attuned, Located;
  }

  lemma InvParts(s: System)
    requires Inv(s)
    ensures Placed(s.threads) && Counted(s.threads.states.Keys, s.registry) && Attuned(s.threads.current, s.mapping)
    ensures s.mapping.spaceOf.Keys == s.registry.conditions.Keys && s.registry.kernel in s.registry.conditions
    ensures s.threads.idle.process == s.threads.bootstrap.process == s.registry.kernel
    ensures s.registry.conditions[s.registry.kernel] == Alive
    ensures s.registry.conditions.Keys == s.registry.counts.Keys == s.registry.pids.Keys
  {
  }

  lemma CurrentExists(r: Roster)
    requires Placed(r)
    ensures r.current in r.states && r.idle in r.states && r.bootstrap in r.states && r.states[r.current] == Running
    ensures r.current !in r.ready && r.current !in r.terminated
  {
  }

  lemma TerminateKeeps(s: System)
    requires Inv(s)
    ensures Inv(Terminate(s))
  {
    hide Inv, Placed, MayLeave;
    InvParts(s);
    var r := s.threads;
    CurrentExists(r);
    if r.current != r.bootstrap && r.current != r.idle {
      TerminateMayLeave(r);
      HandoverKeeps(s.(threads := Retired(r, r.current)), s, false);
    }
  }

  lemma DispatchKeeps(s: System)
    requires Inv(s)
    ensures Inv(HandedOver(s, GoesBack(s.threads)))
    ensures var r' := HandedOver(s, GoesBack(s.threads)).threads;
            r'.terminated == s.threads.terminated && s.threads.current !in r'.terminated
  {
    hide Inv, Placed, MayLeave, GoesBack;
    InvParts(s);
    TickMayLeave(s.threads);
    HandoverKeeps(s, s, GoesBack(s.threads));
  }

  lemma YieldKeeps(s: System)
    requires Inv(s)
    ensures Inv(Yield(s))
  {
    hide Inv, HandedOver;
    DispatchKeeps(s);
  }

  lemma UnblockKeeps(s: System, t: Thread)
    requires Inv(s) && t in s.threads.states
    ensures Inv(Unblock(s, t))
  {
    hide Placed, Counted, Attuned, Enqueued, Retired;
    InvParts(s);
    if s.threads.states[t] == Blocked {
      UnblockPlaces(s.threads, t);
      QueueFields(s.threads, t);
    }
  }

  /** The queues' operations touch nothing but states and queues. */
  lemma QueueFields(r: Roster, t: Thread)
    requires t in r.states
    ensures Enqueued(r, t).states.Keys == r.states.Keys == Retired(r, t).states.Keys
    ensures Enqueued(r, t).current == r.current == Retired(r, t).current
    ensures Enqueued(r, t).idle == r.idle == Retired(r, t).idle
    ensures Enqueued(r, t).bootstrap == r.bootstrap == Retired(r, t).bootstrap
  {
  }

  lemma CreateThreadKeeps(s: System, t: Thread)
    requires Inv(s) && t !in s.threads.states && t.process in s.registry.conditions
    ensures Inv(CreateThread(s, t))
  {
    hide Placed, Counted, Attuned;
    InvParts(s);
    if s.registry.conditions[t.process] == Alive {
      CreatePlaces(s.threads, t);
      CreateCounts(s.threads.states.Keys, s.registry, t);
      assert s.threads.states[t := Ready].Keys == s.threads.states.Keys + {t};
    }
  }

  /** A new thread enters the ready queue. */
  lemma AdmitKeeps(s: System, t: Thread)
    requires Inv(s) && t in s.threads.created
    ensures Inv(Admit(s, t))
  {
    hide Counted, Attuned;
    AdmitPlaces(s.threads, t);
    QueueFields(s.threads, t);
  }

  /** `thread_destroy` refuses the threads with a role. */
  ghost predicate HasRole(r: Roster, t: Thread) {
    t == r.current || t == r.bootstrap || t == r.idle
  }

  /** Destroying a thread from outside keeps the invariant exactly if it has a role, and so is left alone, or stands in
      neither queue: one that is queued would be freed where the queue still points to it. */
  lemma DestroyThreadKeepsIff(s: System, t: Thread)
    requires Inv(s) && t in s.threads.states
    ensures Inv(DestroyThread(s, t))
            <==> HasRole(s.threads, t) || (t !in s.threads.ready && t !in s.threads.terminated)
  {
    hide Inv;
    if !HasRole(s.threads, t) {
      if t in s.threads.ready || t in s.threads.terminated {
        QueuedGone(s, t);
      } else {
        DestroyThreadKeeps(s, t);
      }
    }
  }

  lemma QueuedGone(s: System, t: Thread)
    requires !HasRole(s.threads, t) && (t in s.threads.ready || t in s.threads.terminated)
    ensures !Inv(DestroyThread(s, t))
  {
    hide Counted, Attuned, Uncounted, Located;
  }

  lemma DestroyThreadKeeps(s: System, t: Thread)
    requires Inv(s) && t in s.threads.states && !HasRole(s.threads, t)
    requires t !in s.threads.ready && t !in s.threads.terminated
    ensures Inv(DestroyThread(s, t))
  {
    hide Counted, Attuned, Uncounted, Located;
    var r := s.threads;
    FreePlaces(r, {t}, r.terminated);
    FreedCounts(r.states.Keys, s.registry, t);
    UncountedShape(s.registry, t.process);
    assert (r.states - {t}).Keys == r.states.Keys - {t};
  }

  // ----- the tick -----

  /** Reaping leaves the terminated queue empty and frees none of the threads in use. */
  lemma ReapKeeps(s: System, keep: Thread)
    requires Inv(s) && keep !in s.threads.terminated
    ensures Inv(ThreadsReaped(s, keep)) && ThreadsReaped(s, keep).threads.terminated == []
    ensures ThreadsReaped(s, keep).threads.states.Keys == s.threads.states.Keys - Elements(s.threads.terminated)
  {
    hide Placed, Counted, Attuned, AllUncounted, Without, Only, Elements;
    InvParts(s);
    var r := s.threads;
    WithoutAbsent(r.terminated, keep);
    ReapPlaces(r);
    TerminatedExist(r);
    AllFreedCounts(r.states.Keys, s.registry, r.terminated);
    assert (r.states - Elements(r.terminated)).Keys == r.states.Keys - Elements(r.terminated);
  }

  lemma TerminatedExist(r: Roster)
    requires Placed(r)
    ensures Elements(r.terminated) <= r.states.Keys && Distinct(r.terminated)
  {
  }

  /** A process without threads is not the current one, so its address space is not the active one. */
  lemma GoneKeeps(s: System, p: Process)
    requires Inv(s) && Reapable(s, p)
    ensures Inv(Gone(s, p)) && Gone(s, p).mapping.live == s.mapping.live - {s.mapping.spaceOf[p]}
    ensures p in s.mapping.spaceOf && s.mapping.spaceOf[p] != s.mapping.active
  {
    hide Placed, Counted, Unlisted, Unmapped;
    InvParts(s);
    UnlistedCounts(s.threads.states.Keys, s.registry, p);
    UnmappedSeparate(s.mapping, p);
    UnlistedFields(s, p);
  }

  lemma UnlistedFields(s: System, p: Process)
    ensures Unlisted(s.registry, p).conditions == s.registry.conditions - {p}
    ensures Unlisted(s.registry, p).kernel == s.registry.kernel
    ensures Unmapped(s.mapping, p).spaceOf == s.mapping.spaceOf - {p}
    ensures Unmapped(s.mapping, p).process == s.mapping.process && Unmapped(s.mapping, p).active == s.mapping.active
  {
  }

  /** Nothing reapable is left among the processes visited. */
  lemma {:induction false} ProcessesReapedKeeps(s: System, list: seq<Process>)
    requires Inv(s)
    ensures var s' := ProcessesReaped(s, list);
            && Inv(s') && s'.threads == s.threads && s'.mapping.process == s.mapping.process
            && s'.registry.kernel == s.registry.kernel
            && (forall p :: p in list ==> !Reapable(s', p))
            && (forall p :: p in s'.registry.conditions ==> p in s.registry.conditions)
    decreases |list|
  {
    hide Inv, Gone, Reapable;
    if list != [] {
      var init, last := list[..|list| - 1], list[|list| - 1];
      assert list == init + [last];
      ProcessesReapedKeeps(s, init);
      var s' := ProcessesReaped(s, init);
      if Reapable(s', last) {
        GoneKeeps(s', last);
        GoneReapables(s', last);
      }
    }
  }

  lemma GoneReapables(s: System, p: Process)
    requires Inv(s)
    ensures forall q :: Reapable(Gone(s, p), q) <==> Reapable(s, q) && q != p
    ensures forall q :: q in Gone(s, p).registry.conditions ==> q in s.registry.conditions
    ensures Gone(s, p).threads == s.threads && Gone(s, p).mapping.process == s.mapping.process
    ensures Gone(s, p).registry.kernel == s.registry.kernel
  {
  }

  /** The tick keeps the invariant, leaves no thread to be freed and no ended process without a thread. */
  lemma TickKeeps(s: System)
    requires Inv(s)
    ensures Inv(Tick(s))
    ensures Tick(s).threads.terminated == []
    ensures forall p :: p in Tick(s).registry.conditions && Tick(s).registry.conditions[p] == Dead ==>
              Tick(s).registry.counts[p] > 0
  {
    hide *;
    DispatchKeeps(s);
    var s1 := HandedOver(s, GoesBack(s.threads));
    ReapKeeps(s1, s.threads.current);
    var s2 := ThreadsReaped(s1, s.threads.current);
    ProcessesReapedKeeps(s2, s2.registry.processes);
    TickSteps(s);
    InvParts(s2);
    InvParts(Tick(s));
    CurrentIsCounted(Tick(s));
    NoneReapable(s2, Tick(s));
  }

  lemma TickSteps(s: System)
    ensures var s2 := ThreadsReaped(HandedOver(s, GoesBack(s.threads)), s.threads.current);
            Tick(s) == ProcessesReaped(s2, s2.registry.processes)
  {
  }

  lemma NoneReapable(s: System, s': System)
    requires Counted(s.threads.states.Keys, s.registry) && s'.registry.conditions.Keys == s'.registry.counts.Keys
    requires forall p :: p in s'.registry.conditions ==> p in s.registry.conditions
    requires forall p :: p in s.registry.processes ==> !Reapable(s', p)
    requires s'.mapping.process != null && s'.mapping.process in s'.registry.counts
             && s'.registry.counts[s'.mapping.process] > 0
    requires s'.registry.kernel in s'.registry.conditions && s'.registry.conditions[s'.registry.kernel] == Alive
    ensures forall p :: p in s'.registry.conditions && s'.registry.conditions[p] == Dead ==> s'.registry.counts[p] > 0
  {
    forall p | p in s'.registry.conditions && s'.registry.conditions[p] == Dead ensures s'.registry.counts[p] > 0 {
      assert p in Listed(s.registry.processes);
    }
  }

  /** The current process counts the current thread. */
  lemma CurrentIsCounted(s: System)
    requires Inv(s)
    ensures s.mapping.process != null && s.mapping.process in s.registry.counts
    ensures s.registry.counts[s.mapping.process] > 0
  {
    hide Located, Queued;
    var p := s.threads.current.process;
    assert s.threads.current in Members(s.threads.states.Keys, p);
    assert s.registry.counts[p] == |Members(s.threads.states.Keys, p)|;
  }

  // ----- ending, creating and destroying processes -----

  /** Purging splits the queue in two without repeating anything. */
  lemma {:induction false} PurgeShape(queue: seq<Thread>, p: Process, current: Thread)
    requires Distinct(queue)
    ensures Distinct(Survivors(queue, p, current)) && Distinct(Victims(queue, p, current))
    ensures forall t :: t in Survivors(queue, p, current) <==> t in queue && !Doomed(t, p, current)
    ensures forall t :: t in Victims(queue, p, current) <==> t in queue && Doomed(t, p, current)
    decreases |queue|
  {
    if queue != [] {
      var init, last := queue[..|queue| - 1], queue[|queue| - 1];
      assert queue == init + [last] && last !in init;
      PurgeShape(init, p, current);
    }
  }

  lemma JoinDistinct(a: seq<Thread>, b: seq<Thread>)
    requires Distinct(a) && Distinct(b) && forall t :: t in a ==> t !in b
    ensures Distinct(a + b)
  {
    forall i, j | 0 <= i < j < |a + b| ensures (a + b)[i] != (a + b)[j] {
      assert i < |a| ==> (a + b)[i] in a;
      assert j >= |a| ==> (a + b)[j] in b;
    }
  }

  /** Only threads that wait in the ready queue are purged, never the bootstrap or the idle thread. */
  lemma PurgePlaces(r: Roster, p: Process)
    requires Placed(r) && r.bootstrap.process != p
    ensures Placed(Purged(r, p))
    ensures Purged(r, p).states.Keys == r.states.Keys
  {
    hide Victims, Survivors;
    PurgeShape(r.ready, p, r.current);
    var victims, r' := Victims(r.ready, p, r.current), Purged(r, p);
    JoinDistinct(r.terminated, victims);
    forall t | t in r'.states ensures t in r.states && LocatedAt(r', t) {
      assert LocatedAt(r, t);
    }
    assert Roles(r');
    assert Queued(r');
  }

  lemma ExitBeginsKeeps(s: System, p: Process)
    requires Inv(s) && p in s.registry.conditions
    ensures Inv(ExitBegins(s, p))
    ensures p != s.registry.kernel ==> ExitBegins(s, p).registry.conditions[p] == Dead
    ensures p != s.registry.kernel ==>
              forall t :: t in ExitBegins(s, p).threads.ready ==> t.process != p || t == s.threads.current
  {
    hide Placed, Attuned, Counted, Victims, Survivors, Ended, Distinct;
    InvParts(s);
    if p != s.registry.kernel {
      DeadCounts(s.threads.states.Keys, s.registry, p);
      PurgePlaces(s.threads, p);
      QueueIsDistinct(s.threads);
      PurgeShape(s.threads.ready, p, s.threads.current);
      forall t | t in ExitBegins(s, p).threads.ready ensures t.process != p || t == s.threads.current {
        assert t in Survivors(s.threads.ready, p, s.threads.current);
        assert !Doomed(t, p, s.threads.current);
      }
    }
  }

  lemma DeadCounts(threads: set<Thread>, g: Registry, p: Process)
    requires Counted(threads, g) && p in g.conditions && p != g.kernel
    ensures Counted(threads, g.(conditions := g.conditions[p := Dead]))
  {
    hide Distinct, Members;
  }

  lemma QueueIsDistinct(r: Roster)
    requires Placed(r)
    ensures Distinct(r.ready)
  {
  }

  lemma ExitEndsKeeps(s: System, p: Process)
    requires Inv(s)
    ensures Inv(ExitEnds(s, p))
  {
    hide Inv, Terminate;
    TerminateKeeps(s);
  }

  lemma CreateProcessKeeps(s: System, p: Process, space: Space)
    requires Inv(s) && p !in s.registry.conditions && space !in s.mapping.live
    ensures Inv(CreateProcess(s, p, space))
  {
    hide Placed, Counted, Separate;
    InvParts(s);
    CreatedCounts(s.threads.states.Keys, s.registry, p);
    CreatedSeparate(s.mapping, p, space);
  }

  lemma DestroyProcessKeeps(s: System, p: Process)
    requires Inv(s) && p in s.registry.conditions
    ensures Inv(DestroyProcess(s, p))
    ensures p != s.registry.kernel && s.registry.counts[p] == 0 ==> p != s.mapping.process
  {
    hide Placed, Counted, Unlisted, Unmapped;
    InvParts(s);
    if p != s.registry.kernel && s.registry.counts[p] == 0 {
      CurrentIsCounted(s);
      UnlistedCounts(s.threads.states.Keys, s.registry, p);
      UnmappedSeparate(s.mapping, p);
      UnlistedFields(s, p);
    }
  }

  // ----- the first state -----

  /** After `process_init` and `thread_init`: the kernel process with the bootstrap thread, which runs, and the idle
      thread. */
  ghost function Booted(kernel: Process, bootstrap: Thread, idle: Thread, space: Space): System {
    System(Roster(map[bootstrap := Running, idle := Ready], [], [], {}, bootstrap, idle, bootstrap),
           Registry([kernel], map[kernel := Alive], map[kernel := 2], map[kernel := 0], kernel, 2, false),
           Mapping(map[kernel := space], {space}, kernel, space))
  }

  lemma BootedHolds(kernel: Process, bootstrap: Thread, idle: Thread, space: Space)
    requires bootstrap != idle && bootstrap.process == idle.process == kernel
    ensures Inv(Booted(kernel, bootstrap, idle, space))
  {
    var s := Booted(kernel, bootstrap, idle, space);
    assert s.threads.states.Keys == {bootstrap, idle};
    assert Members({bootstrap, idle}, kernel) == {bootstrap, idle};
    assert Listed([kernel]) == {kernel};
    assert s.mapping.spaceOf.Values == {space} by {
      assert s.mapping.spaceOf[kernel] == space;
    }
  }
}
