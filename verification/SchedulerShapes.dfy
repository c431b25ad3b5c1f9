/** What the pointers and fields of threads and processes must look like, as values, and how the routines that relink
    them change it. */
module SchedulerShapes {
  import opened Tasks
  import opened Systems
  import opened LinkedLists
  import opened ThreadQueues
  import opened ProcessLists
  import opened SchedulerLaws

  // ----- fields as recorded -----

  ghost predicate NextsAre(links: ThreadLinks)
    reads links.Keys`next
  {
    forall t :: t in links ==> t.next == links[t]
  }

  ghost predicate StatesAre(states: map<Thread, ThreadState>)
    reads states.Keys`state
  {
    forall t :: t in states ==> t.state == states[t]
  }

  ghost predicate ConditionsAre(conditions: map<Process, ProcessState>)
    reads conditions.Keys`state
  {
    forall p :: p in conditions ==> p.state == conditions[p]
  }

  ghost predicate CountsAre(counts: map<Process, nat>)
    reads counts.Keys`threadCount
  {
    forall p :: p in counts ==> p.threadCount == counts[p]
  }

  ghost predicate ProcessNextsAre(links: ProcessLinks)
    reads links.Keys`next
  {
    forall p :: p in links ==> p.next == links[p]
  }

  /** With one process less the fields are still as recorded. */
  lemma WithoutProcess(links: ProcessLinks, g: Registry, p: Process)
    requires ProcessNextsAre(links) && ConditionsAre(g.conditions) && CountsAre(g.counts)
    ensures ProcessNextsAre(links - {p}) && ConditionsAre(Unlisted(g, p).conditions) && CountsAre(Unlisted(g, p).counts)
  {
  }

  method SetNext(t: Thread, next: Thread?, ghost links: ThreadLinks)
    requires NextsAre(links)
    modifies t`next
    ensures NextsAre(links[t := next])
  {
    t.next := next;
  }

  method SetState(t: Thread, state: ThreadState, ghost states: map<Thread, ThreadState>)
    requires StatesAre(states)
    modifies t`state
    ensures StatesAre(states[t := state])
  {
    t.state := state;
  }

  /** A new thread's fields are as recorded. */
  lemma WithThread(u: Queues, r: Roster, t: Thread)
    requires NextsAre(u.links) && StatesAre(r.states) && t.next == null && t.state == Ready
    ensures NextsAre(u.links[t := null]) && StatesAre(Adopted(r, t).states)
  {
  }

  /** A new process's fields are as recorded. */
  lemma LinkNew(links: ProcessLinks, p: Process)
    requires ProcessNextsAre(links) && p.next == null
    ensures ProcessNextsAre(links[p := null])
  {
  }

  lemma WithProcess(g: Registry, p: Process)
    requires ConditionsAre(g.conditions) && CountsAre(g.counts) && p.state == Alive && p.threadCount == 0
    ensures ConditionsAre(g.conditions[p := Alive]) && CountsAre(g.counts[p := 0])
  {
  }

  method SetProcessNext(p: Process, next: Process?, ghost links: ProcessLinks)
    requires ProcessNextsAre(links)
    modifies p`next
    ensures ProcessNextsAre(links[p := next])
  {
    p.next := next;
  }

  // ----- threads -----

  /** The two queues hold what the roster says, over the threads that exist. */
  ghost predicate QueuesSound(u: Queues, r: Roster) {
    && QueuesOk(u) && u.ready == r.ready && u.terminated == r.terminated && u.links.Keys == r.states.Keys
    && r.current in r.states && r.idle in r.states && r.bootstrap in r.states
  }

  /** The roles of the threads. */
  ghost predicate SameRoles(r: Roster, r': Roster) {
    && r'.states.Keys == r.states.Keys && r'.created == r.created
    && r'.current == r.current && r'.idle == r.idle && r'.bootstrap == r.bootstrap
  }

  lemma EnqueueSound(u: Queues, r: Roster, t: Thread)
    requires QueuesSound(u, r) && t in r.states && t !in r.ready && t !in r.terminated
    ensures QueuesSound(PushReady(u, t), Enqueued(r, t)) && SameRoles(r, Enqueued(r, t))
    ensures Enqueued(r, t).states == r.states[t := Ready]
    ensures r.states.Keys == u.links.Keys && (u.readyTail != null ==> u.readyTail in u.links)
    ensures PushReady(u, t).terminatedHead == u.terminatedHead && PushReady(u, t).terminatedTail == u.terminatedTail
  {
    hide QueuesOk;
    TailsExist(u);
    PushReadyOk(u, t);
    assert r.states[t := Ready].Keys == r.states.Keys;
  }

  lemma RetireSound(u: Queues, r: Roster, t: Thread)
    requires QueuesSound(u, r) && t in r.states && t !in r.ready && t !in r.terminated
    ensures QueuesSound(PushTerminated(u, t), Retired(r, t)) && SameRoles(r, Retired(r, t))
    ensures Retired(r, t).states == r.states[t := Terminated]
    ensures r.states.Keys == u.links.Keys && (u.terminatedTail != null ==> u.terminatedTail in u.links)
    ensures PushTerminated(u, t).readyHead == u.readyHead && PushTerminated(u, t).readyTail == u.readyTail
  {
    hide QueuesOk;
    TailsExist(u);
    PushTerminatedOk(u, t);
    assert r.states[t := Terminated].Keys == r.states.Keys;
  }

  lemma DequeueSound(u: Queues, r: Roster)
    requires QueuesSound(u, r)
    ensures u.readyHead == FirstThread(r.ready) && r.states.Keys == u.links.Keys
    ensures u.readyHead != null ==>
              && u.readyHead in u.links && QueuesSound(PopReady(u), r.(ready := Rest(r.ready)))
              && u.readyHead !in Rest(r.ready) && u.readyHead !in r.terminated
              && PopReady(u).terminatedHead == u.terminatedHead && PopReady(u).terminatedTail == u.terminatedTail
  {
    hide QueuesOk;
    TailsExist(u);
    if u.readyHead != null {
      PopReadyOk(u);
    }
  }

  lemma PurgeSound(u: Queues, r: Roster, kept: seq<Thread>, x: Thread, rest: seq<Thread>)
    requires QueuesSound(u, r) && r.ready == kept + [x] + rest
    ensures x in u.links && u.links[x] == FirstThread(rest) && x !in kept + rest && x !in r.terminated
    ensures r.states.Keys == u.links.Keys && (kept != [] ==> kept[|kept| - 1] in u.links)
    ensures QueuesSound(CutReady(u, kept, x, rest), r.(ready := kept + rest))
  {
    hide QueuesOk;
    CutReadyOk(u, kept, x, rest);
  }

  lemma CutTerminatedSound(u: Queues, r: Roster, kept: seq<Thread>, x: Thread, rest: seq<Thread>)
    requires QueuesSound(u, r) && r.terminated == kept + [x] + rest
    ensures x in u.links && u.links[x] == FirstThread(rest) && x !in kept + rest && x !in r.ready
    ensures r.states.Keys == u.links.Keys && (kept != [] ==> kept[|kept| - 1] in u.links)
    ensures QueuesSound(CutTerminated(u, kept, x, rest), r.(terminated := kept + rest))
  {
    hide QueuesOk;
    CutTerminatedOk(u, kept, x, rest);
  }

  /** A thread in no queue and without a role is freed. */
  ghost function Forgotten(r: Roster, t: Thread): Roster {
    r.(states := r.states - {t}, created := r.created - {t})
  }

  lemma ForgottenSound(u: Queues, r: Roster, t: Thread)
    requires QueuesSound(u, r) && t !in r.ready && t !in r.terminated && t != r.current && t != r.idle
    requires t != r.bootstrap
    ensures QueuesSound(u.(links := u.links - {t}), Forgotten(r, t))
  {
    hide QueuesOk;
    FreedOk(u, t);
  }

  lemma TerminatedHeadIs(u: Queues, r: Roster)
    requires QueuesSound(u, r)
    ensures u.terminatedHead == FirstThread(r.terminated) && u.links.Keys == r.states.Keys
  {
    ChainEnds(u.links, u.terminatedHead, u.terminatedTail, u.terminated);
  }

  // ----- reaping threads, one at a time -----

  /** The first `i` threads of the terminated queue have been visited. */
  ghost function ReapedTo(s: System, keep: Thread, i: nat): System
    requires i <= |s.threads.terminated|
  {
    var q := s.threads.terminated;
    var gone := Without(q[..i], keep);
    System(s.threads.(terminated := Only(q[..i], keep) + q[i..], states := s.threads.states - Elements(gone),
                      created := s.threads.created - Elements(gone)),
           AllUncounted(s.registry, gone), s.mapping)
  }

  lemma ReapedEnds(s: System, keep: Thread)
    ensures ReapedTo(s, keep, 0) == s
    ensures ReapedTo(s, keep, |s.threads.terminated|) == ThreadsReaped(s, keep)
  {
    var q := s.threads.terminated;
    assert q[..0] == [] && q[0..] == q && q[..|q|] == q && q[|q|..] == [];
    assert s.threads.states - Elements([]) == s.threads.states && s.threads.created - Elements([]) == s.threads.created;
    assert Only(q, keep) + [] == Only(q, keep) && [] + q == q;
  }

  lemma ReapedRoles(s: System, keep: Thread, i: nat)
    requires i <= |s.threads.terminated|
    ensures var r := ReapedTo(s, keep, i).threads;
            r.current == s.threads.current && r.idle == s.threads.idle && r.bootstrap == s.threads.bootstrap
  {
  }

  lemma OnlyNothing(q: seq<Thread>, keep: Thread)
    ensures Only(q[..0], keep) == [] && q[0..] == q
  {
  }

  /** What freeing thread `t`, between `kept` and `rest`, does. */
  ghost function OneReaped(s: System, t: Thread, kept: seq<Thread>, rest: seq<Thread>): System {
    System(Forgotten(s.threads.(terminated := kept + rest), t), Uncounted(s.registry, t.process), s.mapping)
  }

  lemma ReapedStep(s: System, keep: Thread, i: nat)
    requires i < |s.threads.terminated|
    ensures var q := s.threads.terminated;
            var t, kept, rest := q[i], Only(q[..i], keep), q[i + 1..];
            && ReapedTo(s, keep, i).threads.terminated == kept + [t] + rest
            && Only(q[..i + 1], keep) == kept + (if t == keep then [t] else [])
            && ReapedTo(s, keep, i + 1)
               == if t == keep then ReapedTo(s, keep, i) else OneReaped(ReapedTo(s, keep, i), t, kept, rest)
  {
    var q := s.threads.terminated;
    var t, kept, rest := q[i], Only(q[..i], keep), q[i + 1..];
    var gone := Without(q[..i], keep);
    assert q[..i + 1][..i] == q[..i] && q[i..] == [t] + rest;
    assert kept + q[i..] == kept + [t] + rest;
    if t == keep {
      assert gone + [] == gone;
    } else {
      assert kept + [] == kept;
      assert Elements(gone + [t]) == Elements(gone) + {t};
      assert (gone + [t])[..|gone|] == gone;
      assert s.threads.states - (Elements(gone) + {t}) == s.threads.states - Elements(gone) - {t};
      assert s.threads.created - (Elements(gone) + {t}) == s.threads.created - Elements(gone) - {t};
    }
  }

  // ----- processes -----

  /** The process list holds what the registry says. */
  ghost predicate ListSound(l: ProcessList, g: Registry, m: Mapping) {
    && ListOk(l) && l.list == g.processes
    && l.links.Keys == g.conditions.Keys == g.counts.Keys
    && l.links.Keys == g.pids.Keys == m.spaceOf.Keys
    && g.kernel in g.conditions
    && (forall p :: p in g.pids ==> g.pids[p] == p.pid)
    && (forall p :: p in m.spaceOf ==> m.spaceOf[p] == p.space)
  }

  lemma UncountedSound(l: ProcessList, g: Registry, m: Mapping, p: Process)
    requires ListSound(l, g, m) && p in g.conditions
    ensures ListSound(l, Uncounted(g, p), m) && p in g.counts
    ensures Uncounted(g, p).counts == if g.counts[p] > 0 then g.counts[p := g.counts[p] - 1] else g.counts
    ensures Uncounted(g, p) == g.(counts := Uncounted(g, p).counts)
  {
    hide ListOk;
    assert g.counts[p] > 0 ==> g.counts[p := g.counts[p] - 1].Keys == g.counts.Keys;
  }

  /** `p`, between `before` and `rest`, leaves the list. */
  lemma UnlistSound(l: ProcessList, g: Registry, m: Mapping, before: seq<Process>, p: Process, rest: seq<Process>)
    requires ListSound(l, g, m) && l.list == before + [p] + rest && p != g.kernel
    ensures p in l.links && l.links[p] == FirstProcess(rest)
    ensures before != [] ==> before[|before| - 1] in l.links
    ensures ListSound(CutProcess(l, before, p, rest), Unlisted(g, p), Unmapped(m, p))
    ensures Unlisted(g, p).processes == before + rest && CutProcess(l, before, p, rest).list == before + rest
    ensures Unlisted(g, p).kernel == g.kernel && Unlisted(g, p).nextPid == g.nextPid
    ensures Unmapped(m, p).process == m.process && Unmapped(m, p).active == m.active
    ensures CutProcess(l, before, p, rest).head == if before == [] then l.links[p] else l.head
    ensures CutProcess(l, before, p, rest).tail == if l.tail == p then LastProcess(before) else l.tail
    ensures CutProcess(l, before, p, rest).links
            == (if before == [] then l.links else l.links[before[|before| - 1] := l.links[p]]) - {p}
  {
    hide ListOk, Dropped;
    CutProcessOk(l, before, p, rest);
  }

  /** The position of a process in the list. */
  lemma ListedAt(l: ProcessList, g: Registry, m: Mapping, p: Process) returns (k: nat)
    requires ListSound(l, g, m) && p in g.conditions
    ensures k < |l.list| && l.list[k] == p
  {
    assert p in Listed(l.list);
    k :| k < |l.list| && l.list[k] == p;
  }

  lemma ListHead(l: ProcessList, g: Registry, m: Mapping)
    requires ListSound(l, g, m)
    ensures l.head == FirstProcess(l.list)
    ensures forall i :: 0 <= i < |l.list| ==> l.list[i] in l.links && l.list[i] in g.conditions
    ensures forall i :: 0 <= i < |l.list| ==> l.links[l.list[i]] == FirstProcess(l.list[i + 1..])
    ensures forall i, j :: 0 <= i < j < |l.list| ==> l.list[i] != l.list[j]
    ensures g.counts.Keys == g.conditions.Keys == l.links.Keys
    ensures ListSound(l, g, m.(process := null))
  {
    forall i | 0 <= i < |l.list|
      ensures l.list[i] in l.links && l.list[i] in g.conditions && l.links[l.list[i]] == FirstProcess(l.list[i + 1..])
    {
      assert l.links[l.list[i]] == After(l.list, i);
      assert l.list[i] in Listed(l.list);
    }
  }

  lemma SplitAt(q: seq<Process>, k: nat)
    requires k < |q|
    ensures q == q[..k] + [q[k]] + q[k + 1..]
  {
  }

  /** Nothing counts on a process without threads. */
  lemma Unneeded(s: System, p: Process)
    requires Inv(s) && p in s.registry.counts && s.registry.counts[p] == 0
    ensures forall t :: t in s.threads.states ==> t.process != p
  {
    hide Placed, Attuned, Registered;
    forall t | t in s.threads.states ensures t.process != p {
      NoMembers(s.threads.states.Keys, p, t);
    }
  }

  lemma UnlistedConditions(g: Registry, p: Process)
    ensures Unlisted(g, p).conditions == g.conditions - {p}
  {
  }

  lemma ReapableFacts(s: System, p: Process)
    requires Reapable(s, p)
    ensures p in s.registry.counts && s.registry.counts[p] == 0
  {
  }

  lemma ReapedProcessesEnds(s: System, list: seq<Process>)
    ensures ProcessesReaped(s, list[..0]) == s && list[..|list|] == list && list[0..] == list
    ensures [] + list == list && FirstProcess(list[|list|..]) == null
    ensures forall i :: 0 <= i < |list| ==> FirstProcess(list[i..]) != null
  {
  }

  lemma ReapedProcessesStep(s: System, list: seq<Process>, i: nat)
    requires i < |list|
    ensures var s', p := ProcessesReaped(s, list[..i]), list[i];
            ProcessesReaped(s, list[..i + 1]) == if Reapable(s', p) then Gone(s', p) else s'
  {
    assert list[..i + 1][..i] == list[..i];
  }

  /** The next process, and what is left when this one goes. */
  lemma ListPlace(l: ProcessList, g: Registry, m: Mapping, kept: seq<Process>, p: Process, rest: seq<Process>)
    requires ListSound(l, g, m) && g.processes == kept + [p] + rest
    ensures p in l.links && p in g.conditions && l.links[p] == FirstProcess(rest) && l.list == g.processes
    ensures Dropped(g.processes, p) == kept + rest
    ensures p in g.counts
  {
    hide Dropped, ListOk, ListSound;
    ListHead(l, g, m);
    ListIsProcesses(l, g, m);
    assert l.list[|kept|] == p && l.list[|kept| + 1..] == rest;
    Apart(l.list, kept, p, rest);
    DroppedParts(kept, p, rest);
  }

  lemma ListIsProcesses(l: ProcessList, g: Registry, m: Mapping)
    requires ListSound(l, g, m)
    ensures l.list == g.processes
  {
  }

  lemma Apart(list: seq<Process>, kept: seq<Process>, p: Process, rest: seq<Process>)
    requires list == kept + [p] + rest && forall i, j :: 0 <= i < j < |list| ==> list[i] != list[j]
    ensures p !in kept + rest
  {
    assert list[|kept|] == p;
    forall i | 0 <= i < |kept + rest| ensures (kept + rest)[i] != p {
      assert (kept + rest)[i] == list[if i < |kept| then i else i + 1];
    }
  }

  lemma Ahead(kept: seq<Process>, q: seq<Process>, i: nat)
    requires i <= |q| && FirstProcess(q[i..]) != null
    ensures i < |q| && FirstProcess(q[i..]) == q[i]
    ensures kept + q[i..] == kept + [q[i]] + q[i + 1..]
  {
  }

  lemma GoneByDestroying(s: System, p: Process)
    requires Inv(s) && Reapable(s, p)
    ensures Systems.DestroyProcess(s, p) == Gone(s, p) && Inv(Gone(s, p))
    ensures Gone(s, p).registry.processes == Dropped(s.registry.processes, p)
    ensures Gone(s, p).registry.conditions == s.registry.conditions - {p}
  {
    hide Inv, Unmapped;
    GoneKeeps(s, p);
  }

  // ----- switching -----

  /** The processor goes to `next`. */
  ghost function SwitchedTo(s: System, next: Thread): System {
    System(Chosen(s.threads, next), s.registry, Moved(s.mapping, s.threads.current, next))
  }

  /** The thread part of a switch. */
  ghost function Chosen(r: Roster, next: Thread): Roster {
    r.(states := r.states[next := Running], current := next)
  }

  lemma ChosenSound(u: Queues, r: Roster, next: Thread)
    requires QueuesSound(u, r) && next in r.states
    ensures QueuesSound(u, Chosen(r, next)) && Chosen(r, next).states.Keys == r.states.Keys
  {
    hide QueuesOk;
    assert r.states[next := Running].Keys == r.states.Keys;
  }

  lemma MovedSound(l: ProcessList, g: Registry, m: Mapping, from: Thread, to: Thread)
    requires ListSound(l, g, m) && to.process in g.conditions
    ensures ListSound(l, g, Moved(m, from, to))
    ensures to.process in m.spaceOf && m.spaceOf[to.process] == to.process.space
  {
    hide ListOk;
  }

  /** Taking the next thread, putting the current one back and switching is what a handover does. */
  lemma HandoverInSteps(s: System, back: bool)
    ensures var popped := s.threads.(ready := Rest(s.threads.ready));
            var put := if back then Enqueued(popped, s.threads.current) else popped;
            HandedOver(s, back) == SwitchedTo(s.(threads := put), NextThread(s.threads))
  {
  }

  /** Whom a dispatch may touch. */
  lemma DispatchFacts(s: System)
    requires Inv(s)
    ensures s.threads.current in s.threads.states && s.threads.current !in Rest(s.threads.ready)
    ensures s.threads.current !in s.threads.terminated
  {
    hide Located, Counted, Attuned;
    if s.threads.ready != [] {
      assert forall t :: t in s.threads.ready[1..] ==> t in s.threads.ready;
    }
  }

  /** Whom the reaping after a dispatch may free. */
  lemma ReapFacts(s: System)
    requires Inv(s)
    ensures var s' := HandedOver(s, GoesBack(s.threads));
            && Inv(s')
            && forall t :: t in s'.threads.terminated ==>
                 t != s'.threads.current && t != s'.threads.idle && t != s'.threads.bootstrap
    ensures Inv(ThreadsReaped(HandedOver(s, GoesBack(s.threads)), s.threads.current))
  {
    hide HandedOver, ThreadsReaped, GoesBack, Counted, Attuned, Located;
    DispatchKeeps(s);
    var s' := HandedOver(s, GoesBack(s.threads));
    ReapKeeps(s', s.threads.current);
  }

  /** A handover and the reaping of threads create neither threads nor processes. */
  lemma HandoverKeepsObjects(s: System)
    requires Inv(s)
    ensures var s1 := HandedOver(s, GoesBack(s.threads));
            && s1.threads.states.Keys == s.threads.states.Keys && s1.registry == s.registry
            && ThreadsReaped(s1, s.threads.current).registry.conditions == s.registry.conditions
  {
    hide GoesBack, Located, Counted, Attuned, Without, Only;
    UncountedConditions(s.registry, Without(s.threads.terminated, s.threads.current));
  }

  lemma {:induction false} UncountedConditions(g: Registry, list: seq<Thread>)
    ensures AllUncounted(g, list).conditions == g.conditions
    decreases |list|
  {
    if list != [] {
      UncountedConditions(g, list[..|list| - 1]);
    }
  }

  // ----- single threads and processes -----

  lemma MarkedSound(u: Queues, r: Roster, t: Thread, state: ThreadState)
    requires QueuesSound(u, r) && t in r.states
    ensures QueuesSound(u, r.(states := r.states[t := state])) && r.states[t := state].Keys == r.states.Keys
  {
    hide QueuesOk;
    assert r.states[t := state].Keys == r.states.Keys;
  }

  /** A new thread, in no queue. */
  ghost function Adopted(r: Roster, t: Thread): Roster {
    r.(states := r.states[t := Ready], created := r.created + {t})
  }

  lemma AdoptedSound(u: Queues, r: Roster, t: Thread)
    requires QueuesSound(u, r) && t !in r.states
    ensures QueuesSound(u.(links := u.links[t := null]), Adopted(r, t)) && u.links.Keys == r.states.Keys
  {
    ChainFrame(u.links, u.readyHead, u.readyTail, u.ready, u.links[t := null]);
    ChainFrame(u.links, u.terminatedHead, u.terminatedTail, u.terminated, u.links[t := null]);
  }

  lemma CountedSound(l: ProcessList, g: Registry, m: Mapping, p: Process, n: nat)
    requires ListSound(l, g, m) && p in g.conditions
    ensures p in g.counts && ListSound(l, g.(counts := g.counts[p := n]), m)
  {
    hide ListOk;
    assert g.counts[p := n].Keys == g.counts.Keys;
  }

  lemma ConditionSound(l: ProcessList, g: Registry, m: Mapping, p: Process, condition: ProcessState)
    requires ListSound(l, g, m) && p in g.conditions
    ensures ListSound(l, g.(conditions := g.conditions[p := condition]), m)
    ensures g.conditions[p := condition].Keys == g.conditions.Keys
  {
    hide ListOk;
    assert g.conditions[p := condition].Keys == g.conditions.Keys;
  }

  /** A new process behind the list. */
  lemma PushedSound(l: ProcessList, s: System, p: Process, space: Space)
    requires ListSound(l, s.registry, s.mapping) && p !in s.registry.conditions
    requires p.pid == s.registry.nextPid && p.space == space
    ensures ListSound(PushProcess(l, p), CreateProcess(s, p, space).registry, CreateProcess(s, p, space).mapping)
    ensures l.tail != null ==> l.tail in l.links
    ensures l.head == null <==> l.tail == null
    ensures p !in l.links
  {
    hide ListOk;
    PushProcessOk(l, p);
  }

  lemma CurrentInRoster(u: Queues, r: Roster)
    requires QueuesSound(u, r)
    ensures r.current in r.states && r.idle in r.states
  {
  }

  lemma CurrentInSystem(s: System)
    requires Inv(s)
    ensures s.threads.current in s.threads.states && s.threads.states[s.threads.current] == Running
    ensures s.threads.current !in s.threads.ready && s.threads.current !in s.threads.terminated
  {
    hide Located, Counted, Attuned;
  }

  lemma BlockedInNoQueue(s: System, t: Thread)
    requires Inv(s) && t in s.threads.states
    ensures s.threads.states[t] == Blocked ==> t !in s.threads.ready && t !in s.threads.terminated
  {
    hide Located, Counted, Attuned;
  }

  lemma ProcessKnown(s: System, t: Thread)
    requires Inv(s) && t in s.threads.states
    ensures t.process in s.registry.conditions
  {
    hide Located, Attuned, Registered;
  }

  lemma CreatedInNoQueue(s: System, t: Thread)
    requires Inv(s) && t in s.threads.created
    ensures t in s.threads.states && t !in s.threads.ready && t !in s.threads.terminated
    ensures t != s.threads.current && t != s.threads.idle && t != s.threads.bootstrap
    ensures t.process in s.registry.conditions
  {
    hide Located, Attuned, Registered;
  }

  lemma PidInRange(s: System)
    requires Inv(s)
    ensures s.registry.nextPid < PID_LIMIT && s.mapping.spaceOf.Keys == s.registry.conditions.Keys
  {
    hide Placed, Attuned, Members;
  }

  lemma CreatedConditions(s: System, p: Process, space: Space)
    ensures CreateProcess(s, p, space).registry.conditions == s.registry.conditions[p := Alive]
    ensures CreateProcess(s, p, space).threads == s.threads
  {
  }

  /** Who has a process number. */
  lemma PidsListed(l: ProcessList, g: Registry, m: Mapping)
    requires ListSound(l, g, m)
    ensures forall i :: 0 <= i < |l.list| ==> l.list[i] in g.pids && g.pids[l.list[i]] == l.list[i].pid
    ensures forall q :: q in g.pids ==> exists i :: 0 <= i < |l.list| && l.list[i] == q
  {
    forall i | 0 <= i < |l.list| ensures l.list[i] in g.pids {
      assert l.list[i] in Listed(l.list);
    }
    forall q | q in g.pids ensures exists i :: 0 <= i < |l.list| && l.list[i] == q {
      assert q in Listed(l.list);
    }
  }

  /** Process numbers are unique until they wrap around. */
  lemma PidsUnique(s: System)
    requires Inv(s) && !s.registry.wrapped
    ensures forall p, q :: p in s.registry.pids && q in s.registry.pids && s.registry.pids[p] == s.registry.pids[q] ==>
              p == q
  {
    hide Placed, Attuned, Members;
  }

  lemma BootedSound(kernel: Process, bootstrap: Thread, idle: Thread, space: Space)
    requires bootstrap != idle && kernel.pid == 0 && kernel.space == space
    ensures var s := Booted(kernel, bootstrap, idle, space);
            && QueuesSound(Queues(map[bootstrap := null, idle := null], null, null, [], null, null, []), s.threads)
            && ListSound(ProcessList(map[kernel := null], kernel, kernel, [kernel]), s.registry, s.mapping)
  {
    OneProcess(kernel);
    NoThreads(map[bootstrap := null, idle := null]);
  }
}
