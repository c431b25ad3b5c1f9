/** The scheduler itself: global queues threaded through the `next` fields of the threads, a process list threaded
    through those of the processes. Every routine is proved to take the step `Systems` says. */
module Schedulers {
  import opened Options
  import opened Tasks
  import opened Systems
  import opened ThreadQueues
  import opened ProcessLists
  import opened SchedulerShapes
  import opened SchedulerLaws
  import opened SchedulerEffects

  class Scheduler {
    var current: Thread
    const bootstrap: Thread
    const idle: Thread
    const kernelProcess: Process
    var readyHead: Thread?
    var readyTail: Thread?
    var terminatedHead: Thread?
    var terminatedTail: Thread?
    var processHead: Process?
    var processTail: Process?
    var currentProcess: Process?
    var activeSpace: Space
    var nextPid: nat
    ghost var queues: Queues
    ghost var list: ProcessList
    ghost var threads: Roster
    ghost var registry: Registry
    ghost var mapping: Mapping

    /** What the scheduler decides on. */
    ghost function View(): System
      reads this`threads, this`registry, this`mapping
    {
      System(threads, registry, mapping)
    }

    /** The variables that concern threads are as recorded. */
    ghost predicate ThreadRoots()
      reads this`readyHead, this`readyTail, this`terminatedHead, this`terminatedTail, this`current, this`queues
      reads this`threads
    {
      && readyHead == queues.readyHead && readyTail == queues.readyTail
      && terminatedHead == queues.terminatedHead && terminatedTail == queues.terminatedTail
      && current == threads.current && idle == threads.idle && bootstrap == threads.bootstrap
    }

    /** The variables that concern processes are as recorded. */
    ghost predicate ProcessRoots()
      reads this`processHead, this`processTail, this`currentProcess, this`activeSpace, this`nextPid
      reads this`list, this`registry, this`mapping
    {
      && processHead == list.head && processTail == list.tail
      && kernelProcess == registry.kernel && nextPid == registry.nextPid
      && currentProcess == mapping.process && activeSpace == mapping.active
    }

    /** So are the fields of the processes, and all of it makes up a list. */
    ghost predicate ProcessesValid()
      reads this`processHead, this`processTail, this`currentProcess, this`activeSpace, this`nextPid
      reads this`list, this`registry, this`mapping, registry.conditions.Keys
    {
      && ProcessRoots() && ListSound(list, registry, mapping)
      && ProcessNextsAre(list.links) && ConditionsAre(registry.conditions) && CountsAre(registry.counts)
    }

    /** The process of every thread is in the list. */
    ghost predicate Valid()
      reads this, threads.states.Keys, registry.conditions.Keys
    {
      && ThreadsValid() && ProcessesValid()
      && forall t :: t in threads.states ==> t.process in registry.conditions
    }

    /** So are the fields of the threads, and all of it makes up two queues. */
    ghost predicate ThreadsValid()
      reads this`readyHead, this`readyTail, this`terminatedHead, this`terminatedTail, this`current, this`queues
      reads this`threads
      reads threads.states.Keys
    {
      ThreadRoots() && QueuesSound(queues, threads) && NextsAre(queues.links) && StatesAre(threads.states)
    }

    /** The end of `process_init` and `thread_init`: the kernel process with the bootstrap and the idle thread. */
    constructor (kernel: Process, first: Thread, second: Thread)
      requires first != second && first.process == second.process == kernel && kernel.pid == 0
      requires first.next == second.next == null && first.state == Running && second.state == Ready
      requires kernel.next == null && kernel.state == Alive && kernel.threadCount == 2
      ensures Valid() && Inv(View()) && View() == Booted(kernel, first, second, kernel.space)
    {
      kernelProcess, bootstrap, idle := kernel, first, second;
      current, currentProcess, activeSpace, nextPid := first, kernel, kernel.space, 2;
      readyHead, readyTail, terminatedHead, terminatedTail := null, null, null, null;
      processHead, processTail := kernel, kernel;
      queues := Queues(map[first := null, second := null], null, null, [], null, null, []);
      list := ProcessList(map[kernel := null], kernel, kernel, [kernel]);
      ghost var s := Booted(kernel, first, second, kernel.space);
      threads, registry, mapping := s.threads, s.registry, s.mapping;
      new;
      hide Inv, QueuesSound, ListSound;
      BootedHolds(kernel, first, second, kernel.space);
      BootedSound(kernel, first, second, kernel.space);
    }

    /** `thread_enqueue`, pointer by pointer ... */
    method LinkReady(t: Thread, ghost u: Queues, ghost states: map<Thread, ThreadState>)
      requires NextsAre(u.links) && StatesAre(states) && readyHead == u.readyHead && readyTail == u.readyTail
      requires t in u.links && t in states && (readyTail != null ==> readyTail in u.links)
      modifies this`readyHead, this`readyTail, u.links.Keys`next, states.Keys`state
      ensures NextsAre(PushReady(u, t).links) && StatesAre(states[t := Ready])
      ensures readyHead == PushReady(u, t).readyHead && readyTail == PushReady(u, t).readyTail
    {
      hide NextsAre, StatesAre;
      SetNext(t, null, u.links);
      SetState(t, Ready, states);
      if readyTail == null {
        readyHead, readyTail := t, t;
      } else {
        SetNext(readyTail, t, u.links[t := null]);
        readyTail := t;
      }
    }

    /** ... which puts `t` behind the ready queue. */
    method Enqueue(t: Thread)
      requires ThreadsValid() && t in threads.states && t !in threads.ready && t !in threads.terminated
      modifies this`readyHead, this`readyTail, this`queues, this`threads, threads.states.Keys`next
      modifies threads.states.Keys`state
      ensures ThreadsValid() && threads == Enqueued(old(threads), t) && SameRoles(old(threads), threads)
    {
      hide QueuesSound, NextsAre, StatesAre, PushReady, Enqueued;
      EnqueueSound(queues, threads, t);
      LinkReady(t, queues, threads.states);
      queues, threads := PushReady(queues, t), Enqueued(threads, t);
    }

    /** `thread_enqueue_terminated`, pointer by pointer ... */
    method LinkTerminated(t: Thread, ghost u: Queues, ghost states: map<Thread, ThreadState>)
      requires NextsAre(u.links) && StatesAre(states) && terminatedHead == u.terminatedHead
      requires terminatedTail == u.terminatedTail
      requires t in u.links && t in states && (terminatedTail != null ==> terminatedTail in u.links)
      modifies this`terminatedHead, this`terminatedTail, u.links.Keys`next, states.Keys`state
      ensures NextsAre(PushTerminated(u, t).links) && StatesAre(states[t := Terminated])
      ensures terminatedHead == PushTerminated(u, t).terminatedHead
      ensures terminatedTail == PushTerminated(u, t).terminatedTail
    {
      hide NextsAre, StatesAre;
      SetState(t, Terminated, states);
      SetNext(t, null, u.links);
      if terminatedTail == null {
        terminatedHead, terminatedTail := t, t;
      } else {
        SetNext(terminatedTail, t, u.links[t := null]);
        terminatedTail := t;
      }
    }

    /** ... which puts `t` behind the queue of threads to be freed. */
    method Retire(t: Thread)
      requires ThreadsValid() && t in threads.states && t !in threads.ready && t !in threads.terminated
      modifies this`terminatedHead, this`terminatedTail, this`queues, this`threads
      modifies threads.states.Keys`next, threads.states.Keys`state
      ensures ThreadsValid() && threads == Retired(old(threads), t) && SameRoles(old(threads), threads)
    {
      hide QueuesSound, NextsAre, StatesAre, PushTerminated, Retired;
      RetireSound(queues, threads, t);
      LinkTerminated(t, queues, threads.states);
      queues, threads := PushTerminated(queues, t), Retired(threads, t);
    }

    /** `thread_dequeue`, pointer by pointer ... */
    method UnlinkReady(ghost u: Queues) returns (t: Thread?)
      requires NextsAre(u.links) && readyHead == u.readyHead && readyTail == u.readyTail
      requires readyHead != null ==> readyHead in u.links
      modifies this`readyHead, this`readyTail, u.links.Keys`next
      ensures t == u.readyHead
      ensures t == null ==> NextsAre(u.links) && readyHead == u.readyHead && readyTail == u.readyTail
      ensures t != null ==>
                NextsAre(PopReady(u).links) && readyHead == PopReady(u).readyHead && readyTail == PopReady(u).readyTail
    {
      t := readyHead;
      if t == null {
        return;
      }
      readyHead := t.next;
      if readyHead == null {
        readyTail := null;
      }
      SetNext(t, null, u.links);
    }

    /** ... which takes the first thread off the ready queue. */
    method Dequeue() returns (t: Thread?)
      requires ThreadsValid()
      modifies this`readyHead, this`readyTail, this`queues, this`threads, threads.states.Keys`next
      ensures ThreadsValid() && threads == old(threads).(ready := Rest(old(threads).ready))
      ensures t == FirstThread(old(threads).ready)
      ensures t != null ==> t in threads.states && t !in threads.ready && t !in threads.terminated
    {
      hide QueuesSound, NextsAre, StatesAre, PopReady;
      DequeueSound(queues, threads);
      t := UnlinkReady(queues);
      if t != null {
        queues, threads := PopReady(queues), threads.(ready := Rest(threads.ready));
      }
    }

    method NextOf(t: Thread) returns (next: Thread?)
      requires NextsAre(queues.links) && t in queues.links
      ensures next == queues.links[t]
    {
      next := t.next;
    }

    // ----- ending the threads of a process -----

    /** Unlinks `t`, which follows `previous`, from the ready queue. */
    method UnlinkBehind(previous: Thread?, t: Thread, next: Thread?, ghost links: ThreadLinks)
      requires NextsAre(links) && (previous != null ==> previous in links)
      modifies this`readyHead, this`readyTail, links.Keys`next
      ensures NextsAre(if previous == null then links else links[previous := next])
      ensures readyHead == if previous == null then next else old(readyHead)
      ensures readyTail == if old(readyTail) == t then previous else old(readyTail)
    {
      hide NextsAre;
      if previous == null {
        readyHead := next;
      } else {
        SetNext(previous, next, links);
      }
      if readyTail == t {
        readyTail := previous;
      }
    }

    /** Takes `t` out of the ready queue, where it is between `kept` and `rest`. */
    method Remove(previous: Thread?, t: Thread, next: Thread?, ghost kept: seq<Thread>, ghost rest: seq<Thread>)
      requires ThreadsValid() && threads.ready == kept + [t] + rest && previous == LastThread(kept)
      requires t in queues.links && next == queues.links[t]
      modifies this`readyHead, this`readyTail, this`queues, this`threads, threads.states.Keys`next
      ensures ThreadsValid() && threads == old(threads).(ready := kept + rest)
    {
      hide QueuesSound, NextsAre, StatesAre;
      PurgeSound(queues, threads, kept, t, rest);
      UnlinkBehind(previous, t, next, queues.links);
      queues, threads := CutReady(queues, kept, t, rest), threads.(ready := kept + rest);
    }

    /** One round of `thread_terminate_process_threads`: `kept` is behind, `t` and `rest` are ahead. */
    method PurgeOne(process: Process, previous: Thread?, t: Thread, ghost kept: seq<Thread>, ghost rest: seq<Thread>)
      returns (last: Thread?, next: Thread?)
      requires ThreadsValid() && threads.ready == kept + [t] + rest && previous == LastThread(kept)
      modifies this`readyHead, this`readyTail, this`terminatedHead, this`terminatedTail, this`queues, this`threads
      modifies threads.states.Keys`next, threads.states.Keys`state
      ensures ThreadsValid() && next == FirstThread(rest) && SameRoles(old(threads), threads)
      ensures last == if Doomed(t, process, current) then LastThread(kept) else t
      ensures threads == if Doomed(t, process, current) then Retired(old(threads).(ready := kept + rest), t)
                         else old(threads)
    {
      hide QueuesSound, NextsAre, StatesAre, CutReady, Retired;
      PurgeSound(queues, threads, kept, t, rest);
      next := NextOf(t);
      if t.process == process && t != current {
        Remove(previous, t, next, kept, rest);
        Retire(t);
        last := previous;
      } else {
        last := t;
      }
    }

    /** `thread_terminate_process_threads`. */
    method TerminateProcessThreads(process: Process)
      requires ThreadsValid()
      modifies this`readyHead, this`readyTail, this`terminatedHead, this`terminatedTail, this`queues, this`threads
      modifies threads.states.Keys`next, threads.states.Keys`state
      ensures ThreadsValid() && threads == Purged(old(threads), process) && SameRoles(old(threads), threads)
    {
      hide QueuesSound, NextsAre, StatesAre, Purged, PurgedTo, Retired, Ended, Survivors, Victims;
      ghost var r0, i: nat := threads, 0;
      var previous: Thread? := null;
      var thread := readyHead;
      DequeueSound(queues, threads);
      PurgedStart(r0, process);
      NoSurvivors(r0.ready, process, r0.current);
      while thread != null
        invariant ThreadsValid() && i <= |r0.ready| && threads == PurgedTo(r0, process, i) && SameRoles(r0, threads)
        invariant previous == LastThread(Survivors(r0.ready[..i], process, r0.current))
        invariant thread == FirstThread(r0.ready[i..])
        decreases |r0.ready| - i
      {
        PurgedStep(r0, process, i);
        previous, thread := PurgeOne(process, previous, thread, Survivors(r0.ready[..i], process, r0.current),
                                     r0.ready[i + 1..]);
        i := i + 1;
      }
    }

    // ----- reaping threads -----

    /** Unlinks `t`, which follows `previous`, from the queue of threads to be freed. */
    method UnlinkTerminated(previous: Thread?, t: Thread, next: Thread?, ghost links: ThreadLinks)
      requires NextsAre(links) && (previous != null ==> previous in links)
      modifies this`terminatedHead, this`terminatedTail, links.Keys`next
      ensures NextsAre(if previous == null then links else links[previous := next])
      ensures terminatedHead == if previous == null then next else old(terminatedHead)
      ensures terminatedTail == if old(terminatedTail) == t then previous else old(terminatedTail)
    {
      hide NextsAre;
      if previous == null {
        terminatedHead := next;
      } else {
        SetNext(previous, next, links);
      }
      if terminatedTail == t {
        terminatedTail := previous;
      }
    }

    /** Takes `t` out of the queue of threads to be freed, where it is between `kept` and `rest`. */
    method RemoveTerminated(previous: Thread?, t: Thread, next: Thread?, ghost kept: seq<Thread>,
                            ghost rest: seq<Thread>)
      requires ThreadsValid() && threads.terminated == kept + [t] + rest && previous == LastThread(kept)
      requires t in queues.links && next == queues.links[t]
      modifies this`terminatedHead, this`terminatedTail, this`queues, this`threads, threads.states.Keys`next
      ensures ThreadsValid() && threads == old(threads).(terminated := kept + rest)
    {
      hide QueuesSound, NextsAre, StatesAre;
      CutTerminatedSound(queues, threads, kept, t, rest);
      UnlinkTerminated(previous, t, next, queues.links);
      queues, threads := CutTerminated(queues, kept, t, rest), threads.(terminated := kept + rest);
    }

    /** `kfree` of a thread that nothing refers to any more. */
    ghost method Forget(t: Thread)
      requires ThreadsValid() && t !in threads.ready && t !in threads.terminated
      requires t != threads.current && t != threads.idle && t != threads.bootstrap
      modifies this`queues, this`threads
      ensures ThreadsValid() && threads == Forgotten(old(threads), t)
    {
      hide QueuesSound;
      ForgottenSound(queues, threads, t);
      queues, threads := queues.(links := queues.links - {t}), Forgotten(threads, t);
    }

    /** Takes `t` out of the queue and frees it. */
    method Discard(previous: Thread?, t: Thread, next: Thread?, ghost kept: seq<Thread>, ghost rest: seq<Thread>)
      requires ThreadsValid() && threads.terminated == kept + [t] + rest && previous == LastThread(kept)
      requires t in queues.links && next == queues.links[t]
      requires t != threads.current && t != threads.idle && t != threads.bootstrap
      modifies this`terminatedHead, this`terminatedTail, this`queues, this`threads, threads.states.Keys`next
      ensures ThreadsValid() && threads == Forgotten(old(threads).(terminated := kept + rest), t)
    {
      hide QueuesSound, NextsAre, StatesAre, ThreadRoots;
      CutTerminatedSound(queues, threads, kept, t, rest);
      RemoveTerminated(previous, t, next, kept, rest);
      Forget(t);
    }

    /** One thread less for a process. */
    method CountDown(p: Process)
      requires ProcessesValid() && p in registry.conditions
      modifies this`registry, p`threadCount
      ensures ProcessesValid() && registry == Uncounted(old(registry), p)
      ensures registry.conditions == old(registry).conditions
    {
      hide ListSound, ProcessNextsAre, ConditionsAre, Uncounted;
      UncountedSound(list, registry, mapping, p);
      if p.threadCount > 0 {
        p.threadCount := p.threadCount - 1;
      }
      registry := Uncounted(registry, p);
    }

    /** The two parts of freeing a thread, with everything else left in order. */
    method ReleaseProcess(t: Thread)
      requires Valid() && t in threads.states
      modifies this`registry, t.process`threadCount
      ensures Valid() && registry == Uncounted(old(registry), t.process)
      ensures registry.conditions == old(registry).conditions
    {
      hide QueuesSound, NextsAre, StatesAre, ListSound, ProcessNextsAre, ConditionsAre, CountsAre, ThreadRoots,
           ProcessRoots, Uncounted;
      CountDown(t.process);
    }

    method Release(previous: Thread?, t: Thread, next: Thread?, ghost kept: seq<Thread>, ghost rest: seq<Thread>)
      requires Valid() && threads.terminated == kept + [t] + rest && previous == LastThread(kept)
      requires t in queues.links && next == queues.links[t]
      requires t != threads.current && t != threads.idle && t != threads.bootstrap
      modifies this`terminatedHead, this`terminatedTail, this`queues, this`threads, threads.states.Keys`next
      ensures Valid() && threads == Forgotten(old(threads).(terminated := kept + rest), t)
      ensures threads.states.Keys <= old(threads).states.Keys
    {
      hide QueuesSound, NextsAre, StatesAre, ListSound, ProcessNextsAre, ConditionsAre, CountsAre, ThreadRoots,
           ProcessRoots;
      Discard(previous, t, next, kept, rest);
    }

    method FirstTerminated() returns (t: Thread?)
      requires Valid()
      ensures Valid() && t == FirstThread(threads.terminated)
    {
      TerminatedHeadIs(queues, threads);
      t := terminatedHead;
    }

    /** One round of `thread_reap_terminated`: `kept` is behind, `t` and `rest` are ahead. */
    method ReapOne(keep: Thread, previous: Thread?, t: Thread, ghost kept: seq<Thread>, ghost rest: seq<Thread>)
      returns (last: Thread?, next: Thread?)
      requires Valid() && threads.terminated == kept + [t] + rest && previous == LastThread(kept)
      requires t == keep || (t != threads.current && t != threads.idle && t != threads.bootstrap)
      modifies this`terminatedHead, this`terminatedTail, this`queues, this`threads, this`registry
      modifies threads.states.Keys`next, registry.conditions.Keys`threadCount
      ensures Valid() && next == FirstThread(rest) && last == (if t == keep then t else LastThread(kept))
      ensures View() == if t == keep then old(View()) else OneReaped(old(View()), t, kept, rest)
      ensures registry.conditions == old(registry).conditions && threads.states.Keys <= old(threads).states.Keys
    {
      hide QueuesSound, NextsAre, StatesAre, ListSound, ProcessNextsAre, ConditionsAre, CountsAre, ThreadRoots,
           ProcessRoots, Uncounted, Forgotten, Elements, AllUncounted, FirstThread, LastThread;
      CutTerminatedSound(queues, threads, kept, t, rest);
      next := NextOf(t);
      if t == keep {
        return t, next;
      }
      last := previous;
      ReleaseProcess(t);
      Release(previous, t, next, kept, rest);
    }

    /** `thread_reap_terminated`. */
    method ReapTerminatedThreads(keep: Thread)
      requires Valid()
      requires forall t :: t in threads.terminated ==>
                 t == keep || (t != threads.current && t != threads.idle && t != threads.bootstrap)
      modifies this`terminatedHead, this`terminatedTail, this`queues, this`threads, this`registry
      modifies threads.states.Keys`next, registry.conditions.Keys`threadCount
      ensures Valid() && View() == ThreadsReaped(old(View()), keep)
    {
      hide Valid, OneReaped, ReapedTo, ThreadsReaped, Only;
      ghost var s0, i: nat := View(), 0;
      var previous: Thread? := null;
      var thread := FirstTerminated();
      ReapedEnds(s0, keep);
      OnlyNothing(s0.threads.terminated, keep);
      while thread != null
        invariant Valid() && i <= |s0.threads.terminated| && View() == ReapedTo(s0, keep, i)
        invariant threads.states.Keys <= old(threads).states.Keys && registry.conditions == s0.registry.conditions
        invariant previous == LastThread(Only(s0.threads.terminated[..i], keep))
        invariant thread == FirstThread(s0.threads.terminated[i..])
        decreases |s0.threads.terminated| - i
      {
        ReapedStep(s0, keep, i);
        ReapedRoles(s0, keep, i);
        assert s0.threads.terminated[i] in s0.threads.terminated;
        previous, thread := ReapOne(keep, previous, thread, Only(s0.threads.terminated[..i], keep),
                                    s0.threads.terminated[i + 1..]);
        i := i + 1;
      }
    }

    // ----- destroying processes -----

    method NextProcess(p: Process) returns (next: Process?)
      requires ProcessNextsAre(list.links) && p in list.links
      ensures next == list.links[p]
    {
      next := p.next;
    }

    /** The search loop of `process_destroy`. */
    method FindPrevious(p: Process) returns (previous: Process?, ghost k: nat)
      requires ProcessesValid() && p in registry.conditions
      ensures k < |list.list| && list.list[k] == p && previous == LastProcess(list.list[..k])
    {
      hide ListSound, ProcessNextsAre, ConditionsAre, CountsAre;
      ListHead(list, registry, mapping);
      ghost var place := ListedAt(list, registry, mapping, p);
      previous, k := null, 0;
      var current := processHead;
      assert list.list[0..] == list.list;
      while current != p
        invariant k <= place && previous == LastProcess(list.list[..k]) && current == FirstProcess(list.list[k..])
        decreases place - k
      {
        previous := current;
        current := NextProcess(current);
        k := k + 1;
      }
    }

    /** Unlinks `p`, which follows `previous`, from the process list. */
    method UnlinkProcess(previous: Process?, p: Process, next: Process?, ghost links: ProcessLinks)
      requires ProcessNextsAre(links) && (previous != null ==> previous in links)
      modifies this`processHead, this`processTail, links.Keys`next
      ensures ProcessNextsAre(if previous == null then links else links[previous := next])
      ensures processHead == if previous == null then next else old(processHead)
      ensures processTail == if old(processTail) == p then previous else old(processTail)
    {
      hide ProcessNextsAre;
      if previous == null {
        processHead := next;
      } else {
        SetProcessNext(previous, next, links);
      }
      if processTail == p {
        processTail := previous;
      }
    }

    /** Takes `p` out of the list and frees it. */
    method Unlist(previous: Process?, p: Process, ghost before: seq<Process>, ghost rest: seq<Process>)
      requires ProcessesValid() && list.list == before + [p] + rest && previous == LastProcess(before)
      requires p != registry.kernel
      modifies this`processHead, this`processTail, this`list, this`registry, this`mapping, list.links.Keys`next
      ensures ProcessesValid() && registry == Unlisted(old(registry), p) && mapping == Unmapped(old(mapping), p)
      ensures list.list == before + rest
    {
      hide ListSound, ConditionsAre, CountsAre, ProcessNextsAre, Unlisted, Unmapped, CutProcess;
      UnlistSound(list, registry, mapping, before, p, rest);
      var next := NextProcess(p);
      UnlinkProcess(previous, p, next, list.links);
      WithoutProcess(if previous == null then list.links else list.links[previous := next], registry, p);
      ForgetProcess(before, p, rest);
    }

    /** `kfree` of a process whose pointers have been bent around it. */
    ghost method ForgetProcess(before: seq<Process>, p: Process, rest: seq<Process>)
      requires ListSound(list, registry, mapping) && list.list == before + [p] + rest && p != registry.kernel
      requires p in list.links
      requires var l := CutProcess(list, before, p, rest);
               processHead == l.head && processTail == l.tail && ProcessNextsAre(l.links)
      requires ConditionsAre(Unlisted(registry, p).conditions) && CountsAre(Unlisted(registry, p).counts)
      requires kernelProcess == registry.kernel && nextPid == registry.nextPid
      requires currentProcess == mapping.process && activeSpace == mapping.active
      modifies this`list, this`registry, this`mapping
      ensures ProcessesValid() && registry == Unlisted(old(registry), p) && mapping == Unmapped(old(mapping), p)
      ensures list.list == before + rest
    {
      hide ListSound, ConditionsAre, CountsAre, ProcessNextsAre, Unlisted, Unmapped, CutProcess;
      UnlistSound(list, registry, mapping, before, p, rest);
      list, registry, mapping := CutProcess(list, before, p, rest), Unlisted(registry, p), Unmapped(mapping, p);
    }

    /** The part of `process_destroy` that finds and frees `p` and its address space. */
    method RemoveProcess(p: Process)
      requires ProcessesValid() && p in registry.conditions && p != registry.kernel
      modifies this`processHead, this`processTail, this`list, this`registry, this`mapping, registry.conditions.Keys`next
      ensures ProcessesValid() && registry == Unlisted(old(registry), p) && mapping == Unmapped(old(mapping), p)
    {
      hide ListSound, ProcessNextsAre, ConditionsAre, CountsAre, Unlisted, Unmapped;
      ListHead(list, registry, mapping);
      var previous;
      ghost var k;
      previous, k := FindPrevious(p);
      SplitAt(list.list, k);
      Unlist(previous, p, list.list[..k], list.list[k + 1..]);
    }

    /** Before the current process is freed nothing is current. */
    method Leave(p: Process)
      requires ProcessesValid()
      modifies this`currentProcess, this`mapping
      ensures ProcessesValid()
      ensures mapping == if p == old(mapping).process then old(mapping).(process := null) else old(mapping)
    {
      hide ListSound, ProcessNextsAre, ConditionsAre, CountsAre;
      ListHead(list, registry, mapping);
      if p == currentProcess {
        currentProcess, mapping := null, mapping.(process := null);
      }
    }

    /** `process_destroy` of a process that may go. */
    method Dispose(p: Process)
      requires ProcessesValid() && p in registry.conditions && p != registry.kernel
      modifies this`processHead, this`processTail, this`currentProcess, this`list, this`registry, this`mapping
      modifies registry.conditions.Keys`next
      ensures ProcessesValid() && registry == Unlisted(old(registry), p)
      ensures mapping == Unmapped(if p == old(mapping).process then old(mapping).(process := null) else old(mapping), p)
    {
      hide ListSound, ProcessNextsAre, ConditionsAre, CountsAre, ProcessRoots, Unlisted, Unmapped;
      Leave(p);
      RemoveProcess(p);
    }

    /** `process_destroy`. */
    method DestroyProcess(p: Process)
      requires Valid() && p in registry.conditions
      requires p in registry.counts && registry.counts[p] == 0 ==> forall t :: t in threads.states ==> t.process != p
      modifies this`processHead, this`processTail, this`currentProcess, this`list, this`registry, this`mapping
      modifies registry.conditions.Keys`next
      ensures Valid() && View() == Systems.DestroyProcess(old(View()), p)
      ensures Inv(old(View())) ==>
                && Inv(View()) && threads == old(threads) && p in old(registry).counts
                && if p == kernelProcess || old(registry).counts[p] != 0 then View() == old(View())
                   else Disbands(old(registry), old(mapping), registry, mapping, {p})
    {
      hide QueuesSound, NextsAre, StatesAre, ListSound, ProcessNextsAre, ConditionsAre, CountsAre, ThreadRoots,
           Unlisted, Unmapped, Inv, Disbands;
      ListHead(list, registry, mapping);
      DisbandsWhenSound(View(), p);
      if p == kernelProcess {
        return;
      }
      var count := CountOf(p);
      if count != 0 {
        return;
      }
      UnlistedConditions(registry, p);
      Dispose(p);
    }

    method CountOf(p: Process) returns (n: nat)
      requires CountsAre(registry.counts) && p in registry.counts
      ensures n == registry.counts[p]
    {
      n := p.threadCount;
    }

    // ----- reaping processes -----

    /** Whether `process_reap_terminated` destroys `p`. */
    method IsReapable(p: Process) returns (b: bool)
      requires ProcessesValid() && p in registry.conditions && p in registry.counts
      ensures b == Reapable(View(), p)
    {
      b := p != kernelProcess && p != currentProcess && p.state == Dead && p.threadCount == 0;
    }

    /** One round of `process_reap_terminated`: `kept` is behind, `p` and `rest` are ahead. */
    method ReapProcess(p: Process, ghost kept: seq<Process>, ghost rest: seq<Process>)
      returns (next: Process?, ghost kept': seq<Process>)
      requires Valid() && Inv(View()) && registry.processes == kept + [p] + rest
      modifies this`processHead, this`processTail, this`currentProcess, this`list, this`registry, this`mapping
      modifies registry.conditions.Keys`next
      ensures Valid() && Inv(View())
      ensures View() == if Reapable(old(View()), p) then Gone(old(View()), p) else old(View())
      ensures next == FirstProcess(rest) && registry.processes == kept' + rest
      ensures registry.conditions.Keys <= old(registry).conditions.Keys
    {
      hide QueuesSound, NextsAre, StatesAre, ListSound, ProcessNextsAre, ConditionsAre, CountsAre, ThreadRoots,
           ProcessRoots;
      hide Inv, Gone, Reapable;
      ListPlace(list, registry, mapping, kept, p, rest);
      next := NextProcess(p);
      var reapable := IsReapable(p);
      kept' := kept + [p];
      if reapable {
        ReapableFacts(View(), p);
        Unneeded(View(), p);
        GoneByDestroying(View(), p);
        DestroyProcess(p);
        kept' := kept;
      }
    }

    /** `process_reap_terminated`. */
    method ReapTerminatedProcesses()
      requires Valid() && Inv(View())
      modifies this`processHead, this`processTail, this`currentProcess, this`list, this`registry, this`mapping
      modifies registry.conditions.Keys`next
      ensures Valid() && Inv(View()) && View() == ProcessesReaped(old(View()), old(registry).processes)
    {
      hide Valid, Inv, Gone, Reapable, ProcessesReaped, FirstProcess;
      ghost var s0, q, i: nat, kept: seq<Process> := View(), registry.processes, 0, [];
      var process := FirstListed();
      ReapedProcessesEnds(s0, q);
      while process != null
        invariant Valid() && Inv(View()) && i <= |q| && View() == ProcessesReaped(s0, q[..i])
        invariant registry.processes == kept + q[i..] && process == FirstProcess(q[i..])
        invariant registry.conditions.Keys <= old(registry).conditions.Keys
        decreases |q| - i
      {
        Ahead(kept, q, i);
        ReapedProcessesStep(s0, q, i);
        process, kept := ReapProcess(process, kept, q[i + 1..]);
        i := i + 1;
      }
    }

    method FirstListed() returns (p: Process?)
      requires Valid()
      ensures Valid() && p == FirstProcess(registry.processes)
    {
      ListHead(list, registry, mapping);
      p := processHead;
    }

    // ----- dispatching -----

    /** The next thread to run: the head of the ready queue, which leaves it, or the idle thread. */
    method TakeNext() returns (next: Thread)
      requires Valid()
      modifies this`readyHead, this`readyTail, this`queues, this`threads, threads.states.Keys`next
      ensures Valid() && threads == old(threads).(ready := Rest(old(threads).ready))
      ensures next == NextThread(old(threads)) && next in threads.states
    {
      hide QueuesSound, NextsAre, StatesAre, ListSound, ProcessNextsAre, ConditionsAre, CountsAre, ProcessRoots;
      CurrentInRoster(queues, threads);
      var t := Dequeue();
      next := if t == null then idle else t;
    }

    /** `thread_enqueue`, with everything else left in order. */
    method PutBack(t: Thread)
      requires Valid() && t in threads.states && t !in threads.ready && t !in threads.terminated
      modifies this`readyHead, this`readyTail, this`queues, this`threads, threads.states.Keys`next
      modifies threads.states.Keys`state
      ensures Valid() && threads == Enqueued(old(threads), t) && SameRoles(old(threads), threads)
    {
      hide QueuesSound, NextsAre, StatesAre, ListSound, ProcessNextsAre, ConditionsAre, CountsAre, ThreadRoots,
           ProcessRoots, Enqueued;
      Enqueue(t);
    }

    /** `thread_enqueue_terminated`, with everything else left in order. */
    method PutAside(t: Thread)
      requires Valid() && t in threads.states && t !in threads.ready && t !in threads.terminated
      modifies this`terminatedHead, this`terminatedTail, this`queues, this`threads
      modifies threads.states.Keys`next, threads.states.Keys`state
      ensures Valid() && threads == Retired(old(threads), t) && SameRoles(old(threads), threads)
    {
      hide QueuesSound, NextsAre, StatesAre, ListSound, ProcessNextsAre, ConditionsAre, CountsAre, ThreadRoots,
           ProcessRoots, Retired;
      Retire(t);
    }

    /** The process and address space part of a switch. */
    method SwitchProcess(from: Thread, to: Thread)
      requires ProcessesValid() && to.process in registry.conditions
      modifies this`currentProcess, this`activeSpace, this`mapping
      ensures ProcessesValid() && mapping == Moved(old(mapping), from, to)
    {
      hide ListSound, ProcessNextsAre, ConditionsAre, CountsAre;
      MovedSound(list, registry, mapping, from, to);
      if from.process != to.process {
        currentProcess, activeSpace := to.process, to.process.space;
      }
      mapping := Moved(mapping, from, to);
    }

    /** The thread part. */
    method SwitchThread(next: Thread)
      requires ThreadsValid() && next in threads.states
      modifies this`current, this`threads, next`state
      ensures ThreadsValid() && threads == Chosen(old(threads), next) && threads.states.Keys == old(threads).states.Keys
    {
      hide QueuesSound, NextsAre, StatesAre;
      ChosenSound(queues, threads, next);
      SetState(next, Running, threads.states);
      current := next;
      threads := Chosen(threads, next);
    }

    /** The end of every switch: process and address space follow the thread. */
    method SwitchTo(next: Thread)
      requires Valid() && next in threads.states
      modifies this`current, this`currentProcess, this`activeSpace, this`threads, this`mapping, next`state
      ensures Valid() && View() == SwitchedTo(old(View()), next) && threads.states.Keys == old(threads).states.Keys
    {
      hide QueuesSound, NextsAre, StatesAre, ListSound, ProcessNextsAre, ConditionsAre, CountsAre, Chosen;
      var from := current;
      SwitchProcess(from, next);
      SwitchThread(next);
    }

    /** Whether the tick puts the current thread back into the queue. */
    method CurrentGoesBack() returns (back: bool)
      requires Valid()
      ensures Valid() && back == GoesBack(threads)
    {
      back := current != idle && current.state != Terminated && current.state != Blocked;
    }

    /** The next thread is taken, the current one put back if it can run on, and the processor goes over. */
    method Dispatch()
      requires Valid() && Inv(View())
      modifies this`readyHead, this`readyTail, this`queues, this`threads, this`current
      modifies this`currentProcess, this`activeSpace, this`mapping, threads.states.Keys`next, threads.states.Keys`state
      ensures Valid() && View() == HandedOver(old(View()), GoesBack(old(threads)))
    {
      hide Valid, Inv, Enqueued, SwitchedTo, HandedOver, GoesBack, NextThread, Rest;
      DispatchFacts(View());
      HandoverInSteps(View(), GoesBack(threads));
      var out := Current();
      var back := CurrentGoesBack();
      var next := TakeNext();
      if back {
        PutBack(out);
      }
      SwitchTo(next);
    }

    /** `scheduler_schedule`: the timer tick. */
    method Schedule()
      requires Valid() && Inv(View())
      modifies this, threads.states.Keys`next, threads.states.Keys`state
      modifies registry.conditions.Keys`next, registry.conditions.Keys`threadCount
      ensures Valid() && Inv(View()) && View() == Tick(old(View()))
      ensures Ticks(old(View()), View())
    {
      hide Valid, Inv, HandedOver, ThreadsReaped, ProcessesReaped, GoesBack, Ticks;
      TicksSystem(View());
      ReapFacts(View());
      HandoverKeepsObjects(View());
      var out := Current();
      Dispatch();
      ReapTerminatedThreads(out);
      ReapTerminatedProcesses();
    }

    method Current() returns (t: Thread)
      requires Valid()
      ensures Valid() && t == threads.current
    {
      t := current;
    }

    // ----- the other routines threads call -----

    method SomeoneWaits() returns (waiting: bool)
      requires Valid()
      ensures Valid() && waiting == (threads.ready != []) && idle == threads.idle && bootstrap == threads.bootstrap
      ensures kernelProcess == registry.kernel
    {
      DequeueSound(queues, threads);
      waiting := readyHead != null;
    }

    /** `thread_yield`. */
    method Yield()
      requires Valid() && Inv(View())
      modifies this`readyHead, this`readyTail, this`queues, this`threads, this`current
      modifies this`currentProcess, this`activeSpace, this`mapping, threads.states.Keys`next, threads.states.Keys`state
      ensures Valid() && Inv(View()) && View() == Systems.Yield(old(View()))
      ensures if old(threads).current == old(threads).idle || old(threads).ready == [] then View() == old(View())
              else GivesWay(old(View()), View())
    {
      hide Valid, Inv, HandedOver, GoesBack, GivesWay;
      YieldsThread(View());
      YieldKeeps(View());
      var t := Current();
      var waiting := SomeoneWaits();
      if t == idle || !waiting {
        return;
      }
      Dispatch();
    }

    /** Records that the current thread has stopped. */
    method MarkBlocked()
      requires Valid()
      modifies this`threads, threads.current`state
      ensures Valid() && threads == old(threads).(states := old(threads).states[old(threads).current := Blocked])
      ensures threads.states.Keys == old(threads).states.Keys
    {
      hide QueuesSound, NextsAre, StatesAre, ListSound, ProcessNextsAre, ConditionsAre, CountsAre, ProcessRoots;
      CurrentInRoster(queues, threads);
      MarkedSound(queues, threads, current, Blocked);
      SetState(current, Blocked, threads.states);
      threads := threads.(states := threads.states[current := Blocked]);
    }

    /** `thread_block`; the invariant survives unless it is the idle thread that blocks and others are ready. */
    method Block()
      requires Valid() && Inv(View())
      modifies this`readyHead, this`readyTail, this`queues, this`threads, this`current
      modifies this`currentProcess, this`activeSpace, this`mapping, threads.states.Keys`next, threads.states.Keys`state
      ensures Valid() && View() == Systems.Block(old(View()))
      ensures Inv(View()) <==> old(threads).current != old(threads).idle || old(threads).ready == []
      ensures old(threads).current != old(threads).idle ==> Stops(old(View()), View())
    {
      hide Valid, Inv, SwitchedTo, HandedOver, Rest, NextThread, Stops;
      if threads.current != threads.idle {
        StopsThread(View());
      }
      BlockKeepsIff(View());
      CurrentInSystem(View());
      MarkBlocked();
      HandoverInSteps(View(), false);
      var next := TakeNext();
      SwitchTo(next);
    }

    /** `thread_terminate`. */
    method Terminate()
      requires Valid() && Inv(View())
      modifies this`readyHead, this`readyTail, this`terminatedHead, this`terminatedTail, this`queues, this`threads
      modifies this`current
      modifies this`currentProcess, this`activeSpace, this`mapping, threads.states.Keys`next, threads.states.Keys`state
      ensures Valid() && Inv(View()) && View() == Systems.Terminate(old(View()))
      ensures EndsOrNot(old(View()), View())
    {
      hide Valid, Inv, SwitchedTo, HandedOver, Rest, NextThread, Retired, EndsOrNot;
      EndsThread(View());
      TerminateKeeps(View());
      CurrentInSystem(View());
      var t := Current();
      var _ := SomeoneWaits();
      if t == bootstrap || t == idle {
        return;
      }
      PutAside(t);
      HandoverInSteps(View(), false);
      var next := TakeNext();
      SwitchTo(next);
    }

    /** `thread_unblock`. */
    method Unblock(t: Thread)
      requires Valid() && Inv(View()) && t in threads.states
      modifies this`readyHead, this`readyTail, this`terminatedHead, this`terminatedTail, this`queues, this`threads
      modifies threads.states.Keys`next, threads.states.Keys`state
      ensures Valid() && Inv(View()) && View() == Systems.Unblock(old(View()), t)
      ensures Wakes(old(View()), View(), t)
    {
      hide Valid, Inv, Retired, Enqueued, Wakes;
      WakesThread(View(), t);
      UnblockKeeps(View(), t);
      BlockedInNoQueue(View(), t);
      var blocked, dead := Status(t);
      if !blocked {
        return;
      }
      if dead {
        PutAside(t);
      } else {
        PutBack(t);
      }
    }

    method Status(t: Thread) returns (blocked: bool, dead: bool)
      requires Valid() && t in threads.states
      ensures Valid() && blocked == (threads.states[t] == Blocked)
      ensures t.process in registry.conditions && dead == (registry.conditions[t.process] == Dead)
    {
      blocked, dead := t.state == Blocked, t.process.state == Dead;
      ListHead(list, registry, mapping);
    }

    // ----- creating and destroying threads -----

    /** One thread more for a process. */
    method CountUp(p: Process)
      requires ProcessesValid() && p in registry.conditions && p in registry.counts
      modifies this`registry, p`threadCount
      ensures ProcessesValid()
      ensures registry == old(registry).(counts := old(registry).counts[p := old(registry).counts[p] + 1])
    {
      hide ListSound, ProcessNextsAre, ConditionsAre;
      CountedSound(list, registry, mapping, p, p.threadCount + 1);
      p.threadCount := p.threadCount + 1;
      registry := registry.(counts := registry.counts[p := p.threadCount]);
    }

    /** A new thread exists beside the queues. */
    ghost method Adopt(t: Thread)
      requires ThreadsValid() && t !in threads.states && t.next == null && t.state == Ready
      modifies this`queues, this`threads
      ensures ThreadsValid() && threads == Adopted(old(threads), t)
    {
      hide QueuesSound, NextsAre, StatesAre;
      AdoptedSound(queues, threads, t);
      WithThread(queues, threads, t);
      queues, threads := queues.(links := queues.links[t := null]), Adopted(threads, t);
    }

    /** `thread_create_in_process`; `memoryLeft` says whether both allocations succeed. */
    method CreateThread(process: Process, memoryLeft: bool) returns (t: Thread?)
      requires Valid() && process in registry.conditions
      modifies this`queues, this`threads, this`registry, process`threadCount
      ensures Valid()
      ensures t != null <==> old(registry).conditions[process] == Alive && memoryLeft
      ensures t == null ==> View() == old(View())
      ensures t != null ==> fresh(t) && t.process == process && View() == Systems.CreateThread(old(View()), t)
      ensures Inv(old(View())) ==> Inv(View()) && process in old(registry).counts
      ensures Inv(old(View())) && t != null ==> Adds(old(View()), View(), t)
    {
      hide QueuesSound, NextsAre, StatesAre, ListSound, ProcessNextsAre, CountsAre, ThreadRoots, ProcessRoots;
      hide Inv, Adds, Systems.CreateThread;
      ListHead(list, registry, mapping);
      CountsKnown(View());
      if process.state != Alive || !memoryLeft {
        return null;
      }
      t := new Thread(process, Ready);
      AddsWhenSound(View(), t);
      Enlist(t);
    }

    /** Counts a new thread and records it. */
    method Enlist(t: Thread)
      requires Valid() && t !in threads.states && t.next == null && t.state == Ready
      requires t.process in registry.conditions && registry.conditions[t.process] == Alive
      requires t.process in registry.counts
      modifies this`queues, this`threads, this`registry, t.process`threadCount
      ensures Valid() && View() == Systems.CreateThread(old(View()), t)
    {
      hide QueuesSound, NextsAre, StatesAre, ListSound, ProcessNextsAre, ConditionsAre, CountsAre, ThreadRoots,
           ProcessRoots;
      CountIn(t.process);
      Adopt(t);
    }

    /** `CountUp`, with everything else left in order. */
    method CountIn(p: Process)
      requires Valid() && p in registry.conditions && p in registry.counts
      modifies this`registry, p`threadCount
      ensures Valid() && registry == old(registry).(counts := old(registry).counts[p := old(registry).counts[p] + 1])
    {
      hide QueuesSound, NextsAre, StatesAre, ListSound, ProcessNextsAre, ConditionsAre, CountsAre, ThreadRoots,
           ProcessRoots;
      CountUp(p);
    }

    /** `thread_enqueue` of a new thread. */
    method Start(t: Thread)
      requires Valid() && Inv(View()) && t in threads.created
      modifies this`readyHead, this`readyTail, this`queues, this`threads, threads.states.Keys`next
      modifies threads.states.Keys`state
      ensures Valid() && Inv(View()) && View() == Admit(old(View()), t)
      ensures Waits(old(View()), View(), t) && threads.created == old(threads).created - {t}
    {
      hide Valid, Inv, Enqueued, Waits;
      AdmitsThread(View(), t);
      AdmitKeeps(View(), t);
      CreatedInNoQueue(View(), t);
      PutBack(t);
      NoLongerNew(t);
    }

    ghost method NoLongerNew(t: Thread)
      requires Valid()
      modifies this`threads
      ensures Valid() && threads == old(threads).(created := old(threads).created - {t})
    {
      hide QueuesOk, NextsAre, StatesAre, ListSound, ProcessNextsAre, ConditionsAre, CountsAre, ProcessRoots;
      threads := threads.(created := threads.created - {t});
    }

    /** `thread_destroy`, of a thread with a role or of one in neither queue. */
    method DestroyThread(t: Thread)
      requires Valid() && Inv(View())
      requires t in threads.states && (HasRole(threads, t) || (t !in threads.ready && t !in threads.terminated))
      modifies this`queues, this`threads, this`registry, t.process`threadCount
      ensures Valid() && Inv(View()) && View() == Systems.DestroyThread(old(View()), t)
      ensures t.process in old(registry).counts
      ensures if HasRole(old(threads), t) then View() == old(View()) else Removes(old(View()), View(), t)
    {
      hide Valid, Inv, Uncounted, Removes;
      RemovesThread(View(), t);
      var current := Current();
      var _ := SomeoneWaits();
      if t == current || t == bootstrap || t == idle {
        return;
      }
      DestroyThreadKeeps(View(), t);
      ProcessKnown(View(), t);
      ReleaseProcess(t);
      Drop(t);
    }

    /** `kfree` of a thread in neither queue. */
    ghost method Drop(t: Thread)
      requires Valid() && t !in threads.ready && t !in threads.terminated
      requires t != threads.current && t != threads.idle && t != threads.bootstrap
      modifies this`queues, this`threads
      ensures Valid() && threads == Forgotten(old(threads), t)
    {
      hide QueuesSound, NextsAre, StatesAre, ListSound, ProcessNextsAre, ConditionsAre, CountsAre, ThreadRoots,
           ProcessRoots;
      Forget(t);
    }

    // ----- ending a process -----

    /** Marks a process as ended. */
    method Condemn(p: Process)
      requires Valid() && p in registry.conditions
      modifies this`registry, p`state
      ensures Valid() && registry == old(registry).(conditions := old(registry).conditions[p := Dead])
      ensures registry.conditions.Keys == old(registry).conditions.Keys
    {
      hide QueuesSound, NextsAre, StatesAre, ListSound, ProcessNextsAre, CountsAre, ThreadRoots;
      ConditionSound(list, registry, mapping, p, Dead);
      p.state := Dead;
      registry := registry.(conditions := registry.conditions[p := Dead]);
    }

    /** `thread_terminate_process_threads`, with everything else left in order. */
    method Purge(process: Process)
      requires Valid()
      modifies this`readyHead, this`readyTail, this`terminatedHead, this`terminatedTail, this`queues, this`threads
      modifies threads.states.Keys`next, threads.states.Keys`state
      ensures Valid() && threads == Purged(old(threads), process) && threads.states.Keys == old(threads).states.Keys
    {
      hide QueuesSound, NextsAre, StatesAre, ListSound, ProcessNextsAre, ConditionsAre, CountsAre, ThreadRoots,
           ProcessRoots, Purged;
      TerminateProcessThreads(process);
    }

    /** `process_exit`, up to where interrupts are enabled again. */
    method ExitBegins(p: Process)
      requires Valid() && Inv(View()) && p in registry.conditions
      modifies this`readyHead, this`readyTail, this`terminatedHead, this`terminatedTail, this`queues, this`threads
      modifies this`registry, p`state, threads.states.Keys`next, threads.states.Keys`state
      ensures Valid() && Inv(View()) && View() == Systems.ExitBegins(old(View()), p)
      ensures if p == kernelProcess then View() == old(View()) else Condemns(old(View()), View(), p)
    {
      hide Valid, Inv, Purged, Condemns;
      CondemnsProcess(View(), p);
      ExitBeginsKeeps(View(), p);
      var _ := SomeoneWaits();
      if p == kernelProcess {
        return;
      }
      Condemn(p);
      Purge(p);
    }

    /** The rest of `process_exit`. */
    method ExitEnds(p: Process)
      requires Valid() && Inv(View())
      modifies this`readyHead, this`readyTail, this`terminatedHead, this`terminatedTail, this`queues, this`threads
      modifies this`current
      modifies this`currentProcess, this`activeSpace, this`mapping, threads.states.Keys`next, threads.states.Keys`state
      ensures Valid() && Inv(View()) && View() == Systems.ExitEnds(old(View()), p)
      ensures EndsWith(old(View()), View(), p)
    {
      hide Valid, Inv, Systems.Terminate, EndsWith;
      EndsProcess(View(), p);
      var t := Current();
      var _ := SomeoneWaits();
      if p == kernelProcess || t.process != p {
        return;
      }
      Terminate();
    }

    // ----- creating and finding processes -----

    /** Links a new process behind the list. */
    method LinkProcess(p: Process, ghost l: ProcessList)
      requires ProcessNextsAre(l.links) && p.next == null && processHead == l.head && processTail == l.tail
      requires l.tail != null ==> l.tail in l.links
      modifies this`processHead, this`processTail, l.links.Keys`next
      requires p !in l.links
      ensures ProcessNextsAre(PushProcess(l, p).links)
      ensures processHead == PushProcess(l, p).head && processTail == PushProcess(l, p).tail
    {
      hide ProcessNextsAre;
      LinkNew(l.links, p);
      if processTail == null {
        processHead, processTail := p, p;
      } else {
        SetProcessNext(processTail, p, l.links[p := null]);
        processTail := p;
      }
    }

    /** Puts a new process behind the list and counts the process number up. */
    method AppendProcess(p: Process)
      requires ProcessesValid() && p !in registry.conditions && p.next == null && p.state == Alive && p.threadCount == 0
      requires p.pid == registry.nextPid && registry.nextPid < PID_LIMIT
      modifies this`processHead, this`processTail, this`nextPid, this`list, this`registry, this`mapping
      modifies list.links.Keys`next
      ensures ProcessesValid()
      ensures var s := CreateProcess(old(View()), p, p.space); registry == s.registry && mapping == s.mapping
    {
      hide ListSound, ProcessNextsAre, ConditionsAre, CountsAre, PushProcess;
      PushedSound(list, View(), p, p.space);
      LinkProcess(p, list);
      nextPid := if nextPid + 1 < PID_LIMIT then nextPid + 1 else 0;
      RecordProcess(p);
    }

    ghost method RecordProcess(p: Process)
      requires ListSound(list, registry, mapping) && p !in registry.conditions && p.state == Alive && p.threadCount == 0
      requires ProcessNextsAre(PushProcess(list, p).links) && ConditionsAre(registry.conditions)
      requires CountsAre(registry.counts)
      requires processHead == PushProcess(list, p).head && processTail == PushProcess(list, p).tail
      requires p.pid == registry.nextPid && kernelProcess == registry.kernel
      requires nextPid == if registry.nextPid + 1 < PID_LIMIT then registry.nextPid + 1 else 0
      requires currentProcess == mapping.process && activeSpace == mapping.active
      modifies this`list, this`registry, this`mapping
      ensures ProcessesValid()
      ensures var s := CreateProcess(old(View()), p, p.space); registry == s.registry && mapping == s.mapping
    {
      hide ListSound, ProcessNextsAre, ConditionsAre, CountsAre, PushProcess;
      PushedSound(list, View(), p, p.space);
      WithProcess(registry, p);
      ghost var s := CreateProcess(View(), p, p.space);
      list, registry, mapping := PushProcess(list, p), s.registry, s.mapping;
    }

    /** `AppendProcess`, with everything else left in order. */
    method AddProcess(p: Process)
      requires Valid() && p !in registry.conditions && p.next == null && p.state == Alive && p.threadCount == 0
      requires p.pid == registry.nextPid && registry.nextPid < PID_LIMIT
      modifies this`processHead, this`processTail, this`nextPid, this`list, this`registry, this`mapping
      modifies registry.conditions.Keys`next
      ensures Valid() && View() == CreateProcess(old(View()), p, p.space)
    {
      hide QueuesSound, NextsAre, StatesAre, ListSound, ProcessNextsAre, ConditionsAre, CountsAre, ThreadRoots,
           ProcessRoots;
      hide CreateProcess;
      ListHead(list, registry, mapping);
      CreatedConditions(View(), p, p.space);
      AppendProcess(p);
    }

    /** `process_create`; there is no new process if memory or an address space cannot be had. */
    method NewProcess(space: Option<Space>) returns (p: Process?)
      requires Valid() && Inv(View()) && (space.Some? ==> space.value !in mapping.live)
      modifies this`processHead, this`processTail, this`nextPid, this`list, this`registry, this`mapping
      modifies registry.conditions.Keys`next
      ensures Valid() && Inv(View())
      ensures p != null <==> space.Some?
      ensures p == null ==> View() == old(View())
      ensures p != null ==> fresh(p) && View() == CreateProcess(old(View()), p, space.value)
                            && Founds(old(View()), View(), p, space.value)
    {
      hide QueuesSound, NextsAre, StatesAre, ListSound, ProcessNextsAre, ConditionsAre, CountsAre, ThreadRoots;
      hide Inv, CreateProcess, Founds;
      if space.None? {
        return null;
      }
      PidInRange(View());
      p := new Process(nextPid, space.value);
      CreateProcessKeeps(View(), p, space.value);
      FoundsProcess(View(), p, space.value);
      AddProcess(p);
    }

    /** The loop of `process_find`; `k` is where it stops. */
    method Search(pid: nat) returns (p: Process?, ghost k: nat)
      requires ProcessesValid()
      ensures k <= |list.list| && p == FirstProcess(list.list[k..])
      ensures k < |list.list| ==> list.list[k].pid == pid
      ensures forall i :: 0 <= i < k ==> list.list[i].pid != pid
    {
      hide ListSound, ProcessNextsAre, ConditionsAre, CountsAre;
      ListHead(list, registry, mapping);
      k := 0;
      assert list.list[0..] == list.list;
      p := processHead;
      while p != null
        invariant k <= |list.list| && p == FirstProcess(list.list[k..])
        invariant forall i :: 0 <= i < k ==> list.list[i].pid != pid
        decreases |list.list| - k
      {
        assert p == list.list[k];
        if p.pid == pid {
          return;
        }
        p := NextProcess(p);
        k := k + 1;
      }
    }

    /** `process_find`. */
    method FindProcess(pid: nat) returns (p: Process?)
      requires Valid() && Inv(View())
      ensures p != null ==> p in registry.pids && registry.pids[p] == pid
      ensures p == null <==> forall q :: q in registry.pids ==> registry.pids[q] != pid
      ensures p != null && !registry.wrapped ==> forall q :: q in registry.pids && registry.pids[q] == pid ==> q == p
    {
      hide QueuesSound, NextsAre, StatesAre, ListSound, ProcessNextsAre, ConditionsAre, CountsAre, ThreadRoots,
           ProcessRoots;
      hide Inv;
      PidsListed(list, registry, mapping);
      if !registry.wrapped {
        PidsUnique(View());
      }
      ghost var k;
      p, k := Search(pid);
      if k < |list.list| {
        assert p == list.list[k];
      }
    }
  }

  /** The state the kernel boots into. */
  method Boot(space: Space) returns (s: Scheduler)
    ensures fresh(s) && s.Valid() && Inv(s.View())
    ensures s.View() == Booted(s.kernelProcess, s.bootstrap, s.idle, space)
  {
    hide Inv, QueuesSound, ListSound;
    var kernel := new Process(0, space);
    var first := new Thread(kernel, Running);
    var second := new Thread(kernel, Ready);
    kernel.threadCount := 2;
    s := new Scheduler(kernel, first, second);
  }
}
