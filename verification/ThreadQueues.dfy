/** The ready queue and the queue of threads to be freed, which share one `next` field per thread. */
module ThreadQueues {
  import opened Tasks
  import opened Systems
  import opened LinkedLists

  type ThreadLinks = map<Thread, Thread?>

  ghost function FirstThread(q: seq<Thread>): Thread? {
    if q == [] then null else q[0]
  }

  ghost function LastThread(q: seq<Thread>): Thread? {
    if q == [] then null else q[|q| - 1]
  }

  // ----- the two queues together -----

  /** Both queues of threads along one set of links. */
  datatype Queues = Queues(links: ThreadLinks, readyHead: Thread?, readyTail: Thread?, ready: seq<Thread>,
                           terminatedHead: Thread?, terminatedTail: Thread?, terminated: seq<Thread>)

  /** The pointers make up the two queues, and these hold different threads that exist. */
  ghost predicate QueuesOk(u: Queues) {
    && (forall t :: t in u.ready ==> t in u.links && t !in u.terminated)
    && (forall t :: t in u.terminated ==> t in u.links)
    && NoRepeats(u.ready) && NoRepeats(u.terminated)
    && Chain(u.links, u.readyHead, u.readyTail, u.ready)
    && Chain(u.links, u.terminatedHead, u.terminatedTail, u.terminated)
  }

  /** Putting `t` behind one of the queues. */
  ghost function PushReady(u: Queues, t: Thread): Queues {
    u.(links := if u.readyTail == null then u.links[t := null] else u.links[t := null][u.readyTail := t],
       readyHead := if u.readyTail == null then t else u.readyHead, readyTail := t, ready := u.ready + [t])
  }

  ghost function PushTerminated(u: Queues, t: Thread): Queues {
    u.(links := if u.terminatedTail == null then u.links[t := null] else u.links[t := null][u.terminatedTail := t],
       terminatedHead := if u.terminatedTail == null then t else u.terminatedHead, terminatedTail := t,
       terminated := u.terminated + [t])
  }

  lemma PushReadyOk(u: Queues, t: Thread)
    requires QueuesOk(u) && t in u.links && t !in u.ready && t !in u.terminated
    ensures QueuesOk(PushReady(u, t)) && PushReady(u, t).links.Keys == u.links.Keys
  {
    hide Chain, NoRepeats;
    var u' := PushReady(u, t);
    ChainEnds(u.links, u.readyHead, u.readyTail, u.ready);
    ChainPush(u.links, u.readyHead, u.readyTail, u.ready, t, u'.links);
    ChainFrame(u.links, u.terminatedHead, u.terminatedTail, u.terminated, u'.links);
  }

  lemma PushTerminatedOk(u: Queues, t: Thread)
    requires QueuesOk(u) && t in u.links && t !in u.ready && t !in u.terminated
    ensures QueuesOk(PushTerminated(u, t)) && PushTerminated(u, t).links.Keys == u.links.Keys
  {
    hide Chain, NoRepeats;
    var u' := PushTerminated(u, t);
    ChainEnds(u.links, u.terminatedHead, u.terminatedTail, u.terminated);
    ChainPush(u.links, u.terminatedHead, u.terminatedTail, u.terminated, t, u'.links);
    ChainFrame(u.links, u.readyHead, u.readyTail, u.ready, u'.links);
  }

  lemma TailsExist(u: Queues)
    requires QueuesOk(u)
    ensures u.readyTail != null ==> u.readyTail in u.links
    ensures u.terminatedTail != null ==> u.terminatedTail in u.links
    ensures u.readyHead != null ==> u.readyHead in u.links
    ensures u.readyHead == (if u.ready == [] then null else u.ready[0])
    ensures u.readyHead == null <==> u.readyTail == null
    ensures u.terminatedHead == null <==> u.terminatedTail == null
  {
    ChainEnds(u.links, u.readyHead, u.readyTail, u.ready);
    ChainEnds(u.links, u.terminatedHead, u.terminatedTail, u.terminated);
  }

  /** Taking the head off the ready queue. */
  ghost function PopReady(u: Queues): Queues
    requires u.readyHead != null && u.readyHead in u.links
  {
    u.(links := u.links[u.readyHead := null], readyHead := u.links[u.readyHead],
       readyTail := if u.links[u.readyHead] == null then null else u.readyTail, ready := Rest(u.ready))
  }

  lemma PopReadyOk(u: Queues)
    requires QueuesOk(u) && u.readyHead != null && u.readyHead in u.links
    ensures QueuesOk(PopReady(u)) && PopReady(u).links.Keys == u.links.Keys
    ensures u.ready != [] && u.ready[0] == u.readyHead && u.readyHead !in PopReady(u).ready
    ensures u.readyHead !in u.terminated
  {
    hide Chain;
    var u' := PopReady(u);
    ChainEnds(u.links, u.readyHead, u.readyTail, u.ready);
    ChainPop(u.links, u.readyHead, u.readyTail, u.ready, u'.links);
    ChainFrame(u.links, u.terminatedHead, u.terminatedTail, u.terminated, u'.links);
  }

  /** Taking `x` out of the ready queue, between `kept` and `rest`. */
  ghost function CutReady(u: Queues, kept: seq<Thread>, x: Thread, rest: seq<Thread>): Queues
    requires x in u.links
  {
    u.(links := if kept == [] then u.links else u.links[kept[|kept| - 1] := u.links[x]],
       readyHead := if kept == [] then u.links[x] else u.readyHead,
       readyTail := if u.readyTail == x then LastThread(kept) else u.readyTail, ready := kept + rest)
  }

  lemma CutReadyOk(u: Queues, kept: seq<Thread>, x: Thread, rest: seq<Thread>)
    requires QueuesOk(u) && u.ready == kept + [x] + rest
    ensures x in u.links && u.links[x] == FirstThread(rest) && x !in kept + rest && x !in u.terminated
    ensures QueuesOk(CutReady(u, kept, x, rest)) && CutReady(u, kept, x, rest).links.Keys == u.links.Keys
    ensures kept != [] ==> kept[|kept| - 1] in u.links
  {
    hide Chain, NoRepeats;
    assert x in u.ready;
    var u' := CutReady(u, kept, x, rest);
    LinkAt(u.links, u.readyHead, u.readyTail, kept, x, rest);
    CutAny(u.links, u.readyHead, u.readyTail, kept, x, rest, u'.links);
    assert forall t :: t in kept || t in rest ==> t in u.ready;
    ChainFrame(u.links, u.terminatedHead, u.terminatedTail, u.terminated, u'.links);
  }

  /** The same for the queue of threads to be freed. */
  ghost function CutTerminated(u: Queues, kept: seq<Thread>, x: Thread, rest: seq<Thread>): Queues
    requires x in u.links
  {
    u.(links := if kept == [] then u.links else u.links[kept[|kept| - 1] := u.links[x]],
       terminatedHead := if kept == [] then u.links[x] else u.terminatedHead,
       terminatedTail := if u.terminatedTail == x then LastThread(kept) else u.terminatedTail,
       terminated := kept + rest)
  }

  lemma CutTerminatedOk(u: Queues, kept: seq<Thread>, x: Thread, rest: seq<Thread>)
    requires QueuesOk(u) && u.terminated == kept + [x] + rest
    ensures x in u.links && u.links[x] == FirstThread(rest) && x !in kept + rest && x !in u.ready
    ensures QueuesOk(CutTerminated(u, kept, x, rest)) && CutTerminated(u, kept, x, rest).links.Keys == u.links.Keys
    ensures kept != [] ==> kept[|kept| - 1] in u.links
  {
    hide Chain, NoRepeats;
    assert x in u.terminated;
    var u' := CutTerminated(u, kept, x, rest);
    LinkAt(u.links, u.terminatedHead, u.terminatedTail, kept, x, rest);
    CutAny(u.links, u.terminatedHead, u.terminatedTail, kept, x, rest, u'.links);
    assert forall t :: t in kept || t in rest ==> t in u.terminated;
    ChainFrame(u.links, u.readyHead, u.readyTail, u.ready, u'.links);
  }

  /** A freed thread leaves the links. */
  lemma FreedOk(u: Queues, t: Thread)
    requires QueuesOk(u) && t !in u.ready && t !in u.terminated
    ensures QueuesOk(u.(links := u.links - {t}))
  {
    hide NoRepeats;
    ChainFrame(u.links, u.readyHead, u.readyTail, u.ready, u.links - {t});
    ChainFrame(u.links, u.terminatedHead, u.terminatedTail, u.terminated, u.links - {t});
  }

  // ----- purging, one thread at a time -----

  /** The first `i` threads of the ready queue have been visited. */
  ghost function PurgedTo(r: Roster, p: Process, i: nat): Roster
    requires i <= |r.ready|
  {
    var victims := Victims(r.ready[..i], p, r.current);
    r.(ready := Survivors(r.ready[..i], p, r.current) + r.ready[i..], terminated := r.terminated + victims,
       states := Ended(r.states, victims))
  }

  lemma PurgedStart(r: Roster, p: Process)
    ensures PurgedTo(r, p, 0) == r
    ensures PurgedTo(r, p, |r.ready|) == Purged(r, p)
  {
    assert r.ready[..0] == [] && r.ready[0..] == r.ready && r.ready[..|r.ready|] == r.ready;
    assert r.ready[|r.ready|..] == [];
    assert Ended(r.states, []) == r.states;
    assert r.terminated + [] == r.terminated;
    assert Survivors(r.ready, p, r.current) + [] == Survivors(r.ready, p, r.current);
  }

  lemma PurgedStep(r: Roster, p: Process, i: nat)
    requires i < |r.ready|
    ensures var t, kept, rest := r.ready[i], Survivors(r.ready[..i], p, r.current), r.ready[i + 1..];
            && PurgedTo(r, p, i).ready == kept + [t] + rest
            && Survivors(r.ready[..i + 1], p, r.current) == kept + (if Doomed(t, p, r.current) then [] else [t])
            && PurgedTo(r, p, i + 1)
               == if Doomed(t, p, r.current) then Retired(PurgedTo(r, p, i).(ready := kept + rest), t)
                  else PurgedTo(r, p, i)
  {
    var t, kept, rest := r.ready[i], Survivors(r.ready[..i], p, r.current), r.ready[i + 1..];
    assert r.ready[..i + 1][..i] == r.ready[..i] && r.ready[i..] == [t] + rest;
    assert kept + r.ready[i..] == kept + [t] + rest;
    var victims := Victims(r.ready[..i], p, r.current);
    if Doomed(t, p, r.current) {
      assert Ended(r.states, victims + [t]) == Ended(r.states, victims)[t := Terminated];
      assert r.terminated + (victims + [t]) == r.terminated + victims + [t];
      assert kept + [] == kept;
    } else {
      assert victims + [] == victims;
    }
  }

  lemma NoSurvivors(queue: seq<Thread>, p: Process, current: Thread)
    ensures Survivors(queue[..0], p, current) == [] && queue[0..] == queue
  {
  }

  lemma NoThreads(links: ThreadLinks)
    ensures QueuesOk(Queues(links, null, null, [], null, null, []))
  {
  }
}
