/** The process list, threaded through the `next` fields of the processes, and what the fields of the processes in it
    hold. */
module ProcessLists {
  import opened Tasks
  import opened Systems
  import opened LinkedLists

  type ProcessLinks = map<Process, Process?>

  datatype ProcessList = ProcessList(links: ProcessLinks, head: Process?, tail: Process?, list: seq<Process>)

  ghost predicate ListOk(l: ProcessList) {
    Chain(l.links, l.head, l.tail, l.list) && NoRepeats(l.list) && Listed(l.list) == l.links.Keys
  }

  ghost function FirstProcess(q: seq<Process>): Process? {
    if q == [] then null else q[0]
  }

  ghost function LastProcess(q: seq<Process>): Process? {
    if q == [] then null else q[|q| - 1]
  }

  /** A new process behind the list. */
  ghost function PushProcess(l: ProcessList, p: Process): ProcessList {
    ProcessList(if l.tail == null then l.links[p := null] else l.links[p := null][l.tail := p],
                if l.tail == null then p else l.head, p, l.list + [p])
  }

  lemma PushProcessOk(l: ProcessList, p: Process)
    requires ListOk(l) && p !in l.links
    ensures ListOk(PushProcess(l, p)) && PushProcess(l, p).links.Keys == l.links.Keys + {p}
    ensures l.tail != null ==> l.tail in l.links && l.tail != p
    ensures l.head == null <==> l.tail == null
  {
    hide Chain, NoRepeats;
    var l' := PushProcess(l, p);
    assert p !in Listed(l.list);
    ChainEnds(l.links, l.head, l.tail, l.list);
    ChainPush(l.links, l.head, l.tail, l.list, p, l'.links);
    assert l.tail != null ==> l.tail in Listed(l.list);
    assert Listed(l.list + [p]) == Listed(l.list) + {p};
  }

  /** Taking `x` out of the list, between `before` and `rest`. */
  ghost function CutProcess(l: ProcessList, before: seq<Process>, x: Process, rest: seq<Process>): ProcessList
    requires x in l.links
  {
    ProcessList(if before == [] then l.links - {x} else l.links[before[|before| - 1] := l.links[x]] - {x},
                if before == [] then l.links[x] else l.head,
                if l.tail == x then LastProcess(before) else l.tail, before + rest)
  }

  lemma CutProcessOk(l: ProcessList, before: seq<Process>, x: Process, rest: seq<Process>)
    requires ListOk(l) && l.list == before + [x] + rest
    ensures x in l.links && l.links[x] == FirstProcess(rest)
    ensures ListOk(CutProcess(l, before, x, rest)) && CutProcess(l, before, x, rest).links.Keys == l.links.Keys - {x}
    ensures before != [] ==> before[|before| - 1] in l.links && before[|before| - 1] != x
    ensures before + rest == Dropped(l.list, x)
  {
    hide Chain, NoRepeats;
    LinkAt(l.links, l.head, l.tail, before, x, rest);
    var links := if before == [] then l.links else l.links[before[|before| - 1] := l.links[x]];
    CutAny(l.links, l.head, l.tail, before, x, rest, links);
    ChainFrame(links, if before == [] then l.links[x] else l.head, if l.tail == x then LastProcess(before) else l.tail,
               before + rest, links - {x});
    assert Listed(l.list) == Listed(before + rest) + {x} by {
      forall p ensures p in Listed(l.list) <==> p in Listed(before + rest) + {x} {
        assert p in l.list <==> p in before || p == x || p in rest;
      }
    }
    assert x !in Listed(before + rest);
    assert before != [] ==> before[|before| - 1] in Listed(l.list) && before[|before| - 1] in before + rest;
    DroppedParts(before, x, rest);
  }

  lemma DroppedSnoc(list: seq<Process>, p: Process, x: Process)
    ensures Dropped(list + [p], x) == Dropped(list, x) + if p == x then [] else [p]
  {
    assert (list + [p])[..|list|] == list;
  }

  lemma {:induction false} DroppedParts(before: seq<Process>, x: Process, rest: seq<Process>)
    requires x !in before + rest
    ensures Dropped(before + [x] + rest, x) == before + rest
    decreases |rest|
  {
    hide Dropped;
    if rest == [] {
      assert before + [x] + rest == before + [x] && before + rest == before;
      DroppedSnoc(before, x, x);
      DroppedNone(before, x);
      assert before + [] == before;
    } else {
      var n := |rest| - 1;
      var init, last := rest[..n], rest[n];
      assert last in before + rest;
      assert forall p :: p in before + init ==> p in before + rest;
      DroppedParts(before, x, init);
      DroppedSnoc(before + [x] + init, last, x);
      assert before + [x] + init + [last] == before + [x] + rest;
      assert before + init + [last] == before + rest;
    }
  }

  lemma {:induction false} DroppedNone(list: seq<Process>, x: Process)
    requires x !in list
    ensures Dropped(list, x) == list
    decreases |list|
  {
    if list != [] {
      var init, last := list[..|list| - 1], list[|list| - 1];
      assert list == init + [last] && last in list;
      DroppedNone(init, x);
      DroppedSnoc(init, last, x);
    }
  }

  lemma OneProcess(p: Process)
    ensures ListOk(ProcessList(map[p := null], p, p, [p]))
  {
    assert Listed([p]) == {p};
  }
}
