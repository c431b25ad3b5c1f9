/** Singly linked lists threaded through a `next` field, with head and tail pointers: what the pointers look like, as
    a map from each element to the next one, before and after an insertion or a removal. */
module LinkedLists {
  type Links = map<object, object?>

  ghost predicate NoRepeats(q: seq<object>) {
    forall i, j :: 0 <= i < j < |q| ==> q[i] != q[j]
  }

  /** What follows element `i`. */
  ghost function After(q: seq<object>, i: nat): object? {
    if i + 1 < |q| then q[i + 1] else null
  }

  ghost function FirstOf(q: seq<object>): object? {
    if q == [] then null else q[0]
  }

  ghost function LastOf(q: seq<object>): object? {
    if q == [] then null else q[|q| - 1]
  }

  /** The list from `head` to `tail` along the links is `q`. */
  ghost predicate Chain(links: Links, head: object?, tail: object?, q: seq<object>) {
    && head == FirstOf(q) && tail == LastOf(q)
    && forall i :: 0 <= i < |q| ==> q[i] in links && links[q[i]] == After(q, i)
  }

  lemma ChainFrame(links: Links, head: object?, tail: object?, q: seq<object>, links': Links)
    requires Chain(links, head, tail, q)
    requires forall t :: t in q ==> t in links' && (t in links ==> links'[t] == links[t])
    ensures Chain(links', head, tail, q)
  {
  }

  lemma ChainEnds(links: Links, head: object?, tail: object?, q: seq<object>)
    requires Chain(links, head, tail, q)
    ensures q == [] <==> head == null
    ensures q == [] <==> tail == null
    ensures q != [] ==> head in q && tail in q && head == q[0] && tail == q[|q| - 1]
  {
  }

  lemma ChainPush(links: Links, head: object?, tail: object?, q: seq<object>, t: object, links': Links)
    requires Chain(links, head, tail, q) && t !in q && NoRepeats(q)
    requires links' == if tail == null then links[t := null] else links[t := null][tail := t]
    ensures Chain(links', if head == null then t else head, t, q + [t]) && NoRepeats(q + [t])
  {
    var q' := q + [t];
    forall i | 0 <= i < |q'| ensures q'[i] in links' && links'[q'[i]] == After(q', i) {
      assert i < |q| ==> links[q[i]] == After(q, i);
    }
  }

  lemma ChainPop(links: Links, head: object?, tail: object?, q: seq<object>, links': Links)
    requires Chain(links, head, tail, q) && NoRepeats(q) && q != []
    requires links' == links[q[0] := null]
    ensures head == q[0] && q[0] in links && (links[q[0]] == null <==> |q| == 1)
    ensures Chain(links', links[q[0]], if links[q[0]] == null then null else tail, q[1..]) && NoRepeats(q[1..])
  {
    assert links[q[0]] == After(q, 0);
    forall i | 0 <= i < |q[1..]| ensures q[1..][i] in links' && links'[q[1..][i]] == After(q[1..], i) {
      assert links[q[i + 1]] == After(q, i + 1);
    }
  }

  /** Taking element `i` out, from the front ... */
  lemma ChainCutFirst(links: Links, head: object?, tail: object?, q: seq<object>)
    requires Chain(links, head, tail, q) && NoRepeats(q) && q != []
    ensures q[0] in links && (tail == q[0] <==> |q| == 1)
    ensures Chain(links, links[q[0]], if |q| == 1 then null else tail, q[1..]) && NoRepeats(q[1..])
  {
    assert links[q[0]] == After(q, 0);
    forall j | 0 <= j < |q[1..]| ensures q[1..][j] in links && links[q[1..][j]] == After(q[1..], j) {
      assert links[q[j + 1]] == After(q, j + 1);
    }
  }

  /** ... or from behind another element. */
  lemma ChainCut(links: Links, head: object?, tail: object?, before: seq<object>, x: object, after: seq<object>,
                 links': Links)
    requires before != [] && Chain(links, head, tail, before + [x] + after) && NoRepeats(before + [x] + after)
    requires x in links && links' == links[before[|before| - 1] := links[x]]
    ensures tail == x <==> after == []
    ensures Chain(links', head, if after == [] then before[|before| - 1] else tail, before + after)
    ensures NoRepeats(before + after)
  {
    var q, q', n := before + [x] + after, before + after, |before|;
    assert q[n] == x && links[q[n]] == After(q, n);
    CutIndex(before, x, after);
    forall j | 0 <= j < |q'| ensures q'[j] in links' && links'[q'[j]] == After(q', j) {
      if j < n - 1 {
        assert q'[j] == q[j] && q'[j + 1] == q[j + 1] && q[j] != q[n - 1];
        assert links[q[j]] == After(q, j);
      } else if j == n - 1 {
        assert q'[j] == before[n - 1] && After(q', j) == After(q, n);
      } else {
        assert q'[j] == q[j + 1] && q[j + 1] != q[n - 1] && links[q[j + 1]] == After(q, j + 1);
        assert After(q', j) == After(q, j + 1);
      }
    }
  }

  lemma CutIndex(before: seq<object>, x: object, after: seq<object>)
    requires NoRepeats(before + [x] + after)
    ensures NoRepeats(before + after)
  {
    var q, q' := before + [x] + after, before + after;
    forall i, j | 0 <= i < j < |q'| ensures q'[i] != q'[j] {
      assert q'[i] == q[if i < |before| then i else i + 1] && q'[j] == q[if j < |before| then j else j + 1];
    }
  }

  lemma LinkAt(links: Links, head: object?, tail: object?, kept: seq<object>, x: object, rest: seq<object>)
    requires Chain(links, head, tail, kept + [x] + rest) && NoRepeats(kept + [x] + rest)
    ensures x in links && links[x] == FirstOf(rest) && x !in kept + rest
  {
    var q := kept + [x] + rest;
    assert q[|kept|] == x && links[q[|kept|]] == After(q, |kept|);
    forall i | 0 <= i < |kept + rest| ensures (kept + rest)[i] != x {
      assert (kept + rest)[i] == q[if i < |kept| then i else i + 1];
    }
  }

  lemma CutAny(links: Links, head: object?, tail: object?, kept: seq<object>, x: object, rest: seq<object>,
               links': Links)
    requires Chain(links, head, tail, kept + [x] + rest) && NoRepeats(kept + [x] + rest) && x in links
    requires links' == if kept == [] then links else links[kept[|kept| - 1] := links[x]]
    ensures Chain(links', if kept == [] then links[x] else head, if tail == x then LastOf(kept) else tail, kept + rest)
    ensures NoRepeats(kept + rest)
  {
    if kept == [] {
      var q := kept + [x] + rest;
      assert q == [x] + rest && q[0] == x && q[1..] == rest == kept + rest;
      ChainCutFirst(links, head, tail, q);
    } else {
      hide NoRepeats;
      ChainCut(links, head, tail, kept, x, rest, links');
    }
  }
}
