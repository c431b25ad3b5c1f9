/** The bytes stored along a cluster chain. */
module FileBytes {
  import opened Words
  import opened Chains
  import opened Offsets

  /** Byte `p` of the chain `s`; 0 behind its end. */
  function ByteAt(data: seq<Bytes>, s: seq<nat>, size: nat, p: nat): Byte {
    if size > 0 && Index(p, size) < |s| && s[Index(p, size)] < |data| && Rest(p, size) < |data[s[Index(p, size)]]|
    then data[s[Index(p, size)]][Rest(p, size)] else 0
  }

  /** The `n` bytes of the chain from offset `from` on. */
  function Range(data: seq<Bytes>, s: seq<nat>, size: nat, from: nat, n: nat): (b: Bytes)
    ensures |b| == n
  {
    seq<Byte>(n, i requires 0 <= i < n => ByteAt(data, s, size, from + i))
  }

  /** A piece of one cluster continues a range. */
  lemma RangeAppend(data: seq<Bytes>, s: seq<nat>, size: nat, from: nat, n: nat, m: nat)
    requires size > 0
    requires var p := from + n;
             && Index(p, size) < |s| && s[Index(p, size)] < |data| && |data[s[Index(p, size)]]| == size
             && Rest(p, size) + m <= size
    ensures var p := from + n;
            Range(data, s, size, from, n) + data[s[Index(p, size)]][Rest(p, size)..Rest(p, size) + m]
            == Range(data, s, size, from, n + m)
  {
    var p := from + n;
    var piece := data[s[Index(p, size)]][Rest(p, size)..Rest(p, size) + m];
    forall i | 0 <= i < m ensures ByteAt(data, s, size, p + i) == piece[i] {
      Advance(p, i, size);
    }
    forall i | 0 <= i < n + m
      ensures Range(data, s, size, from, n + m)[i] == (Range(data, s, size, from, n) + piece)[i]
    {
      if i >= n {
        assert ByteAt(data, s, size, p + (i - n)) == piece[i - n];
      }
    }
  }

  lemma RangeFrame(data: seq<Bytes>, data': seq<Bytes>, s: seq<nat>, size: nat, from: nat, n: nat)
    requires |data| == |data'|
    requires forall i :: 0 <= i < |s| ==> s[i] < |data| && data[s[i]] == data'[s[i]]
    ensures Range(data, s, size, from, n) == Range(data', s, size, from, n)
  {
    forall i | 0 <= i < n
      ensures Range(data, s, size, from, n)[i] == Range(data', s, size, from, n)[i]
    {
      assert ByteAt(data, s, size, from + i) == ByteAt(data', s, size, from + i);
    }
  }

  /** `data` along `t` is what `data0` was along `s`, with `b` written over it from offset `at` on;
      clusters `t` has and `s` has not count as zeros before. */
  ghost predicate Overwritten(data0: seq<Bytes>, s: seq<nat>, data: seq<Bytes>, t: seq<nat>, size: nat, at: nat,
                              b: Bytes) {
    forall p: nat {:trigger ByteAt(data, t, size, p)} :: size > 0 && Index(p, size) < |t| ==>
      ByteAt(data, t, size, p) == if at <= p < at + |b| then b[p - at] else ByteAt(data0, s, size, p)
  }

  lemma OverwrittenStart(data: seq<Bytes>, s: seq<nat>, size: nat, at: nat)
    ensures Overwritten(data, s, data, s, size, at, [])
  {
  }

  /** A piece written into one cluster of the chain changes the bytes it covers. */
  lemma ByteAfterSplice(data: seq<Bytes>, t: seq<nat>, size: nat, p: nat, piece: Bytes, q: nat)
    requires size > 0 && Distinct(t)
    requires forall i :: 0 <= i < |t| ==> t[i] < |data| && |data[t[i]]| == size
    requires Index(p, size) < |t| && Rest(p, size) + |piece| <= size && Index(q, size) < |t|
    ensures ByteAt(data[t[Index(p, size)] := Splice(data[t[Index(p, size)]], Rest(p, size), piece)], t, size, q)
         == if p <= q < p + |piece| then piece[q - p] else ByteAt(data, t, size, q)
  {
    Within(p, |piece|, q, size);
    assert Index(q, size) != Index(p, size) ==> t[Index(q, size)] != t[Index(p, size)];
  }

  /** Writing a piece over the part of cluster `k` that follows what has been written already. */
  lemma OverwrittenStep(data0: seq<Bytes>, s: seq<nat>, data: seq<Bytes>, t: seq<nat>, size: nat, at: nat, b: Bytes,
                        piece: Bytes, data': seq<Bytes>)
    requires size > 0 && Overwritten(data0, s, data, t, size, at, b)
    requires (forall i :: 0 <= i < |t| ==> t[i] < |data| && |data[t[i]]| == size) && Distinct(t)
    requires var p := at + |b|;
             && Index(p, size) < |t| && Rest(p, size) + |piece| <= size
             && data' == data[t[Index(p, size)] := Splice(data[t[Index(p, size)]], Rest(p, size), piece)]
    ensures Overwritten(data0, s, data', t, size, at, b + piece)
  {
    var p := at + |b|;
    forall q: nat | Index(q, size) < |t|
      ensures ByteAt(data', t, size, q)
           == if at <= q < at + |b + piece| then (b + piece)[q - at] else ByteAt(data0, s, size, q)
    {
      ByteAfterSplice(data, t, size, p, piece, q);
      assert ByteAt(data, t, size, q) == if at <= q < at + |b| then b[q - at] else ByteAt(data0, s, size, q);
    }
  }

  /** Linking a zeroed cluster behind the chain changes no byte. */
  lemma OverwrittenGrow(data0: seq<Bytes>, s: seq<nat>, data: seq<Bytes>, t: seq<nat>, size: nat, at: nat, b: Bytes,
                        c: nat, data': seq<Bytes>)
    requires size > 0 && Overwritten(data0, s, data, t, size, at, b)
    requires s <= t && c !in t && c < |data| && data' == data[c := Zeros(size)]
    requires at + |b| == Start(|t|, size)
    ensures Overwritten(data0, s, data', t + [c], size, at, b)
  {
    var t' := t + [c];
    forall q: nat | Index(q, size) < |t'|
      ensures ByteAt(data', t', size, q)
           == if at <= q < at + |b| then b[q - at] else ByteAt(data0, s, size, q)
    {
      InFirst(q, |t|, size);
      if Index(q, size) < |t| {
        assert t'[Index(q, size)] == t[Index(q, size)] != c;
        assert ByteAt(data', t', size, q) == ByteAt(data, t, size, q);
      } else {
        Recompose(q, size);
        assert ByteAt(data', t', size, q) == 0 == ByteAt(data0, s, size, q);
      }
    }
  }
}
