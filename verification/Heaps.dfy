/** The kernel heap: blocks one after another in a byte array, each behind a header of two words, its size and whether
    it is free. Pointers are offsets into the array. */
module Heaps {
  import opened Options
  import opened Words

  const HEAP_SIZE: nat := 0x10_0000
  const HEADER_SIZE: nat := 8

  /** A block whose header is at `start`. */
  datatype Block = Block(start: nat, size: nat, free: bool) {
    function Payload(): nat {
      start + HEADER_SIZE
    }

    function End(): nat {
      start + HEADER_SIZE + size
    }
  }

  /** The blocks, and the offset the next one will get. */
  datatype Layout = Layout(blocks: seq<Block>, end: nat)

  /** The blocks follow each other from 0 to `end` without a gap. */
  ghost predicate Tiled(l: Layout) {
    && l.end == (if l.blocks == [] then 0 else l.blocks[|l.blocks| - 1].End())
    && (forall k: nat :: k < |l.blocks| ==> Follows(l, k))
    && (forall k :: 0 <= k < |l.blocks| ==> l.blocks[k].size % 8 == 0)
  }

  ghost predicate Follows(l: Layout, k: nat)
    requires k < |l.blocks|
  {
    l.blocks[k].start == if k == 0 then 0 else l.blocks[k - 1].End()
  }

  ghost predicate WellFormed(l: Layout) {
    Tiled(l) && l.end <= HEAP_SIZE
  }

  // ----- what the calls do to the layout -----

  /** `(size + 7) & ~7` on 32 bits. */
  function Rounded(size: nat): (r: nat)
    ensures r % 8 == 0
    ensures 0 < size && size + 7 < 0x1_0000_0000 ==> 0 < r && size <= r < size + 8
    ensures 0x1_0000_0000 <= size + 7 < 0x1_0000_0008 ==> r == 0
  {
    (size + 7) % 0x1_0000_0000 / 8 * 8
  }

  /** Where the bump offset lands after a block of `size` bytes, on 32 bits. */
  function Bumped(end: nat, size: nat): (e: nat)
    ensures end + HEADER_SIZE + size < 0x1_0000_0000 ==> e == end + HEADER_SIZE + size
    ensures 0x1_0000_0000 <= end + HEADER_SIZE + size < 0x2_0000_0000 ==> e == end + HEADER_SIZE + size - 0x1_0000_0000
  {
    (end + 8 + size) % 0x1_0000_0000
  }

  predicate Fits(b: Block, size: nat) {
    b.free && b.size >= size
  }

  /** The first block from `k` on that is free and large enough, or their number. */
  function FirstFit(blocks: seq<Block>, size: nat, k: nat): (j: nat)
    requires k <= |blocks|
    ensures k <= j <= |blocks|
    ensures j < |blocks| ==> Fits(blocks[j], size)
    ensures forall i :: k <= i < j ==> !Fits(blocks[i], size)
    decreases |blocks| - k
  {
    if k == |blocks| || Fits(blocks[k], size) then k else FirstFit(blocks, size, k + 1)
  }

  /** The same blocks with block `k` free or not. */
  function Marked(l: Layout, k: nat, free: bool): Layout
    requires k < |l.blocks|
  {
    l.(blocks := l.blocks[k := l.blocks[k].(free := free)])
  }

  function Malloced(l: Layout, size: nat): (Layout, Option<nat>) {
    var rounded := Rounded(size);
    var k := FirstFit(l.blocks, rounded, 0);
    if size == 0 then (l, None)
    else if k < |l.blocks| then (Marked(l, k, false), Some(l.blocks[k].Payload()))
    else if Bumped(l.end, rounded) > HEAP_SIZE then (l, None)
    else
      var b := Block(l.end, rounded, false);
      (Layout(l.blocks + [b], Bumped(l.end, rounded)), Some(b.Payload()))
  }

  // ----- live payloads -----

  /** Block `k` is in use and its payload starts at `p`. */
  ghost predicate LiveAt(l: Layout, k: nat, p: nat) {
    k < |l.blocks| && !l.blocks[k].free && l.blocks[k].Payload() == p
  }

  ghost predicate Live(l: Layout, p: nat) {
    exists k: nat :: LiveAt(l, k, p)
  }

  /** `p` points behind a header. */
  ghost predicate IsPayload(l: Layout, p: nat) {
    exists k: nat :: k < |l.blocks| && l.blocks[k].Payload() == p
  }

  lemma {:induction false} Ordered(l: Layout, i: nat, j: nat)
    requires Tiled(l) && i < j < |l.blocks|
    ensures l.blocks[i].End() <= l.blocks[j].start
  {
    assert Follows(l, j);
    if i + 1 < j {
      Ordered(l, i, j - 1);
    }
  }

  lemma {:induction false} InBounds(l: Layout, k: nat)
    requires Tiled(l) && k < |l.blocks|
    ensures l.blocks[k].End() <= l.end
  {
    if k < |l.blocks| - 1 {
      Ordered(l, k, |l.blocks| - 1);
    }
  }

  lemma {:induction false} StartsAligned(l: Layout, k: nat)
    requires Tiled(l) && k < |l.blocks|
    ensures l.blocks[k].start % 8 == 0 && l.blocks[k].End() % 8 == 0
  {
    assert Follows(l, k);
    if k > 0 {
      StartsAligned(l, k - 1);
    }
  }

  lemma EndAligned(l: Layout)
    requires Tiled(l)
    ensures l.end % 8 == 0
  {
    if l.blocks != [] {
      StartsAligned(l, |l.blocks| - 1);
    }
  }

  /** Headers and payloads of different blocks never overlap and lie within the heap; a payload pointer identifies its
      block. */
  lemma PayloadsApart(l: Layout, i: nat, j: nat)
    requires WellFormed(l) && i < |l.blocks| && j < |l.blocks| && i != j
    ensures l.blocks[i].End() <= l.blocks[j].start || l.blocks[j].End() <= l.blocks[i].start
    ensures l.blocks[i].End() <= HEAP_SIZE && l.blocks[i].Payload() != l.blocks[j].Payload()
    ensures l.blocks[i].Payload() % 8 == 0
  {
    InBounds(l, i);
    StartsAligned(l, i);
    if i < j {
      Ordered(l, i, j);
    } else {
      Ordered(l, j, i);
    }
  }

  // ----- allocation -----

  /** What a caller of `kmalloc` may expect: the heap stays a heap, a null result changes nothing, and a pointer is one
      that was not live and is now, has room for `size` bytes, and leaves the other pointers as live as they were. */
  ghost predicate Served(l: Layout, size: nat, l': Layout, p: Option<nat>) {
    && WellFormed(l')
    && match p
       case None => l' == l
       case Some(q) => !Live(l, q) && HasRoom(l', q, size)
                       && forall x :: Live(l', x) <==> x == q || Live(l, x)
  }

  ghost predicate HasRoom(l: Layout, p: nat, size: nat) {
    exists k: nat :: LiveAt(l, k, p) && size <= l.blocks[k].size
  }

  /** The sizes `kmalloc` rounds and adds without leaving 32 bits. */
  predicate Representable(l: Layout, size: nat) {
    l.end + 16 + size <= 0x1_0000_0000
  }

  /** No block is free and there is no room for another header. */
  predicate Exhausted(l: Layout) {
    FirstFit(l.blocks, 0, 0) == |l.blocks| && l.end + HEADER_SIZE > HEAP_SIZE
  }

  lemma MarkedWellFormed(l: Layout, k: nat, free: bool)
    requires WellFormed(l) && k < |l.blocks|
    ensures WellFormed(Marked(l, k, free))
  {
    var l' := Marked(l, k, free);
    forall i: nat | i < |l'.blocks| ensures Follows(l', i) {
      assert Follows(l, i);
    }
  }

  /** Taking or freeing a block makes its own pointer live or not, and no other. */
  lemma MarkedLive(l: Layout, k: nat, free: bool, x: nat)
    requires WellFormed(l) && k < |l.blocks|
    ensures Live(Marked(l, k, free), x) <==> if x == l.blocks[k].Payload() then !free else Live(l, x)
  {
    var l' := Marked(l, k, free);
    if Live(l', x) {
      var j: nat :| LiveAt(l', j, x);
      if j != k {
        PayloadsApart(l, j, k);
        assert LiveAt(l, j, x);
      }
    }
    if Live(l, x) {
      var j: nat :| LiveAt(l, j, x);
      assert j != k ==> LiveAt(l', j, x);
    }
    assert !free ==> LiveAt(l', k, l.blocks[k].Payload());
  }

  lemma FreeIsNotLive(l: Layout, k: nat)
    requires WellFormed(l) && k < |l.blocks| && l.blocks[k].free
    ensures !Live(l, l.blocks[k].Payload())
  {
    var p := l.blocks[k].Payload();
    if Live(l, p) {
      var j: nat :| LiveAt(l, j, p);
      PayloadsApart(l, j, k);
    }
  }

  lemma AddedWellFormed(l: Layout, b: Block)
    requires WellFormed(l) && b.start == l.end && b.size % 8 == 0 && b.End() <= HEAP_SIZE
    ensures WellFormed(Layout(l.blocks + [b], b.End()))
  {
    var l' := Layout(l.blocks + [b], b.End());
    forall i: nat | i < |l'.blocks| ensures Follows(l', i) {
      assert i < |l.blocks| ==> Follows(l, i);
    }
  }

  /** A block at the end adds its pointer to the live ones. */
  lemma BumpServes(l: Layout, b: Block, size: nat)
    requires WellFormed(l) && b.start == l.end && b.size % 8 == 0 && !b.free && b.End() <= HEAP_SIZE && size <= b.size
    ensures Served(l, size, Layout(l.blocks + [b], b.End()), Some(b.Payload()))
  {
    var l' := Layout(l.blocks + [b], b.End());
    var q := b.Payload();
    AddedWellFormed(l, b);
    assert LiveAt(l', |l.blocks|, q);
    forall x ensures Live(l', x) <==> x == q || Live(l, x) {
      if Live(l, x) {
        var j: nat :| LiveAt(l, j, x);
        assert LiveAt(l', j, x);
      }
      if Live(l', x) {
        var j: nat :| LiveAt(l', j, x);
        assert j < |l.blocks| ==> LiveAt(l, j, x);
      }
    }
    if Live(l, q) {
      var j: nat :| LiveAt(l, j, q);
      InBounds(l, j);
    }
  }

  lemma ReuseServes(l: Layout, k: nat, size: nat)
    requires WellFormed(l) && k < |l.blocks| && Fits(l.blocks[k], size)
    ensures Served(l, size, Marked(l, k, false), Some(l.blocks[k].Payload()))
  {
    var l' := Marked(l, k, false);
    MarkedWellFormed(l, k, false);
    FreeIsNotLive(l, k);
    assert LiveAt(l', k, l.blocks[k].Payload());
    forall x {
      MarkedLive(l, k, false, x);
    }
  }

  /** Where nothing leaves 32 bits, `kmalloc` serves its caller. */
  lemma RepresentableServed(l: Layout, size: nat)
    requires WellFormed(l) && Representable(l, size)
    ensures Served(l, size, Malloced(l, size).0, Malloced(l, size).1)
  {
    hide Served, WellFormed;
    if size > 0 {
      var k := FirstFit(l.blocks, Rounded(size), 0);
      EndBound(l);
      if k < |l.blocks| {
        FitsLess(l.blocks[k], Rounded(size), size);
        ReuseServes(l, k, size);
      } else if Bumped(l.end, Rounded(size)) > HEAP_SIZE {
        UnchangedServes(l, size);
      } else {
        BumpServes(l, Block(l.end, Rounded(size), false), size);
      }
    } else {
      UnchangedServes(l, size);
    }
  }

  /** The first free block that is large enough is handed out and marked; where there is none a block goes behind the
      others, as long as it fits. */
  lemma MallocPlaces(l: Layout, size: nat, k: nat)
    requires WellFormed(l) && Representable(l, size) && size > 0 && k <= |l.blocks|
    requires forall i :: 0 <= i < k ==> !(l.blocks[i].free && l.blocks[i].size >= size)
    requires k < |l.blocks| ==> l.blocks[k].free && l.blocks[k].size >= size
    ensures var (l', p) := Malloced(l, size);
            if k < |l.blocks| then
              p == Some(l.blocks[k].start + 8) && l' == l.(blocks := l.blocks[k := l.blocks[k].(free := false)])
            else
              var r := (size + 7) / 8 * 8;
              if l.end + 8 + r > 0x10_0000 then p == None && l' == l
              else p == Some(l.end + 8) && l' == Layout(l.blocks + [Block(l.end, r, false)], l.end + 8 + r)
  {
    EndBound(l);
    forall i: nat | i < |l.blocks| ensures Fits(l.blocks[i], Rounded(size)) <==> Fits(l.blocks[i], size) {
      assert l.blocks[i].size % 8 == 0;
      RoundedFits(l.blocks[i].size, size);
    }
    assert FirstFit(l.blocks, Rounded(size), 0) == k;
  }

  lemma RoundedFits(n: nat, size: nat)
    requires n % 8 == 0 && size + 7 < 0x1_0000_0000
    ensures n >= Rounded(size) <==> n >= size
  {
  }

  lemma UnchangedServes(l: Layout, size: nat)
    requires WellFormed(l)
    ensures Served(l, size, l, None)
  {
  }

  lemma FitsLess(b: Block, larger: nat, size: nat)
    requires Fits(b, larger) && size <= larger
    ensures Fits(b, size)
  {
  }

  /** Rounding keeps a representable size so. */
  lemma EndBound(l: Layout)
    requires WellFormed(l)
    ensures l.end % 8 == 0 && l.end <= HEAP_SIZE
    ensures forall size: nat :: Representable(l, size) && size > 0 ==>
              size <= Rounded(size) && l.end + HEADER_SIZE + Rounded(size) < 0x1_0000_0000
  {
    EndAligned(l);
  }

  /** `kmalloc` serves its caller exactly when the size, with the heap's end, stays within 32 bits, or when it is so
      close to 2^32 that it rounds to 0 and even a block of 0 bytes is not to be had. */
  lemma ServedIff(l: Layout, size: nat)
    requires WellFormed(l) && size < 0x1_0000_0000
    ensures Served(l, size, Malloced(l, size).0, Malloced(l, size).1)
            <==> Representable(l, size) || (size > 0xFFFF_FFF8 && Exhausted(l))
  {
    if Representable(l, size) {
      RepresentableServed(l, size);
    } else if size <= 0xFFFF_FFF8 {
      WrapBreaks(l, size);
    } else if Exhausted(l) {
      UnchangedServes(l, size);
    } else {
      RoundsToNothing(l, size);
    }
  }

  /** When the new end wraps around, the blocks no longer fill the heap up to it. */
  lemma WrapBreaks(l: Layout, size: nat)
    requires WellFormed(l) && !Representable(l, size) && size <= 0xFFFF_FFF8
    ensures !WellFormed(Malloced(l, size).0)
  {
    EndAligned(l);
    var k := FirstFit(l.blocks, Rounded(size), 0);
    if k < |l.blocks| {
      InBounds(l, k);
    }
  }

  /** A size that rounds to 0 is given less than it asked for. */
  lemma RoundsToNothing(l: Layout, size: nat)
    requires WellFormed(l) && 0xFFFF_FFF8 < size < 0x1_0000_0000 && !Exhausted(l)
    ensures !Served(l, size, Malloced(l, size).0, Malloced(l, size).1)
  {
    var (l', p) := Malloced(l, size);
    assert p.Some?;
    if WellFormed(l') {
      forall k | 0 <= k < |l'.blocks| ensures l'.blocks[k].size < size {
        InBounds(l', k);
      }
    }
  }

  /** For a positive representable size, `kmalloc` returns null exactly when no free block is large enough and the rest
      of the heap is too short. */
  lemma NullIff(l: Layout, size: nat)
    requires WellFormed(l) && Representable(l, size) && size > 0
    ensures Malloced(l, size).1 == None
            <==> (forall k :: 0 <= k < |l.blocks| ==> l.blocks[k].free ==> l.blocks[k].size < Rounded(size))
                 && l.end + HEADER_SIZE + Rounded(size) > HEAP_SIZE
  {
    EndBound(l);
    var k := FirstFit(l.blocks, Rounded(size), 0);
    if k < |l.blocks| {
      assert Fits(l.blocks[k], Rounded(size));
    } else {
      forall i | 0 <= i < |l.blocks| ensures l.blocks[i].free ==> l.blocks[i].size < Rounded(size) {
        assert !Fits(l.blocks[i], Rounded(size));
      }
    }
  }

  // ----- freeing, and whole runs -----

  /** The block a payload pointer belongs to. */
  ghost function Freed(l: Layout, p: nat): Layout {
    if k: nat :| k < |l.blocks| && l.blocks[k].Payload() == p then Marked(l, k, true) else l
  }

  /** A pointer identifies its block, so freeing through it is freeing that block. */
  lemma FreedIsMarked(l: Layout, k: nat)
    requires WellFormed(l) && k < |l.blocks|
    ensures Freed(l, l.blocks[k].Payload()) == Marked(l, k, true)
  {
    forall j: nat | j < |l.blocks| && j != k ensures l.blocks[j].Payload() != l.blocks[k].Payload() {
      PayloadsApart(l, j, k);
    }
  }

  lemma FreedLive(l: Layout, p: nat)
    requires WellFormed(l) && IsPayload(l, p)
    ensures WellFormed(Freed(l, p))
    ensures forall x :: Live(Freed(l, p), x) <==> x != p && Live(l, x)
  {
    var k: nat :| k < |l.blocks| && l.blocks[k].Payload() == p;
    FreedIsMarked(l, k);
    MarkedWellFormed(l, k, true);
    forall x {
      MarkedLive(l, k, true, x);
    }
  }

  datatype Call = Malloc(size: nat) | Free(p: nat)

  /** The heap after some calls, and the pointers handed out and not given back. */
  ghost function After(calls: seq<Call>): (Layout, set<nat>) {
    if calls == [] then (Layout([], 0), {})
    else
      var (l, held) := After(calls[..|calls| - 1]);
      match calls[|calls| - 1]
      case Malloc(size) =>
        var (l', p) := Malloced(l, size);
        (l', match p case None => held case Some(q) => held + {q})
      case Free(p) => (Freed(l, p), held - {p})
  }

  /** Every allocation is of a representable size, and only pointers that are held are given back. */
  ghost predicate Allowed(calls: seq<Call>) {
    calls == []
    || (Allowed(calls[..|calls| - 1])
        && var (l, held) := After(calls[..|calls| - 1]);
           match calls[|calls| - 1]
           case Malloc(size) => Representable(l, size)
           case Free(p) => p in held)
  }

  /** After any run, the blocks still tile the heap and the live payloads are exactly those held. */
  lemma {:induction false} HeldIsLive(calls: seq<Call>)
    requires Allowed(calls)
    ensures WellFormed(After(calls).0)
    ensures forall x: nat :: x in After(calls).1 <==> Live(After(calls).0, x)
  {
    hide WellFormed, Malloced, Freed, Live;
    if calls == [] {
      EmptyHeap();
    } else {
      var before := calls[..|calls| - 1];
      HeldIsLive(before);
      var l := After(before).0;
      match calls[|calls| - 1]
      case Malloc(size) => RepresentableServed(l, size);
      case Free(p) =>
        LiveIsPayload(l, p);
        FreedLive(l, p);
    }
  }

  lemma EmptyHeap()
    ensures WellFormed(Layout([], 0))
    ensures forall x :: !Live(Layout([], 0), x)
  {
  }

  lemma LiveIsPayload(l: Layout, p: nat)
    requires Live(l, p)
    ensures IsPayload(l, p)
  {
  }

  // ----- the bytes -----

  /** The header of a block, as it stands in the heap. */
  ghost predicate HeaderIn(bytes: Bytes, b: Block) {
    && b.End() <= |bytes|
    && Le32(bytes, b.start) == b.size && Le32(bytes, b.start + 4) == if b.free then 1 else 0
  }

  ghost predicate HeadersIn(bytes: Bytes, l: Layout) {
    forall k: nat :: k < |l.blocks| ==> HeaderIn(bytes, l.blocks[k])
  }

  /** No byte of a payload differs. */
  ghost predicate SamePayloads(bytes: Bytes, bytes': Bytes, l: Layout) {
    |bytes'| == |bytes| && forall k: nat :: k < |l.blocks| ==> SamePayload(bytes, bytes', l.blocks[k])
  }

  ghost predicate SamePayload(bytes: Bytes, bytes': Bytes, b: Block)
    requires |bytes'| == |bytes|
  {
    forall i: nat :: b.Payload() <= i < b.End() && i < |bytes| ==> bytes'[i] == bytes[i]
  }

  /** A word written within the header of block `k` touches neither a payload nor another header. */
  lemma HeaderWordApart(bytes: Bytes, l: Layout, k: nat, at: nat, v: nat)
    requires WellFormed(l) && k < |l.blocks| && |bytes| == HEAP_SIZE && v < 0x1_0000_0000
    requires at == l.blocks[k].start || at == l.blocks[k].start + 4
    requires at + 4 <= |bytes|
    ensures SamePayloads(bytes, Splice(bytes, at, ToLe32(v)), l)
    ensures forall j: nat :: j < |l.blocks| && j != k && HeaderIn(bytes, l.blocks[j]) ==>
              HeaderIn(Splice(bytes, at, ToLe32(v)), l.blocks[j])
  {
    hide Le32, ToLe32, WellFormed;
    var bytes' := Splice(bytes, at, ToLe32(v));
    forall j: nat | j < |l.blocks| ensures SamePayload(bytes, bytes', l.blocks[j]) {
      if j != k {
        PayloadsApart(l, j, k);
      }
    }
    forall j: nat | j < |l.blocks| && j != k && HeaderIn(bytes, l.blocks[j]) ensures HeaderIn(bytes', l.blocks[j]) {
      PayloadsApart(l, j, k);
      Le32AfterSplice(bytes, at, v, l.blocks[j].start);
      Le32AfterSplice(bytes, at, v, l.blocks[j].start + 4);
    }
  }

  lemma MarkWritten(bytes: Bytes, l: Layout, k: nat, free: bool)
    requires WellFormed(l) && k < |l.blocks| && |bytes| == HEAP_SIZE && HeadersIn(bytes, l)
    ensures l.blocks[k].start + 8 <= |bytes|
    ensures var bytes' := Splice(bytes, l.blocks[k].start + 4, ToLe32(if free then 1 else 0));
            HeadersIn(bytes', Marked(l, k, free)) && SamePayloads(bytes, bytes', l)
  {
    hide Le32, ToLe32, WellFormed;
    assert HeaderIn(bytes, l.blocks[k]);
    var at, v := l.blocks[k].start + 4, if free then 1 else 0;
    HeaderWordApart(bytes, l, k, at, v);
    Le32AfterSplice(bytes, at, v, at);
    Le32AfterSplice(bytes, at, v, l.blocks[k].start);
  }

  lemma BlockWritten(bytes: Bytes, l: Layout, b: Block)
    requires WellFormed(l) && |bytes| == HEAP_SIZE && HeadersIn(bytes, l)
    requires b.start == l.end && b.size % 8 == 0 && !b.free && b.End() <= HEAP_SIZE
    ensures b.start + 8 <= |bytes|
    ensures var l' := Layout(l.blocks + [b], b.End());
            var bytes' := Splice(Splice(bytes, b.start, ToLe32(b.size)), b.start + 4, ToLe32(0));
            HeadersIn(bytes', l') && SamePayloads(bytes, bytes', l')
  {
    hide Le32, ToLe32, WellFormed;
    var l' := Layout(l.blocks + [b], b.End());
    AddedWellFormed(l, b);
    var k := |l.blocks|;
    var bytes1 := Splice(bytes, b.start, ToLe32(b.size));
    var bytes2 := Splice(bytes1, b.start + 4, ToLe32(0));
    HeaderWordApart(bytes, l', k, b.start, b.size);
    HeaderWordApart(bytes1, l', k, b.start + 4, 0);
    Le32AfterSplice(bytes, b.start, b.size, b.start);
    Le32AfterSplice(bytes1, b.start + 4, 0, b.start);
    Le32AfterSplice(bytes1, b.start + 4, 0, b.start + 4);
    forall j: nat | j < |l'.blocks| ensures HeaderIn(bytes2, l'.blocks[j]) {
      assert j < k ==> HeaderIn(bytes, l.blocks[j]);
    }
    forall j: nat | j < |l'.blocks| ensures SamePayload(bytes, bytes2, l'.blocks[j]) {
      assert SamePayload(bytes, bytes1, l'.blocks[j]) && SamePayload(bytes1, bytes2, l'.blocks[j]);
    }
  }

  /** The sizes for which the blocks go on tiling the heap. */
  predicate InRange(l: Layout, size: nat) {
    Representable(l, size) || size > 0xFFFF_FFF8
  }

  /** The cases of `Malloced`. */
  lemma MallocedCases(l: Layout, size: nat)
    ensures size == 0 ==> Malloced(l, size) == (l, None)
    ensures size != 0 ==>
              var rounded, k := Rounded(size), FirstFit(l.blocks, Rounded(size), 0);
              && k <= |l.blocks|
              && (k < |l.blocks| ==> Malloced(l, size) == (Marked(l, k, false), Some(l.blocks[k].Payload())))
              && (k == |l.blocks| && Bumped(l.end, rounded) > HEAP_SIZE ==> Malloced(l, size) == (l, None))
              && (k == |l.blocks| && Bumped(l.end, rounded) <= HEAP_SIZE ==>
                    Malloced(l, size) == (Layout(l.blocks + [Block(l.end, rounded, false)], Bumped(l.end, rounded)),
                                          Some(l.end + HEADER_SIZE)))
  {
  }

  /** A block that fits shows that the size stays within 32 bits. */
  lemma FitInRange(l: Layout, size: nat)
    requires WellFormed(l) && 0 < size < 0x1_0000_0000 && FirstFit(l.blocks, Rounded(size), 0) < |l.blocks|
    ensures InRange(l, size)
  {
    InBounds(l, FirstFit(l.blocks, Rounded(size), 0));
  }

  /** So does a bump offset that is refused. */
  lemma ExhaustedInRange(l: Layout, size: nat)
    requires WellFormed(l) && 0 < size < 0x1_0000_0000 && Bumped(l.end, Rounded(size)) > HEAP_SIZE
    ensures InRange(l, size)
  {
    EndAligned(l);
  }

  lemma BumpBounds(l: Layout, size: nat)
    requires WellFormed(l) && 0 < size < 0x1_0000_0000 && Bumped(l.end, Rounded(size)) <= HEAP_SIZE
    ensures Rounded(size) < 0x1_0000_0000
    ensures InRange(l, size) ==> l.end + HEADER_SIZE + Rounded(size) <= HEAP_SIZE
  {
    EndBound(l);
  }

  /** A header written behind the last block touches no payload. */
  lemma BehindPayloads(bytes: Bytes, l: Layout, size: nat)
    requires WellFormed(l) && |bytes| == HEAP_SIZE && l.end + HEADER_SIZE <= HEAP_SIZE && size < 0x1_0000_0000
    ensures SamePayloads(bytes, Splice(Splice(bytes, l.end, ToLe32(size)), l.end + 4, ToLe32(0)), l)
  {
    hide ToLe32, WellFormed;
    var bytes' := Splice(Splice(bytes, l.end, ToLe32(size)), l.end + 4, ToLe32(0));
    forall k: nat | k < |l.blocks| ensures SamePayload(bytes, bytes', l.blocks[k]) {
      WellFormedTiles(l);
      InBounds(l, k);
    }
  }

  lemma WellFormedTiles(l: Layout)
    requires WellFormed(l)
    ensures Tiled(l)
  {
  }

  class Heap {
    const bytes: array<Byte>
    var offset: nat
    ghost var blocks: seq<Block>

    ghost function Model(): Layout
      reads this
    {
      Layout(blocks, offset)
    }

    ghost predicate Valid()
      reads this, bytes
    {
      bytes.Length == HEAP_SIZE && WellFormed(Model()) && HeadersIn(bytes[..], Model())
    }

    /** `heap_init`. */
    constructor ()
      ensures Valid() && Model() == Layout([], 0) && fresh(bytes)
    {
      bytes := new Byte[HEAP_SIZE](_ => 0);
      offset, blocks := 0, [];
    }

    method ReadWord(at: nat) returns (v: nat)
      requires at + 4 <= bytes.Length
      ensures v == Le32(bytes[..], at)
    {
      v := Word(bytes[at], bytes[at + 1], bytes[at + 2], bytes[at + 3]);
    }

    method WriteWord(at: nat, v: nat)
      requires at + 4 <= bytes.Length && v < 0x1_0000_0000
      modifies bytes
      ensures bytes[..] == Splice(old(bytes[..]), at, ToLe32(v))
    {
      hide ToLe32;
      var word := ToLe32(v);
      bytes[at], bytes[at + 1], bytes[at + 2], bytes[at + 3] := word[0], word[1], word[2], word[3];
    }

    /** The walk over the headers: it ends at the first block that fits, or at the end of the heap. */
    method Find(size: nat) returns (at: nat, found: bool)
      requires Valid()
      ensures var k := FirstFit(blocks, size, 0);
              found == (k < |blocks|) && at == if found then blocks[k].start else offset
    {
      hide Le32, FirstFit, WellFormed;
      at, found := 0, false;
      ghost var k := 0;
      WalkStarts(Model());
      while at < offset
        invariant k <= |blocks| && at == (if k < |blocks| then blocks[k].start else offset)
        invariant FirstFit(blocks, size, k) == FirstFit(blocks, size, 0)
        decreases offset - at
      {
        WalkGoesOn(Model(), k);
        FirstFitStep(blocks, size, k);
        assert HeaderIn(bytes[..], blocks[k]);
        var blockSize := ReadWord(at);
        var free := ReadWord(at + 4);
        if free != 0 && blockSize >= size {
          found := true;
          return;
        }
        at := at + HEADER_SIZE + blockSize;
        k := k + 1;
      }
      WalkEnds(Model(), k);
      FirstFitStep(blocks, size, k);
    }

    /** `kmalloc`. A size for which the new end of the heap wraps around leaves a heap that is none, and is only
        modelled where its header still lies within the array. */
    method Kmalloc(size: nat) returns (p: Option<nat>)
      requires Valid() && size < 0x1_0000_0000
      requires InRange(Model(), size) || offset + HEADER_SIZE <= HEAP_SIZE
      modifies this, bytes
      ensures (Model(), p) == Malloced(old(Model()), size)
      ensures Valid() <==> InRange(old(Model()), size)
      ensures SamePayloads(old(bytes[..]), bytes[..], old(Model()))
      ensures Valid() ==> SamePayloads(old(bytes[..]), bytes[..], Model())
    {
      hide FirstFit, Rounded, Bumped, WellFormed, HeadersIn, Malloced;
      MallocedCases(Model(), size);
      if size == 0 {
        return None;
      }
      var rounded := Rounded(size);
      var at, found := Find(rounded);
      if found {
        FitInRange(Model(), size);
        ghost var k := FirstFit(blocks, rounded, 0);
        Mark(at, k, false);
        SamePayloadsUnmarked(old(bytes[..]), bytes[..], old(Model()), k, false);
        return Some(at + HEADER_SIZE);
      }
      if Bumped(offset, rounded) > HEAP_SIZE {
        ExhaustedInRange(Model(), size);
        return None;
      }
      p := Some(offset + HEADER_SIZE);
      BumpBounds(Model(), size);
      if !InRange(Model(), size) {
        WrapBreaks(Model(), size);
      }
      Bump(rounded);
    }

    /** Sets the free flag of the block whose header is at `at`. */
    method Mark(at: nat, ghost k: nat, free: bool)
      requires Valid() && k < |blocks| && blocks[k].start == at
      modifies this`blocks, bytes
      ensures Valid() && Model() == Marked(old(Model()), k, free)
      ensures SamePayloads(old(bytes[..]), bytes[..], Model())
    {
      hide WellFormed, HeadersIn, Le32, ToLe32, SamePayload;
      ghost var before := Model();
      MarkWritten(bytes[..], before, k, free);
      MarkedWellFormed(before, k, free);
      WriteWord(at + 4, if free then 1 else 0);
      blocks := Marked(before, k, free).blocks;
      SamePayloadsMarked(old(bytes[..]), bytes[..], before, k, free);
    }

    /** Adds a block in use at the end. */
    method Bump(size: nat)
      requires Valid() && size % 8 == 0 && size < 0x1_0000_0000 && offset + HEADER_SIZE <= HEAP_SIZE
      modifies this, bytes
      ensures Model() == Layout(old(blocks) + [Block(old(offset), size, false)], Bumped(old(offset), size))
      ensures SamePayloads(old(bytes[..]), bytes[..], old(Model()))
      ensures old(offset) + HEADER_SIZE + size <= HEAP_SIZE ==>
                Valid() && SamePayloads(old(bytes[..]), bytes[..], Model())
    {
      hide WellFormed, HeadersIn, Le32, ToLe32, SamePayloads;
      ghost var b := Block(offset, size, false);
      if b.End() <= HEAP_SIZE {
        AddedWellFormed(Model(), b);
        BlockWritten(bytes[..], Model(), b);
      }
      BehindPayloads(bytes[..], Model(), size);
      WriteWord(offset, size);
      WriteWord(offset + 4, 0);
      offset, blocks := Bumped(offset, size), blocks + [b];
    }

    /** `kfree` of a pointer that `kmalloc` returned, or of null. */
    method Kfree(p: Option<nat>)
      requires Valid() && (p.Some? ==> IsPayload(Model(), p.value))
      modifies this`blocks, bytes
      ensures Valid() && Model() == match p case None => old(Model()) case Some(q) => Freed(old(Model()), q)
      ensures SamePayloads(old(bytes[..]), bytes[..], Model())
    {
      hide WellFormed, HeadersIn;
      if p == None {
        return;
      }
      ghost var k: nat :| k < |blocks| && blocks[k].Payload() == p.value;
      FreedIsMarked(Model(), k);
      Mark(p.value - HEADER_SIZE, k, true);
    }
  }

  lemma SamePayloadsMarked(bytes: Bytes, bytes': Bytes, l: Layout, k: nat, free: bool)
    requires k < |l.blocks| && SamePayloads(bytes, bytes', l)
    ensures SamePayloads(bytes, bytes', Marked(l, k, free))
  {
    forall j: nat | j < |l.blocks| ensures SamePayload(bytes, bytes', Marked(l, k, free).blocks[j]) {
      assert SamePayload(bytes, bytes', l.blocks[j]);
    }
  }

  lemma SamePayloadsUnmarked(bytes: Bytes, bytes': Bytes, l: Layout, k: nat, free: bool)
    requires k < |l.blocks| && SamePayloads(bytes, bytes', Marked(l, k, free))
    ensures SamePayloads(bytes, bytes', l)
  {
    forall j: nat | j < |l.blocks| ensures SamePayload(bytes, bytes', l.blocks[j]) {
      assert SamePayload(bytes, bytes', Marked(l, k, free).blocks[j]);
    }
  }

  lemma WalkStarts(l: Layout)
    requires WellFormed(l)
    ensures 0 == if 0 < |l.blocks| then l.blocks[0].start else l.end
  {
    assert 0 < |l.blocks| ==> Follows(l, 0);
  }

  /** Behind block `k` is the next one, or the end. */
  lemma WalkGoesOn(l: Layout, k: nat)
    requires WellFormed(l) && k <= |l.blocks| && (if k < |l.blocks| then l.blocks[k].start else l.end) < l.end
    ensures k < |l.blocks| && l.blocks[k].End() <= l.end
    ensures l.blocks[k].End() == if k + 1 < |l.blocks| then l.blocks[k + 1].start else l.end
  {
    assert k < |l.blocks|;
    InBounds(l, k);
    assert k + 1 < |l.blocks| ==> Follows(l, k + 1);
  }

  lemma WalkEnds(l: Layout, k: nat)
    requires WellFormed(l) && k <= |l.blocks| && (if k < |l.blocks| then l.blocks[k].start else l.end) >= l.end
    ensures k == |l.blocks|
  {
    if k < |l.blocks| {
      InBounds(l, k);
    }
  }

  lemma FirstFitStep(blocks: seq<Block>, size: nat, k: nat)
    requires k <= |blocks|
    ensures FirstFit(blocks, size, k)
            == if k == |blocks| || Fits(blocks[k], size) then k else FirstFit(blocks, size, k + 1)
  {
  }
}
