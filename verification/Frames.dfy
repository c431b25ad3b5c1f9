/** Physical frames: a bitmap with one bit per 4 KiB frame, set for frames in use. */
module Frames {
  const BITMAP_BYTES: nat := 0x2_0000

  /** The frame an address lies in. */
  function FrameOf(address: nat): nat {
    address / 4096
  }

  // ----- single bits -----

  function Mask(k: nat): bv8
    requires k < 8
  {
    match k
    case 0 => 1
    case 1 => 2
    case 2 => 4
    case 3 => 8
    case 4 => 16
    case 5 => 32
    case 6 => 64
    case 7 => 128
  }

  predicate TestBit(b: bv8, k: nat)
    requires k < 8
  {
    b & Mask(k) != 0
  }

  lemma SetBit(b: bv8, k: nat, j: nat)
    requires k < 8 && j < 8
    ensures TestBit(b | Mask(k), j) <==> j == k || TestBit(b, j)
  {
  }

  lemma ResetBit(b: bv8, k: nat, j: nat)
    requires k < 8 && j < 8
    ensures TestBit(b & !Mask(k), j) <==> j != k && TestBit(b, j)
  {
  }

  /** Whether the bit of a frame is set. */
  predicate Used(bitmap: seq<bv8>, frame: nat)
    requires frame < 8 * |bitmap|
  {
    TestBit(bitmap[frame / 8], frame % 8)
  }

  lemma UsedAfterSet(bitmap: seq<bv8>, frame: nat, f: nat)
    requires frame < 8 * |bitmap| && f < 8 * |bitmap|
    ensures Used(bitmap[frame / 8 := bitmap[frame / 8] | Mask(frame % 8)], f) <==> f == frame || Used(bitmap, f)
  {
    hide TestBit, Mask;
    SetBit(bitmap[frame / 8], frame % 8, f % 8);
  }

  lemma UsedAfterReset(bitmap: seq<bv8>, frame: nat, f: nat)
    requires frame < 8 * |bitmap| && f < 8 * |bitmap|
    ensures Used(bitmap[frame / 8 := bitmap[frame / 8] & !Mask(frame % 8)], f) <==> f != frame && Used(bitmap, f)
  {
    hide TestBit, Mask;
    ResetBit(bitmap[frame / 8], frame % 8, f % 8);
  }

  /** The addresses of the frames below `total` whose bit is clear. */
  ghost predicate IsFreeSet(bitmap: seq<bv8>, total: nat, free: set<nat>)
    requires total <= 8 * |bitmap|
  {
    && (forall f: nat :: f < total ==> (4096 * f in free <==> !Used(bitmap, f)))
    && (forall a :: a in free ==> a % 4096 == 0 && FrameOf(a) < total)
  }

  lemma FreeAfterSet(bitmap: seq<bv8>, total: nat, free: set<nat>, frame: nat)
    requires total <= 8 * |bitmap| && frame < 8 * |bitmap| && IsFreeSet(bitmap, total, free)
    ensures IsFreeSet(bitmap[frame / 8 := bitmap[frame / 8] | Mask(frame % 8)], total, free - {4096 * frame})
  {
    hide Used, Mask;
    var bitmap' := bitmap[frame / 8 := bitmap[frame / 8] | Mask(frame % 8)];
    forall f: nat | f < total ensures 4096 * f in free - {4096 * frame} <==> !Used(bitmap', f) {
      UsedAfterSet(bitmap, frame, f);
    }
  }

  lemma FreeAfterReset(bitmap: seq<bv8>, total: nat, free: set<nat>, frame: nat)
    requires total <= 8 * |bitmap| && frame < total && IsFreeSet(bitmap, total, free)
    ensures IsFreeSet(bitmap[frame / 8 := bitmap[frame / 8] & !Mask(frame % 8)], total, free + {4096 * frame})
  {
    hide Used, Mask;
    var bitmap' := bitmap[frame / 8 := bitmap[frame / 8] & !Mask(frame % 8)];
    forall f: nat | f < total ensures 4096 * f in free + {4096 * frame} <==> !Used(bitmap', f) {
      UsedAfterReset(bitmap, frame, f);
    }
  }

  /** The lowest free frame, or `total`. */
  ghost predicate IsLowest(free: set<nat>, total: nat, frame: nat) {
    && frame <= total && (forall f: nat :: f < frame ==> 4096 * f !in free)
    && (frame < total ==> 4096 * frame in free)
  }

  /** The free addresses from frame `n` on. */
  ghost function FreeBelow(free: set<nat>, n: nat): set<nat> {
    set a | a in free && a < 4096 * n
  }

  lemma FreeBelowStep(free: set<nat>, n: nat)
    requires forall a :: a in free ==> a % 4096 == 0
    ensures FreeBelow(free, n + 1) == FreeBelow(free, n) + (if 4096 * n in free then {4096 * n} else {})
    ensures |FreeBelow(free, n + 1)| == |FreeBelow(free, n)| + if 4096 * n in free then 1 else 0
  {
    assert forall a :: a in free && a < 4096 * (n + 1) && a != 4096 * n ==> a < 4096 * n;
    assert 4096 * n !in FreeBelow(free, n);
  }

  lemma SetAll(bitmap: seq<bv8>, frame: nat)
    requires frame < 8 * |bitmap|
    ensures forall f: nat :: f < 8 * |bitmap| ==>
              (Used(bitmap[frame / 8 := bitmap[frame / 8] | Mask(frame % 8)], f) <==> f == frame || Used(bitmap, f))
  {
    hide Used, Mask;
    forall f: nat | f < 8 * |bitmap|
      ensures Used(bitmap[frame / 8 := bitmap[frame / 8] | Mask(frame % 8)], f) <==> f == frame || Used(bitmap, f)
    {
      UsedAfterSet(bitmap, frame, f);
    }
  }

  lemma ResetAll(bitmap: seq<bv8>, frame: nat)
    requires frame < 8 * |bitmap|
    ensures forall f: nat :: f < 8 * |bitmap| ==>
              (Used(bitmap[frame / 8 := bitmap[frame / 8] & !Mask(frame % 8)], f) <==> f != frame && Used(bitmap, f))
  {
    hide Used, Mask;
    forall f: nat | f < 8 * |bitmap|
      ensures Used(bitmap[frame / 8 := bitmap[frame / 8] & !Mask(frame % 8)], f) <==> f != frame && Used(bitmap, f)
    {
      UsedAfterReset(bitmap, frame, f);
    }
  }

  lemma ZeroUnused(b: bv8, k: nat)
    requires b == 0 && k < 8
    ensures !TestBit(b, k)
  {
  }

  lemma NothingCovered()
    ensures forall f :: !Covered([], f)
  {
  }

  /** The addresses of the frames whose bit is clear. */
  ghost function UnusedFrames(bitmap: seq<bv8>, total: nat): (free: set<nat>)
    requires total <= 8 * |bitmap|
    ensures IsFreeSet(bitmap, total, free)
  {
    set f | 0 <= f < total && !Used(bitmap, f) :: 4096 * f
  }

  lemma FrameZeroTaken(bitmap: seq<bv8>, total: nat, free: set<nat>)
    requires 0 < 8 * |bitmap| && total <= 8 * |bitmap| && IsFreeSet(bitmap, total, free) && Used(bitmap, 0)
    ensures 0 !in free
  {
    assert 0 < total ==> (4096 * 0 in free <==> !Used(bitmap, 0));
  }

  class FrameAllocator {
    const bitmap: array<bv8>
    var totalFrames: nat
    ghost var free: set<nat>

    /** The bitmap says which frames are free; frame 0 never is. */
    ghost predicate Valid()
      reads this, bitmap
    {
      && bitmap.Length == BITMAP_BYTES && totalFrames <= 8 * BITMAP_BYTES
      && IsFreeSet(bitmap[..], totalFrames, free) && 0 !in free
    }

    constructor ()
      ensures Valid() && fresh(bitmap) && free == {}
    {
      bitmap := new bv8[BITMAP_BYTES](_ => 0);
      totalFrames, free := 0, {};
    }

    /** `bitmap_set`. */
    method Set(frame: nat)
      requires frame < 8 * bitmap.Length
      modifies bitmap
      ensures bitmap[..] == old(bitmap[..])[frame / 8 := old(bitmap[frame / 8]) | Mask(frame % 8)]
      ensures forall f: nat :: f < 8 * bitmap.Length ==>
                (Used(bitmap[..], f) <==> f == frame || Used(old(bitmap[..]), f))
    {
      hide Used, Mask;
      ghost var before := bitmap[..];
      SetAll(before, frame);
      bitmap[frame / 8] := bitmap[frame / 8] | Mask(frame % 8);
      assert bitmap[..] == before[frame / 8 := before[frame / 8] | Mask(frame % 8)];
    }

    /** `bitmap_reset`. */
    method Reset(frame: nat)
      requires frame < 8 * bitmap.Length
      modifies bitmap
      ensures bitmap[..] == old(bitmap[..])[frame / 8 := old(bitmap[frame / 8]) & !Mask(frame % 8)]
      ensures forall f: nat :: f < 8 * bitmap.Length ==>
                (Used(bitmap[..], f) <==> f != frame && Used(old(bitmap[..]), f))
    {
      hide Used, Mask;
      ghost var before := bitmap[..];
      ResetAll(before, frame);
      bitmap[frame / 8] := bitmap[frame / 8] & !Mask(frame % 8);
      assert bitmap[..] == before[frame / 8 := before[frame / 8] & !Mask(frame % 8)];
    }

    /** `bitmap_test`. */
    method Test(frame: nat) returns (used: bool)
      requires frame < 8 * bitmap.Length
      ensures used == Used(bitmap[..], frame)
    {
      used := bitmap[frame / 8] & Mask(frame % 8) != 0;
    }

    /** `bitmap_clear`. */
    method Clear()
      modifies bitmap
      ensures forall f: nat :: f < 8 * bitmap.Length ==> !Used(bitmap[..], f)
    {
      var i := 0;
      while i < bitmap.Length
        invariant 0 <= i <= bitmap.Length && forall j :: 0 <= j < i ==> bitmap[j] == 0
      {
        bitmap[i] := 0;
        i := i + 1;
      }
      forall f: nat | f < 8 * bitmap.Length ensures !Used(bitmap[..], f) {
        ZeroUnused(bitmap[f / 8], f % 8);
      }
    }

    /** Sets the bits from `first` up to `last`. */
    method SetRange(first: nat, last: nat)
      requires last <= 8 * bitmap.Length
      modifies bitmap
      ensures forall f: nat :: f < 8 * bitmap.Length ==>
                (Used(bitmap[..], f) <==> first <= f < last || Used(old(bitmap[..]), f))
    {
      hide Used, Mask;
      var frame := first;
      while frame < last
        invariant first <= frame && (frame <= last || frame == first)
        invariant forall f: nat :: f < 8 * bitmap.Length ==>
                    (Used(bitmap[..], f) <==> first <= f < frame || Used(old(bitmap[..]), f))
      {
        Set(frame);
        frame := frame + 1;
      }
    }

    /** Resets the bits from `first` up to `last`. */
    method ResetRange(first: nat, last: nat)
      requires last <= 8 * bitmap.Length
      modifies bitmap
      ensures forall f: nat :: f < 8 * bitmap.Length ==>
                (Used(bitmap[..], f) <==> !(first <= f < last) && Used(old(bitmap[..]), f))
    {
      hide Used, Mask;
      var frame := first;
      while frame < last
        invariant first <= frame && (frame <= last || frame == first)
        invariant forall f: nat :: f < 8 * bitmap.Length ==>
                    (Used(bitmap[..], f) <==> !(first <= f < frame) && Used(old(bitmap[..]), f))
      {
        Reset(frame);
        frame := frame + 1;
      }
    }

    /** The first loop of `pmm_init`. */
    method Measure(regions: seq<Region>) returns (highest: nat, total: nat, usable: nat)
      ensures highest == Highest(regions) && total == TotalLength(regions) && usable == UsableLength(regions)
      ensures Below4GiB(regions) ==> highest <= 0x1_0000_0000
    {
      highest, total, usable := 0, 0, 0;
      var i := 0;
      while i < |regions|
        invariant 0 <= i <= |regions|
        invariant highest == Highest(regions[..i]) && total == TotalLength(regions[..i])
        invariant usable == UsableLength(regions[..i])
        invariant Below4GiB(regions) ==> highest <= 0x1_0000_0000
      {
        TotalsStep(regions, i);
        total := total + regions[i].length;
        if regions[i].usable {
          usable := usable + regions[i].length;
        }
        if regions[i].End() > highest {
          highest := regions[i].End();
        }
        i := i + 1;
      }
      assert regions[..i] == regions;
    }

    /** The loop of `pmm_init` that releases the frames of usable regions. */
    method ReleaseUsable(regions: seq<Region>)
      requires bitmap.Length == BITMAP_BYTES && totalFrames <= 8 * BITMAP_BYTES
      requires forall f: nat :: f < totalFrames ==> Used(bitmap[..], f)
      modifies bitmap
      ensures forall f: nat :: f < totalFrames ==> (Used(bitmap[..], f) <==> !Covered(regions, f))
    {
      hide Used, Covered, FrameOf, FramesUpTo;
      var i := 0;
      NothingCovered();
      while i < |regions|
        invariant 0 <= i <= |regions|
        invariant forall f: nat :: f < totalFrames ==> (Used(bitmap[..], f) <==> !Covered(regions[..i], f))
      {
        CoveredSteps(regions, i);
        ghost var before := bitmap[..];
        if regions[i].usable {
          var last := FramesUpTo(regions[i].End());
          ResetRange(FrameOf(regions[i].base), if last < totalFrames then last else totalFrames);
        }
        forall f: nat | f < totalFrames ensures Used(bitmap[..], f) <==> !Covered(regions[..i + 1], f) {
          assert Used(before, f) <==> !Covered(regions[..i], f);
        }
        i := i + 1;
      }
      assert regions[..i] == regions;
    }

    /** `pmm_init`. A frame is free if a usable region reaches into it and the kernel image does not. */
    method Init(regions: seq<Region>, kernelStart: nat, kernelEnd: nat) returns (total: nat, usable: nat)
      requires bitmap.Length == BITMAP_BYTES && Below4GiB(regions)
      modifies this, bitmap
      ensures Valid() && totalFrames == FramesUpTo(Highest(regions))
      ensures total == TotalLength(regions) && usable == UsableLength(regions)
      ensures forall f: nat :: f < totalFrames ==>
                (4096 * f in free
                 <==> Covered(regions, f) && !(FrameOf(kernelStart) <= f < FramesUpTo(kernelEnd)) && f != 0)
    {
      hide Used, Covered, Mask, Highest, TotalLength, UsableLength;
      Clear();
      var highest;
      highest, total, usable := Measure(regions);
      totalFrames := FramesUpTo(highest);
      SetRange(0, totalFrames);
      ReleaseUsable(regions);
      var last := FramesUpTo(kernelEnd);
      SetRange(FrameOf(kernelStart), if last > totalFrames then totalFrames else last);
      Set(0);
      free := UnusedFrames(bitmap[..], totalFrames);
      FrameZeroTaken(bitmap[..], totalFrames, free);
    }

    /** `pmm_alloc_frame`: the address of the lowest free frame, 0 if there is none. */
    method AllocFrame() returns (address: nat)
      requires Valid()
      modifies this`free, bitmap
      ensures Valid() && free == old(free) - {address}
      ensures address == 0 <==> old(free) == {}
      ensures address != 0 ==> address in old(free) && forall a :: a in old(free) ==> address <= a
      ensures address % 4096 == 0 && (address != 0 ==> FrameOf(address) < totalFrames)
    {
      hide IsFreeSet, Used, Mask;
      var frame := FindFree();
      LowestFacts(bitmap[..], totalFrames, free, frame);
      if frame == totalFrames {
        return 0;
      }
      FreeAfterSet(bitmap[..], totalFrames, free, frame);
      Set(frame);
      address := 4096 * frame;
      free := free - {address};
    }

    /** The search loop. */
    method FindFree() returns (frame: nat)
      requires Valid()
      ensures IsLowest(free, totalFrames, frame)
    {
      hide Used;
      frame := 0;
      while frame < totalFrames
        invariant 0 <= frame <= totalFrames && forall f: nat :: f < frame ==> 4096 * f !in free
      {
        var used := Test(frame);
        if !used {
          return;
        }
        frame := frame + 1;
      }
    }

    /** `pmm_free_frame`; an address that is not a frame, and frame 0, are left alone. */
    method FreeFrame(address: nat)
      requires Valid()
      modifies this`free, bitmap
      ensures Valid()
      ensures free == if address != 0 && address % 4096 == 0 && FrameOf(address) < totalFrames
                      then old(free) + {address} else old(free)
    {
      hide IsFreeSet, Used, Mask;
      if address == 0 || address % 4096 != 0 {
        return;
      }
      var frame := FrameOf(address);
      if frame >= totalFrames {
        return;
      }
      FreeAfterReset(bitmap[..], totalFrames, free, frame);
      Reset(frame);
      free := free + {address};
    }

    /** `pmm_free_frames`. */
    method CountFree() returns (n: nat)
      requires Valid()
      ensures n == |free|
    {
      hide Used;
      n := 0;
      var frame := 0;
      assert FreeBelow(free, 0) == {};
      while frame < totalFrames
        invariant 0 <= frame <= totalFrames && n == |FreeBelow(free, frame)|
      {
        FreeBelowStep(free, frame);
        var used := Test(frame);
        if !used {
          n := n + 1;
        }
        frame := frame + 1;
      }
      assert FreeBelow(free, totalFrames) == free;
    }
  }

  lemma LowestFacts(bitmap: seq<bv8>, total: nat, free: set<nat>, frame: nat)
    requires total <= 8 * |bitmap| && IsFreeSet(bitmap, total, free) && IsLowest(free, total, frame)
    ensures frame == total ==> free == {}
    ensures forall a :: a in free ==> 4096 * frame <= a
    ensures frame < total ==> frame < 8 * |bitmap| && 4096 * frame in free
  {
    forall a | a in free ensures 4096 * frame <= a && frame < total {
      assert a == 4096 * (a / 4096);
    }
  }

  // ----- the memory map -----

  /** One region of the memory map the boot loader hands over. */
  datatype Region = Region(base: nat, length: nat, usable: bool) {
    function End(): nat {
      base + length
    }

    predicate ReachesInto(frame: nat) {
      FrameOf(base) <= frame < FramesUpTo(End())
    }
  }

  /** The number of frames an address range up to `end` reaches into. */
  function FramesUpTo(end: nat): nat {
    (end + 4095) / 4096
  }

  /** A usable region reaches into the frame. */
  ghost predicate Covered(regions: seq<Region>, frame: nat) {
    exists i :: 0 <= i < |regions| && regions[i].usable && regions[i].ReachesInto(frame)
  }

  lemma CoveredStep(regions: seq<Region>, i: nat, frame: nat)
    requires i < |regions|
    ensures Covered(regions[..i + 1], frame)
            <==> Covered(regions[..i], frame)
                 || (regions[i].usable && regions[i].ReachesInto(frame))
  {
    if Covered(regions[..i], frame) {
      var j :| 0 <= j < i && regions[..i][j].usable && regions[..i][j].ReachesInto(frame);
      assert regions[..i + 1][j] == regions[..i][j];
    }
    if Covered(regions[..i + 1], frame) {
      var j :| 0 <= j <= i && regions[..i + 1][j].usable && regions[..i + 1][j].ReachesInto(frame);
      assert j < i ==> regions[..i][j] == regions[..i + 1][j];
    }
    assert regions[..i + 1][i] == regions[i];
  }

  lemma CoveredSteps(regions: seq<Region>, i: nat)
    requires i < |regions|
    ensures forall f: nat :: Covered(regions[..i + 1], f)
                             <==> Covered(regions[..i], f) || (regions[i].usable && regions[i].ReachesInto(f))
  {
    hide Covered;
    forall f: nat {
      CoveredStep(regions, i, f);
    }
  }

  ghost function Highest(regions: seq<Region>): nat {
    if regions == [] then 0
    else
      var before, end := Highest(regions[..|regions| - 1]), regions[|regions| - 1].End();
      if end > before then end else before
  }

  ghost function TotalLength(regions: seq<Region>): nat {
    if regions == [] then 0 else TotalLength(regions[..|regions| - 1]) + regions[|regions| - 1].length
  }

  ghost function UsableLength(regions: seq<Region>): nat {
    if regions == [] then 0
    else
      UsableLength(regions[..|regions| - 1])
      + if regions[|regions| - 1].usable then regions[|regions| - 1].length else 0
  }

  ghost predicate Below4GiB(regions: seq<Region>) {
    forall i :: 0 <= i < |regions| ==> regions[i].End() <= 0x1_0000_0000
  }

  lemma TotalsStep(regions: seq<Region>, i: nat)
    requires i < |regions|
    ensures Highest(regions[..i + 1])
            == if regions[i].End() > Highest(regions[..i]) then regions[i].End() else Highest(regions[..i])
    ensures TotalLength(regions[..i + 1]) == TotalLength(regions[..i]) + regions[i].length
    ensures UsableLength(regions[..i + 1])
            == UsableLength(regions[..i]) + if regions[i].usable then regions[i].length else 0
  {
    assert regions[..i + 1][..i] == regions[..i];
  }
}
