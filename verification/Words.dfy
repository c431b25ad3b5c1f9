/** Bytes, 512-byte sectors and the little-endian 32-bit words stored in them. */
module Words {

  const SECTOR_SIZE: nat := 512
  const TWO_28: nat := 0x1000_0000
  const TWO_32: nat := 0x1_0000_0000

  /** The low 28 bits of a word: `value & 0x0FFFFFFF`. */
  function Low28(value: nat): (low: nat)
    ensures low < TWO_28
    ensures value < TWO_28 ==> low == value
  {
    value % 0x1000_0000
  }

  /** The bits above them: `value >> 28`. */
  function Top4(value: nat): nat {
    value / 0x1000_0000
  }

  function Compose(top: nat, low: nat): nat {
    top * 0x1000_0000 + low
  }

  lemma ComposeParts(top: nat, low: nat)
    requires low < TWO_28
    ensures Top4(Compose(top, low)) == top && Low28(Compose(top, low)) == low
  {
  }

  lemma PartsCompose(value: nat)
    ensures Compose(Top4(value), Low28(value)) == value
  {
  }

  type Byte = b: int | 0 <= b < 256
  type Bytes = seq<Byte>
  type Sector = s: Bytes | |s| == 512 witness seq(512, _ => 0)

  function Zeros(n: nat): (z: Bytes)
    ensures |z| == n && forall i :: 0 <= i < n ==> z[i] == 0
  {
    seq(n, _ => 0)
  }

  function Word(b0: int, b1: int, b2: int, b3: int): int {
    b0 + 0x100 * b1 + 0x1_0000 * b2 + 0x100_0000 * b3
  }

  /** The value of the four bytes at `offset`, least significant first. */
  function Le32(b: Bytes, offset: nat): (v: nat)
    requires offset + 4 <= |b|
    ensures v < TWO_32
  {
    Word(b[offset], b[offset + 1], b[offset + 2], b[offset + 3])
  }

  function ToLe32(v: nat): (b: Bytes)
    requires v < TWO_32
    ensures |b| == 4
  {
    var v1 := v / 0x100;
    var v2 := v1 / 0x100;
    [v % 0x100, v1 % 0x100, v2 % 0x100, v2 / 0x100]
  }

  /** `b` with `part` written over the bytes from `offset` on. */
  function Splice(b: Bytes, offset: nat, part: Bytes): (r: Bytes)
    requires offset + |part| <= |b|
    ensures |r| == |b|
    ensures forall i :: 0 <= i < |b| ==> r[i] == if offset <= i < offset + |part| then part[i - offset] else b[i]
  {
    b[..offset] + part + b[offset + |part|..]
  }

  lemma Le32RoundTrip(v: nat)
    requires v < TWO_32
    ensures Le32(ToLe32(v), 0) == v
  {
  }

  /** A word written into a buffer is read back, and words that do not overlap it are kept. */
  lemma Le32AfterSplice(b: Bytes, offset: nat, v: nat, other: nat)
    requires v < TWO_32 && offset + 4 <= |b| && other + 4 <= |b|
    requires other == offset || other + 4 <= offset || offset + 4 <= other
    ensures Le32(Splice(b, offset, ToLe32(v)), other) == if other == offset then v else Le32(b, other)
  {
    Le32RoundTrip(v);
  }
}
