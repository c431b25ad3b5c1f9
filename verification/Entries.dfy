/** 32-byte directory entries and their 8.3 names. Strings are byte sequences without the closing NUL. */
module Entries {
  import opened Options
  import opened Words

  const SPACE: Byte := 0x20
  const PERIOD: Byte := 0x2E
  const DELETED: Byte := 0xE5
  const ATTR_VOLUME_ID: Byte := 0x08
  const ATTR_DIRECTORY: Byte := 0x10
  const ATTR_ARCHIVE: Byte := 0x20
  const ATTR_LFN: Byte := 0x0F

  const DOT: Bytes := [0x2E]
  const DOTDOT: Bytes := [0x2E, 0x2E]

  type RawName = b: Bytes | |b| == 11 witness seq(11, _ => 0x20)
  type Stamp = b: Bytes | |b| == 8 witness Zeros(8)
  type ShortStamp = b: Bytes | |b| == 4 witness Zeros(4)
  type Word16 = w: nat | w < 0x1_0000
  type Word32 = w: nat | w < TWO_32

  /** `created` and `written` are the time stamps the driver copies but never sets. */
  datatype DirEntry = DirEntry(
    name: RawName,
    attributes: Byte,
    created: Stamp,
    clusterHigh: Word16,
    written: ShortStamp,
    clusterLow: Word16,
    fileSize: Word32)
  {
    function Cluster(): (c: nat)
      ensures c < TWO_32
    {
      clusterHigh * 0x1_0000 + clusterLow
    }

    function WithCluster(cluster: nat): (e: DirEntry)
      requires cluster < TWO_32
    {
      this.(clusterHigh := cluster / 0x1_0000, clusterLow := cluster % 0x1_0000)
    }

    predicate IsDirectory() {
      Bit(attributes, 4)
    }

    predicate HasVolumeBit() {
      Bit(attributes, 3)
    }
  }

  /** Bit `i` of `b`. */
  predicate Bit(b: nat, i: nat) {
    if i == 0 then b % 2 == 1 else Bit(b / 2, i - 1)
  }

  lemma AttributeBits()
    ensures Bit(ATTR_VOLUME_ID, 3) && Bit(ATTR_LFN, 3) && !Bit(ATTR_DIRECTORY, 3) && !Bit(ATTR_ARCHIVE, 3)
    ensures Bit(ATTR_DIRECTORY, 4) && !Bit(ATTR_ARCHIVE, 4)
  {
    assert Bit(1, 0) && !Bit(2, 0) && !Bit(4, 0);
    assert Bit(2, 1) && Bit(3, 1) && !Bit(4, 1) && !Bit(8, 1) && Bit(2, 1) && !Bit(4, 1);
    assert Bit(4, 2) && Bit(7, 2) && !Bit(8, 2) && !Bit(16, 2);
    assert Bit(8, 3) && !Bit(16, 3);
  }

  lemma ClusterRoundTrip(e: DirEntry, cluster: nat)
    requires cluster < TWO_32
    ensures e.WithCluster(cluster).Cluster() == cluster
  {
  }

  // ----- the 32 bytes -----

  function Le16(lo: Byte, hi: Byte): (v: nat)
    ensures v < 0x1_0000
  {
    var h: int, l: int := hi, lo;
    h * 0x100 + l
  }

  function ToLe16(v: nat): (b: Bytes)
    requires v < 0x1_0000
    ensures |b| == 2 && Le16(b[0], b[1]) == v
  {
    [v % 0x100, v / 0x100]
  }

  function Decode(b: Bytes): DirEntry
    requires |b| == 32
  {
    DirEntry(b[..11], b[11], b[12..20], Le16(b[20], b[21]), b[22..26], Le16(b[26], b[27]), Le32(b[28..], 0))
  }

  function Encode(e: DirEntry): (b: Bytes)
    ensures |b| == 32
  {
    e.name + [e.attributes] + e.created + ToLe16(e.clusterHigh) + e.written + ToLe16(e.clusterLow) + ToLe32(e.fileSize)
  }

  lemma EncodeRoundTrip(e: DirEntry)
    ensures Decode(Encode(e)) == e
  {
    var b := Encode(e);
    assert b[..11] == e.name;
    assert b[12..20] == e.created;
    assert b[20..22] == ToLe16(e.clusterHigh);
    assert b[20] == b[20..22][0] && b[21] == b[20..22][1];
    assert b[22..26] == e.written;
    assert b[26..28] == ToLe16(e.clusterLow);
    assert b[26] == b[26..28][0] && b[27] == b[26..28][1];
    assert b[28..] == ToLe32(e.fileSize);
    Le32RoundTrip(e.fileSize);
  }

  /** The tombstone a deleted entry leaves: its first name byte is overwritten. */
  function Tombstone(e: DirEntry): DirEntry {
    e.(name := e.name[0 := DELETED])
  }

  lemma DecodeTombstone(b: Bytes)
    requires |b| == 32
    ensures Decode(b[0 := DELETED]) == Tombstone(Decode(b))
  {
    var b' := b[0 := DELETED];
    assert b'[12..20] == b[12..20] && b'[22..26] == b[22..26] && b'[28..] == b[28..];
    assert b'[..11] == b[..11][0 := DELETED];
  }

  /** The slots of a zeroed cluster. */
  const EMPTY_SLOT: DirEntry := Decode(Zeros(32))

  // ----- 8.3 names -----

  function IndexOf(b: Bytes, x: Byte): (i: nat)
    ensures i <= |b| && (i < |b| ==> b[i] == x)
    ensures forall j :: 0 <= j < i ==> b[j] != x
  {
    if b == [] || b[0] == x then 0 else 1 + IndexOf(b[1..], x)
  }

  /** The bytes before the first `x`. */
  function Before(b: Bytes, x: Byte): Bytes {
    b[..IndexOf(b, x)]
  }

  /** The name as it is listed and looked up: base, a dot if there is an extension, the extension.
      It ends early at a NUL, as any C string does. */
  function DisplayName(name: RawName): Bytes {
    var base := Before(name[..8], SPACE);
    Before(if name[8] == SPACE then base else base + [PERIOD] + Before(name[8..], SPACE), 0)
  }

  method GetName(entry: DirEntry) returns (output: Bytes)
    ensures output == DisplayName(entry.name) && |output| <= 12
  {
    output := [];
    var name := entry.name;
    var i := 0;
    while i < 8 && name[i] != SPACE
      invariant 0 <= i <= 8 && output == name[..i]
      invariant forall j :: 0 <= j < i ==> name[j] != SPACE
    {
      output := output + [name[i]];
      i := i + 1;
    }
    IndexUnique(name[..8], SPACE, i);
    assert output == Before(name[..8], SPACE);
    if name[8] != SPACE {
      ghost var base := output;
      output := output + [PERIOD];
      i := 8;
      while i < 11 && name[i] != SPACE
        invariant 8 <= i <= 11 && output == base + [PERIOD] + name[8..i]
        invariant forall j :: 8 <= j < i ==> name[j] != SPACE
      {
        output := output + [name[i]];
        i := i + 1;
      }
      IndexUnique(name[8..], SPACE, i - 8);
      assert output == base + [PERIOD] + Before(name[8..], SPACE);
    }
    // the reader of the string stops at the first NUL
    output := output[..IndexOf(output, 0)];
  }

  lemma IndexUnique(b: Bytes, x: Byte, i: nat)
    requires i <= |b| && (i < |b| ==> b[i] == x)
    requires forall j :: 0 <= j < i ==> b[j] != x
    ensures IndexOf(b, x) == i
  {
  }

  function Upper(c: Byte): Byte {
    if 0x61 <= c <= 0x7A then c - 32 else c
  }

  function UpperAll(b: Bytes): (r: Bytes)
    ensures |r| == |b|
  {
    seq(|b|, i requires 0 <= i < |b| => Upper(b[i]))
  }

  function Padded(b: Bytes, n: nat): (r: Bytes)
    requires |b| <= n
    ensures |r| == n
  {
    b + seq(n - |b|, _ => SPACE)
  }

  function Base(name: Bytes): Bytes {
    Before(name, PERIOD)
  }

  function Extension(name: Bytes): Bytes {
    if PERIOD in name then name[IndexOf(name, PERIOD) + 1..] else []
  }

  /** The names `directory_set_name` takes: up to eight characters, then optionally one dot and one to three more. */
  predicate Accepted(name: Bytes) {
    && 1 <= |Base(name)| <= 8
    && (PERIOD in name ==> 1 <= |Extension(name)| <= 3 && PERIOD !in Extension(name))
  }

  function ShortName(name: Bytes): RawName
    requires Accepted(name)
  {
    Padded(UpperAll(Base(name)), 8) + Padded(UpperAll(Extension(name)), 3)
  }

  function Fields(base: Bytes, extension: Bytes): Bytes
    requires |base| <= 8 && |extension| <= 3
  {
    Padded(base, 8) + Padded(extension, 3)
  }

  lemma FieldsAppend(base: Bytes, extension: Bytes, c: Byte)
    requires |base| <= 8 && |extension| <= 3
    ensures |base| < 8 ==> Fields(base, extension)[|base| := c] == Fields(base + [c], extension)
    ensures |extension| < 3 ==> Fields(base, extension)[8 + |extension| := c] == Fields(base, extension + [c])
  {
  }

  /** The base and extension after the rest of a name has been read. */
  function Parse(name: Bytes, base: Bytes, extension: Bytes, inExtension: bool): Option<(Bytes, Bytes)> {
    if name == [] then
      if base == [] || (inExtension && extension == []) then None else Some((base, extension))
    else if name[0] == PERIOD then
      if inExtension || base == [] then None else Parse(name[1..], base, extension, true)
    else if inExtension then
      if |extension| >= 3 then None else Parse(name[1..], base, extension + [Upper(name[0])], true)
    else
      if |base| >= 8 then None else Parse(name[1..], base + [Upper(name[0])], extension, false)
  }

  lemma {:induction false} ParseExtension(name: Bytes, base: Bytes, extension: Bytes)
    requires 1 <= |base| <= 8 && |extension| <= 3
    ensures Parse(name, base, extension, true)
         == if PERIOD !in name && 1 <= |extension| + |name| <= 3 then Some((base, extension + UpperAll(name))) else None
  {
    if name == [] {
      assert extension + UpperAll(name) == extension;
    } else if name[0] != PERIOD && |extension| < 3 {
      ParseExtension(name[1..], base, extension + [Upper(name[0])]);
      assert extension + UpperAll(name) == extension + [Upper(name[0])] + UpperAll(name[1..]);
    }
  }

  lemma {:induction false} ParseDotless(name: Bytes, base: Bytes)
    requires |base| <= 8 && PERIOD !in name
    ensures Parse(name, base, [], false)
         == if 1 <= |base| + |name| <= 8 then Some((base + UpperAll(name), [])) else None
  {
    if name == [] {
      assert base + UpperAll(name) == base;
    } else if |base| < 8 {
      ParseDotless(name[1..], base + [Upper(name[0])]);
      assert base + UpperAll(name) == base + [Upper(name[0])] + UpperAll(name[1..]);
    }
  }

  lemma {:induction false} ParseToDot(head: Bytes, tail: Bytes, base: Bytes)
    requires |base| <= 8 && PERIOD !in head
    ensures Parse(head + [PERIOD] + tail, base, [], false)
         == if 1 <= |base| + |head| <= 8 then Parse(tail, base + UpperAll(head), [], true) else None
  {
    var name := head + [PERIOD] + tail;
    if head == [] {
      assert name[1..] == tail && base + UpperAll(head) == base;
    } else if |base| < 8 {
      ParseToDot(head[1..], tail, base + [Upper(head[0])]);
      assert name[1..] == head[1..] + [PERIOD] + tail;
      assert base + UpperAll(head) == base + [Upper(head[0])] + UpperAll(head[1..]);
    }
  }

  /** The character loop accepts exactly the accepted names and splits them at the dot. */
  lemma ParseAccepts(name: Bytes)
    ensures Parse(name, [], [], false)
         == if Accepted(name) then Some((UpperAll(Base(name)), UpperAll(Extension(name)))) else None
  {
    var p := IndexOf(name, PERIOD);
    var head: Bytes := [];
    assert head + UpperAll(Base(name)) == UpperAll(Base(name));
    if p == |name| {
      ParseDotless(name, []);
      assert name[..p] == name && UpperAll([]) == [];
    } else {
      ParseToDot(name[..p], name[p + 1..], []);
      assert name == name[..p] + [PERIOD] + name[p + 1..];
      if 1 <= p <= 8 {
        ParseExtension(name[p + 1..], UpperAll(name[..p]), []);
        assert head + UpperAll(Extension(name)) == UpperAll(Extension(name));
      }
    }
  }

  method SetName(entry: DirEntry, name: Bytes) returns (ok: bool, named: DirEntry)
    ensures ok == Accepted(name)
    ensures named == if ok then entry.(name := ShortName(name)) else entry
  {
    ParseAccepts(name);
    named := entry;
    var shortName: Bytes := seq(11, _ => SPACE);
    var baseLength, extensionLength, inExtension := 0, 0, false;
    ghost var base: Bytes, extension: Bytes := [], [];
    var i := 0;
    while i < |name|
      invariant 0 <= i <= |name|
      invariant baseLength == |base| <= 8 && extensionLength == |extension| <= 3
      invariant shortName == Fields(base, extension)
      invariant Parse(name[i..], base, extension, inExtension) == Parse(name, [], [], false)
    {
      if name[i] == PERIOD {
        if inExtension || baseLength == 0 {
          return false, named;
        }
        inExtension := true;
        i := i + 1;
        continue;
      }
      var c := Upper(name[i]);
      FieldsAppend(base, extension, c);
      if inExtension {
        if extensionLength >= 3 {
          return false, named;
        }
        shortName := shortName[8 + extensionLength := c];
        extensionLength := extensionLength + 1;
        extension := extension + [c];
      } else {
        if baseLength >= 8 {
          return false, named;
        }
        shortName := shortName[baseLength := c];
        baseLength := baseLength + 1;
        base := base + [c];
      }
      i := i + 1;
    }
    if baseLength == 0 || (inExtension && extensionLength == 0) {
      return false, named;
    }
    ok, named := true, entry.(name := shortName);
  }

  lemma PaddedPrefix(b: Bytes, n: nat)
    requires |b| <= n && SPACE !in b
    ensures Before(Padded(b, n), SPACE) == b
  {
    IndexUnique(Padded(b, n), SPACE, |b|);
  }

  lemma UpperKeeps(b: Bytes, x: Byte)
    requires x == SPACE || x == 0 || x == PERIOD
    ensures x in UpperAll(b) <==> x in b
  {
    if x in b {
      var i :| 0 <= i < |b| && b[i] == x;
      assert UpperAll(b)[i] == x;
    }
  }

  lemma BeforeHasNo(b: Bytes, x: Byte)
    ensures x !in Before(b, x)
    ensures x !in b ==> Before(b, x) == b
    ensures forall y :: y in Before(b, x) ==> y in b
  {
  }

  lemma NameParts(name: Bytes)
    ensures name == Base(name) + (if PERIOD in name then [PERIOD] + Extension(name) else [])
    ensures forall x :: x in Base(name) || x in Extension(name) ==> x in name
  {
  }

  lemma UpperParts(a: Bytes, b: Bytes)
    ensures UpperAll(a + b) == UpperAll(a) + UpperAll(b)
  {
  }

  lemma UpperSplits(name: Bytes)
    ensures UpperAll(name)
            == UpperAll(Base(name)) + (if PERIOD in name then [PERIOD] + UpperAll(Extension(name)) else [])
  {
    NameParts(name);
    if PERIOD in name {
      UpperParts(Base(name), [PERIOD] + Extension(name));
      UpperParts([PERIOD], Extension(name));
      assert UpperAll([PERIOD]) == [PERIOD];
    }
  }

  /** What is listed for two space-free padded fields. */
  lemma FieldsListed(base: Bytes, extension: Bytes)
    requires |base| <= 8 && |extension| <= 3 && SPACE !in base && SPACE !in extension
    ensures DisplayName(Fields(base, extension))
         == Before(if extension == [] then base else base + [PERIOD] + extension, 0)
  {
    var short := Fields(base, extension);
    assert short[..8] == Padded(base, 8) && short[8..] == Padded(extension, 3);
    PaddedPrefix(base, 8);
    PaddedPrefix(extension, 3);
    assert short[8] == Padded(extension, 3)[0];
    assert extension != [] ==> short[8] == extension[0];
  }

  lemma SpaceFreeFields(name: Bytes)
    requires Accepted(name) && SPACE !in name
    ensures |UpperAll(Base(name))| <= 8 && |UpperAll(Extension(name))| <= 3
    ensures SPACE !in UpperAll(Base(name)) && SPACE !in UpperAll(Extension(name))
    ensures ShortName(name) == Fields(UpperAll(Base(name)), UpperAll(Extension(name)))
  {
    hide Before, UpperAll;
    NameParts(name);
    UpperKeeps(Base(name), SPACE);
    UpperKeeps(Extension(name), SPACE);
  }

  lemma NulFree(name: Bytes)
    requires 0 !in name
    ensures Before(UpperAll(name), 0) == UpperAll(name)
  {
    hide Before, UpperAll;
    UpperKeeps(name, 0);
    BeforeHasNo(UpperAll(name), 0);
  }

  lemma UpperJoined(name: Bytes)
    requires Accepted(name)
    ensures var base, extension := UpperAll(Base(name)), UpperAll(Extension(name));
            UpperAll(name) == if extension == [] then base else base + [PERIOD] + extension
  {
    hide Before, UpperAll, Base;
    UpperSplits(name);
    var base, extension := UpperAll(Base(name)), UpperAll(Extension(name));
    assert base + [PERIOD] + extension == base + ([PERIOD] + extension);
    assert base + [] == base;
  }

  /** Encoding a space-free name and decoding it again gives the name in upper case. */
  lemma NameRoundTrip(name: Bytes)
    requires Accepted(name) && SPACE !in name && 0 !in name
    ensures DisplayName(ShortName(name)) == UpperAll(name)
  {
    hide *;
    SpaceFreeFields(name);
    NulFree(name);
    UpperJoined(name);
    FieldsListed(UpperAll(Base(name)), UpperAll(Extension(name)));
  }

  lemma DisplayHasNoSpace(name: RawName)
    ensures SPACE !in DisplayName(name)
  {
    var base := Before(name[..8], SPACE);
    BeforeHasNo(name[..8], SPACE);
    BeforeHasNo(name[8..], SPACE);
    BeforeHasNo(if name[8] == SPACE then base else base + [PERIOD] + Before(name[8..], SPACE), 0);
  }

  /** Lookup is case-sensitive although creation is not: an entry created under `name` is listed under
      `name` exactly when the name has no space and no lower-case letter. */
  lemma ListedUnderOwnName(name: Bytes)
    requires Accepted(name) && 0 !in name
    ensures DisplayName(ShortName(name)) == name <==> SPACE !in name && UpperAll(name) == name
  {
    if SPACE !in name {
      NameRoundTrip(name);
    } else {
      DisplayHasNoSpace(ShortName(name));
    }
  }
}
