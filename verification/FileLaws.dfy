/** What reading, writing and appending mean for the contents of a file, and when. */
module FileLaws {
  import opened Options
  import opened Words
  import opened Chains
  import opened Fat32
  import opened Offsets
  import opened Entries
  import opened Slots
  import opened Listings
  import opened Directories
  import opened Iterators
  import opened FileBytes
  import opened Files

  /** Contents of a file: the first `length` bytes of its chain. */
  ghost function FileContents(data: seq<Bytes>, s: seq<nat>, clusterSize: nat, length: nat): Bytes {
    Range(data, s, clusterSize, 0, length)
  }

  // ----- writing -----

  /** After a complete write the contents are the buffer, whatever the chain held before and however long it was. */
  lemma WriteReplacesContents(fat0: Fat, s: seq<nat>, data0: seq<Bytes>, fat: Fat, t: seq<nat>, data: seq<Bytes>,
                              size: nat, b: Bytes, d: seq<nat>)
    requires size > 0 && FileSaved(fat0, s, data0, fat, t, data, size, 0, b, d)
    requires |b| <= Start(|t|, size)
    ensures FileContents(data, t, size, |b|) == b
  {
    forall p | 0 <= p < |b| ensures FileContents(data, t, size, |b|)[p] == b[p] {
      InFirst(p, |t|, size);
      assert ByteAt(data, t, size, p) == b[p];
    }
  }

  // ----- appending -----

  /** The contents a complete `file_append` leaves. */
  ghost function Appended(data0: seq<Bytes>, s: seq<nat>, clusterSize: nat, length: nat, b: Bytes): (r: Bytes)
    requires clusterSize > 0
    ensures |r| == length + |b|
  {
    var at := AppendOffset(s, length, clusterSize);
    seq<Byte>(length + |b|, p requires 0 <= p < length + |b| => ByteAfter(data0, s, clusterSize, at, b, p))
  }

  /** Byte `p` once `b` has been written at `at`. */
  function ByteAfter(data0: seq<Bytes>, s: seq<nat>, clusterSize: nat, at: nat, b: Bytes, p: nat): Byte {
    if at <= p < at + |b| then b[p - at] else ByteAt(data0, s, clusterSize, p)
  }

  lemma AppendLeaves(fat0: Fat, s: seq<nat>, data0: seq<Bytes>, fat: Fat, t: seq<nat>, data: seq<Bytes>,
                     size: nat, length: nat, b: Bytes, d: seq<nat>)
    requires size > 0 && FileSaved(fat0, s, data0, fat, t, data, size, AppendOffset(s, length, size), b, d)
    requires AppendOffset(s, length, size) + |b| <= Start(|t|, size)
    ensures FileContents(data, t, size, length + |b|) == Appended(data0, s, size, length, b)
  {
    var at := AppendOffset(s, length, size);
    forall p | 0 <= p < length + |b|
      ensures FileContents(data, t, size, length + |b|)[p] == Appended(data0, s, size, length, b)[p]
    {
      InFirst(p, |t|, size);
      assert Index(p, size) < |t| ==> ByteAt(data, t, size, p) == ByteAfter(data0, s, size, at, b, p);
    }
  }

  /** The append starts at the end of the file exactly if the last cluster is the one that holds the end. */
  lemma AppendOffsetIsEnd(s: seq<nat>, length: nat, size: nat)
    requires size > 0 && (s == [] ==> length == 0)
    ensures AppendOffset(s, length, size) == length <==> s == [] || |s| - 1 == Index(length, size)
  {
    Recompose(length, size);
    if s != [] {
      Decompose(|s| - 1, Rest(length, size), size);
    }
  }

  function OtherByte(x: Byte): Byte {
    if x == 0 then 1 else 0
  }

  /** `file_append` concatenates, for every buffer of length `n`, exactly if the file has no cluster yet or the
      last cluster of its chain is number `length / clusterSize`. It fails for a file that fills its last
      cluster to the end, and for one whose chain is longer than its length needs. */
  lemma AppendConcatenatesIff(data0: seq<Bytes>, s: seq<nat>, size: nat, length: nat, n: nat)
    requires size > 0 && n > 0 && (s == [] ==> length == 0)
    requires length <= Start(|s|, size)
    ensures (forall b: Bytes :: |b| == n ==>
               Appended(data0, s, size, length, b) == FileContents(data0, s, size, length) + b)
       <==> (s == [] || |s| - 1 == Index(length, size))
  {
    AppendOffsetIsEnd(s, length, size);
    if AppendOffset(s, length, size) == length {
      forall b: Bytes | |b| == n
        ensures Appended(data0, s, size, length, b) == FileContents(data0, s, size, length) + b
      {
      }
    } else {
      var b := MisplacedBuffer(data0, s, size, length, n);
    }
  }

  /** A buffer that shows where a misplaced append goes wrong. */
  lemma MisplacedBuffer(data0: seq<Bytes>, s: seq<nat>, size: nat, length: nat, n: nat) returns (b: Bytes)
    requires size > 0 && n > 0 && AppendOffset(s, length, size) != length
    ensures |b| == n && Appended(data0, s, size, length, b) != FileContents(data0, s, size, length) + b
  {
    var at := AppendOffset(s, length, size);
    var p := if at < length then at else length;
    var x := OtherByte(ByteAt(data0, s, size, p));
    b := seq<Byte>(n, _ => x);
    var joined := FileContents(data0, s, size, length) + b;
    assert Appended(data0, s, size, length, b)[p] == ByteAfter(data0, s, size, at, b, p);
    assert joined[p] == if at < length then ByteAt(data0, s, size, p) else x;
    assert ByteAfter(data0, s, size, at, b, p) != joined[p];
  }

  // ----- reading -----

  /** After a read that stopped inside the file the cursor agrees with the position exactly if the position is not
      a cluster boundary: the read loop moves on to the next cluster only when it wants more bytes. */
  lemma CursorAfterReadAgreesIff(fat: Fat, s: seq<nat>, size: nat, position: nat)
    requires size > 0 && IsChain(fat, s) && 0 < position && Index(position, size) < |s|
    ensures Index(position - 1, size) < |s|
    ensures s[Index(position - 1, size)] == s[Index(position, size)] <==> Rest(position, size) != 0
  {
    Advance(position - 1, 1, size);
  }

  /** The byte of the chain with which a read at `position` begins when the one before it stopped there. */
  function ResumedAt(position: nat, size: nat): nat
    requires size > 0 && position > 0
  {
    Start(Index(position - 1, size), size) + Rest(position, size)
  }

  lemma ResumedAtIs(position: nat, size: nat)
    requires size > 0 && position > 0
    ensures Rest(position, size) != 0 ==> ResumedAt(position, size) == position
    ensures Rest(position, size) == 0 ==> ResumedAt(position, size) == position - size
  {
    Recompose(position, size);
    Recompose(position - 1, size);
    Advance(position - 1, 1, size);
  }

  /** Two reads in a row: the second one begins where the cursor was left. */
  method ReadTwice(file: FileHandle, n: nat, m: nat, ghost s: seq<nat>, ghost j: nat)
    returns (first: int, second: int, joined: Bytes)
    requires file.volume.Valid() && file.ClusterSize() <= BUFFER_SIZE && file.CursorIn(s, j)
    requires Index(file.position, file.ClusterSize()) == j && n > 0 && file.position < file.size
    modifies file`position, file`currentCluster
    ensures 0 < first == Min(Min(n, file.size - old(file.position)),
                             Start(|s|, file.ClusterSize()) - old(file.position))
    ensures var from := old(file.position) + first;
            && second == (if from >= file.size then 0
                          else Min(Min(m, file.size - from),
                                   Start(|s|, file.ClusterSize()) - ResumedAt(from, file.ClusterSize())))
            && 0 <= second
            && joined == Range(file.volume.data, s, file.ClusterSize(), old(file.position), first)
                         + Range(file.volume.data, s, file.ClusterSize(), ResumedAt(from, file.ClusterSize()), second)
  {
    hide FatRefines, DataRefines, Range, ByteAt, Index, Rest, Start;
    ghost var size, start := file.ClusterSize(), file.position;
    Recompose(start, size);
    InFirst(start, |s|, size);
    var here, there;
    first, here := file.Read(n, s, j);
    second, there := file.Read(m, s, Index(start + first - 1, size));
    joined := here + there;
    if second == 0 {
      assert there == [] == Range(file.volume.data, s, size, ResumedAt(start + first, size), 0);
    }
  }

  /** The clusters of `s` exist and are of one size. */
  ghost predicate Stores(data: seq<Bytes>, s: seq<nat>, size: nat) {
    forall i :: 0 <= i < |s| ==> s[i] < |data| && |data[s[i]]| == size
  }

  /** Two reads in a row give consecutive bytes of every file with this chain if and only if the first did not end on a
      cluster boundary inside the chain. After such an end the second read begins one cluster early. */
  lemma TwoReadsJoinIff(s: seq<nat>, size: nat, start: nat, n: nat, m: nat)
    requires size > 0 && n > 0 && m > 0 && Distinct(s) && start + n <= Start(|s|, size)
    requires ResumedAt(start + n, size) + m <= Start(|s|, size)
    ensures (forall data: seq<Bytes> :: Stores(data, s, size) ==>
               Range(data, s, size, start, n) + Range(data, s, size, ResumedAt(start + n, size), m)
               == Range(data, s, size, start, n + m))
       <==> Rest(start + n, size) != 0
  {
    hide Range;
    ResumedAtIs(start + n, size);
    if Rest(start + n, size) != 0 {
      forall data: seq<Bytes>
        ensures Range(data, s, size, start, n) + Range(data, s, size, start + n, m)
                == Range(data, s, size, start, n + m)
      {
        RangeJoins(data, s, size, start, n, m);
      }
    } else {
      var data := EarlyReadData(s, size, start, n, m);
    }
  }

  lemma RangeJoins(data: seq<Bytes>, s: seq<nat>, size: nat, start: nat, n: nat, m: nat)
    ensures Range(data, s, size, start, n) + Range(data, s, size, start + n, m) == Range(data, s, size, start, n + m)
  {
    var joined := Range(data, s, size, start, n) + Range(data, s, size, start + n, m);
    forall i | 0 <= i < n + m ensures joined[i] == Range(data, s, size, start, n + m)[i] {
      assert i >= n ==> start + n + (i - n) == start + i;
    }
  }

  /** Contents that show it: one cluster of ones, at its start, among zeros. */
  lemma EarlyReadData(s: seq<nat>, size: nat, start: nat, n: nat, m: nat) returns (data: seq<Bytes>)
    requires size > 0 && n > 0 && m > 0 && Distinct(s) && start + n <= Start(|s|, size)
    requires Rest(start + n, size) == 0
    ensures Stores(data, s, size)
    ensures Range(data, s, size, start, n) + Range(data, s, size, ResumedAt(start + n, size), m)
            != Range(data, s, size, start, n + m)
  {
    hide Index, Rest, Start;
    var p := start + n;
    ResumedAtIs(p, size);
    Recompose(p, size);
    Advance(p - 1, 1, size);
    InFirst(p - 1, |s|, size);
    var j := Index(p - 1, size);
    Decompose(j, 0, size);
    Recompose(p - 1, size);
    var ones: Bytes, zeros: Bytes := seq(size, _ => 1), seq(size, _ => 0);
    data := seq<Bytes>(Above(s), c => if c == s[j] then ones else zeros);
    forall i | 0 <= i < |s| ensures s[i] < |data| && |data[s[i]]| == size {
      AboveAll(s, i);
    }
    var joined := Range(data, s, size, start, n) + Range(data, s, size, p - size, m);
    assert joined[n] == ByteAt(data, s, size, p - size) == 1;
    assert Range(data, s, size, start, n + m)[n] == ByteAt(data, s, size, p) == 0;
  }

  /** A number above every one of the list. */
  function Above(s: seq<nat>): nat {
    if s == [] then 0 else
      var more := Above(s[1..]);
      if more > s[0] then more else s[0] + 1
  }

  lemma {:induction false} AboveAll(s: seq<nat>, i: nat)
    requires i < |s|
    ensures s[i] < Above(s)
  {
    if i > 0 {
      AboveAll(s[1..], i - 1);
    }
  }

  // ----- round trip -----

  lemma UpdatedIsListed(slots: Directory, k: nat, name: Bytes, e: DirEntry)
    requires PlainVolumeBits(slots) && Found(slots, Listed(name)) && k == First(slots, Listed(name))
    requires e.name == slots[k].name && e.attributes == slots[k].attributes
    ensures FindListed(Listing(slots[k := e]), name) == Some(e)
  {
    var slots' := slots[k := e];
    FirstUnique(slots', Listed(name), k);
    FindAgrees(slots', name);
  }

  lemma StartsAtZero(t: seq<nat>, size: Positive)
    ensures Start(0, size) == 0 == Index(0, size) && Rest(0, size) == 0
  {
  }

  /** Opens the entry listed under `name` and reads `n` bytes. */
  method OpenAndRead(vol: Volume, parent: nat, name: Bytes, n: nat, ghost e: DirEntry, ghost t: seq<nat>,
                     ghost d: seq<nat>)
    returns (readBack: Bytes)
    requires IsDirectoryChain(vol, parent, d)
    requires FindListed(Listing(Contents(vol, d)), name) == Some(e)
    requires IsChain(vol.fat, t) && t[0] == e.Cluster()
    requires n == e.fileSize <= Start(|t|, vol.geometry.ClusterSize())
    requires n == 0 || vol.geometry.ClusterSize() <= BUFFER_SIZE
    ensures readBack == FileContents(vol.data, t, vol.geometry.ClusterSize(), n)
  {
    hide FatRefines, DataRefines, Listing, FindListed, ChainSlots, Range, ByteAt, Index, Start, Rest;
    StartsAtZero(t, vol.geometry.ClusterSize());
    var found := FindInCluster(vol, parent, name, d);
    var file := new FileHandle(vol, parent, found.value);
    var count;
    count, readBack := file.Read(n, t, 0);
  }

  /** `file_write`, then opening the entry the directory now lists under the same name, then one `file_read`. */
  method WriteThenRead(vol: Volume, parent: nat, name: Bytes, e: DirEntry, b: Bytes, ghost s: seq<nat>,
                       ghost d: seq<nat>)
    returns (written: int, readBack: Bytes)
    requires IsDirectoryChain(vol, parent, d) && |b| < 0x8000_0000
    requires PlainVolumeBits(Contents(vol, d))
    requires FindListed(Listing(Contents(vol, d)), name) == Some(e)
    requires e.Cluster() == 0 ==> s == []
    requires e.Cluster() != 0 ==> IsChain(vol.fat, s) && s[0] == e.Cluster() && Disjoint(s, d)
    modifies vol`sectors, vol`fat, vol`data
    ensures written == |b| ==> readBack == b
  {
    FindAgrees(Contents(vol, d), name);
    RawFindsSame(Contents(vol, d), name);
    ghost var slots, k := Contents(vol, d), First(Contents(vol, d), Listed(name));
    readBack := [];
    var file := new FileHandle(vol, parent, e);
    ghost var t;
    written, t := file.Write(b, s, d);
    if written == |b| {
      UpdatedIsListed(slots, k, name, file.entry);
      ClusterRoundTrip(e, t[0]);
      readBack := OpenAndRead(vol, parent, name, |b|, file.entry, t, d);
      WriteReplacesContents(old(vol.fat), s, old(vol.data), vol.fat, t, vol.data, vol.geometry.ClusterSize(), b, d);
    }
  }
}
