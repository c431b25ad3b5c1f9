/** Open files: `file_t` and the read and write loops of file.c. The ghost argument `s` is the chain of
    the file, `d` that of the directory holding its entry. */
module Files {
  import opened Words
  import opened Chains
  import opened Fat32
  import opened Offsets
  import opened Entries
  import opened Slots
  import opened Directories
  import opened FileBytes

  const BUFFER_SIZE: nat := 4096

  function Min(a: int, b: int): int {
    if a <= b then a else b
  }

  /** Copying `m` bytes from the cluster of byte `p`, no further than its end. */
  lemma ReadStep(data: seq<Bytes>, s: seq<nat>, size: nat, start: nat, n: nat, m: nat)
    requires size > 0
    requires var p := start + n;
             && Index(p, size) < |s| && s[Index(p, size)] < |data| && |data[s[Index(p, size)]]| == size
             && 0 < m <= size - Rest(p, size)
    ensures var p := start + n;
            && Range(data, s, size, start, n) + data[s[Index(p, size)]][Rest(p, size)..Rest(p, size) + m]
               == Range(data, s, size, start, n + m)
            && Index(p + m - 1, size) == Index(p, size)
            && Index(p + m, size) == Index(p, size) + (if Rest(p, size) + m == size then 1 else 0)
            && (p + m < Start(|s|, size) <==> Index(p + m, size) < |s|)
            && p + m <= Start(|s|, size)
  {
    var p := start + n;
    RangeAppend(data, s, size, start, n, m);
    Advance(p, m - 1, size);
    Advance(p, m, size);
    InFirst(p + m, |s|, size);
    InFirst(p + m - 1, |s|, size);
  }

  /** The effect of writing `b` at byte `at` of the file with chain `s`: the chain has grown to `t`, holds the
      new bytes, and everything outside it is as it was. */
  ghost predicate FileWritten(fat0: Fat, s: seq<nat>, data0: seq<Bytes>, fat: Fat, t: seq<nat>, data: seq<Bytes>,
                              size: nat, at: nat, b: Bytes) {
    && Grown(fat0, s, fat, t)
    && Overwritten(data0, s, data, t, size, at, b)
    && |data| == |data0|
    && forall c: nat :: c < |data| && c !in t ==> data[c] == data0[c]
  }

  lemma FileWrittenStart(fat: Fat, s: seq<nat>, data: seq<Bytes>, size: nat, at: nat)
    requires IsChain(fat, s)
    ensures FileWritten(fat, s, data, fat, s, data, size, at, [])
  {
    GrownStart(fat, s);
    OverwrittenStart(data, s, size, at);
  }

  /** One round of the write loop: `m` bytes of `b` go into the cluster of byte `p`, no further than its end. */
  lemma WriteStep(data0: seq<Bytes>, s: seq<nat>, data: seq<Bytes>, t: seq<nat>, size: nat, at: nat,
                  b: Bytes, n: nat, m: nat)
    requires size > 0 && n <= |b| && Overwritten(data0, s, data, t, size, at, b[..n])
    requires (forall i :: 0 <= i < |t| ==> t[i] < |data| && |data[t[i]]| == size) && Distinct(t)
    requires Index(at + n, size) < |t| && 0 < m <= size - Rest(at + n, size) && n + m <= |b|
    ensures var p := at + n;
            && Overwritten(data0, s,
                           data[t[Index(p, size)] := Splice(data[t[Index(p, size)]], Rest(p, size), b[n..n + m])],
                           t, size, at, b[..n + m])
            && Index(p + m, size) == Index(p, size) + (if Rest(p, size) + m == size then 1 else 0)
            && Rest(p + m, size) == (if Rest(p, size) + m == size then 0 else Rest(p, size) + m)
            && Start(Index(p, size), size) < p + m <= Start(|t|, size)
  {
    var p := at + n;
    var data' := data[t[Index(p, size)] := Splice(data[t[Index(p, size)]], Rest(p, size), b[n..n + m])];
    OverwrittenStep(data0, s, data, t, size, at, b[..n], b[n..n + m], data');
    assert b[..n] + b[n..n + m] == b[..n + m];
    Advance(p, m, size);
    Recompose(p, size);
    Advance(p, m - 1, size);
    InFirst(p + m - 1, |t|, size);
  }

  /** The clusters of a file being written exist. */
  lemma ClusterWritten(fat0: Fat, s: seq<nat>, data0: seq<Bytes>, fat: Fat, t: seq<nat>, data: seq<Bytes>, size: nat,
                       at: nat,
                       b: Bytes, k: nat)
    requires FileWritten(fat0, s, data0, fat, t, data, size, at, b) && |fat| == |data| && k < |t|
    ensures 2 <= t[k] < |data|
  {
    hide Overwritten;
  }

  /** A piece written into its cluster leaves everything else of the file and the volume as it was. */
  lemma PieceWritten(fat0: Fat, s: seq<nat>, data0: seq<Bytes>, fat: Fat, t: seq<nat>, data: seq<Bytes>, size: nat,
                     at: nat,
                     b: Bytes, done: nat, m: nat)
    requires size > 0 && done <= |b| && FileWritten(fat0, s, data0, fat, t, data, size, at, b[..done])
    requires |fat| == |data| && ClustersOfSize(data, size)
    requires Index(at + done, size) < |t| && 0 < m <= size - Rest(at + done, size) && done + m <= |b|
    requires t[Index(at + done, size)] < |data| && |data[t[Index(at + done, size)]]| == size
    ensures var p := at + done;
            && FileWritten(fat0, s, data0, fat, t,
                           data[t[Index(p, size)] := Splice(data[t[Index(p, size)]], Rest(p, size), b[done..done + m])],
                           size, at, b[..done + m])
            && Index(p + m, size) == Index(p, size) + (if Rest(p, size) + m == size then 1 else 0)
            && Rest(p + m, size) == (if Rest(p, size) + m == size then 0 else Rest(p, size) + m)
            && Start(Index(p, size), size) < p + m <= Start(|t|, size)
  {
    hide Overwritten, Index, Rest, Start, Splice;
    WriteStep(data0, s, data, t, size, at, b, done, m);
  }

  class FileHandle {
    const volume: Volume
    var firstCluster: nat
    var currentCluster: nat
    var size: nat
    var position: nat
    var parentCluster: nat
    var entry: DirEntry

    /** `file_open`. */
    constructor (vol: Volume, parent: nat, e: DirEntry)
      ensures volume == vol && parentCluster == parent && entry == e
      ensures firstCluster == currentCluster == e.Cluster() && size == e.fileSize && position == 0
    {
      volume, parentCluster, entry := vol, parent, e;
      firstCluster, currentCluster, size, position := e.Cluster(), e.Cluster(), e.fileSize, 0;
    }

    function ClusterSize(): Positive {
      volume.geometry.ClusterSize()
    }

    /** The cursor stands in the `j`-th cluster of the chain. */
    ghost predicate CursorIn(s: seq<nat>, j: nat)
      reads this, volume
    {
      volume.geometry.Valid() && IsChain(volume.fat, s) && j < |s| && currentCluster == s[j]
    }

    /** The byte of the chain that is read next: the position's offset in the cluster of the cursor. It is the position
        itself when the cursor is where the position says. */
    ghost function ReadOffset(j: nat): nat
      reads this
    {
      Start(j, ClusterSize()) + Rest(position, ClusterSize())
    }

    /** The offset of byte `p` of a file in its cluster. */
    method OffsetOf(p: nat) returns (offset: nat)
      ensures offset == Rest(p, ClusterSize())
    {
      IndexIsQuotient(p, ClusterSize());
      offset := p % volume.geometry.ClusterSize();
    }

    /** Reads on with the cursor in the `j`-th cluster, up to the end of the file or of its chain. */
    method Read(count: nat, ghost s: seq<nat>, ghost j: nat) returns (result: int, buffer: Bytes)
      requires volume.Valid()
      requires position < size && ClusterSize() <= BUFFER_SIZE ==> CursorIn(s, j)
      modifies this`position, this`currentCluster
      ensures old(position) >= size ==> result == 0 && buffer == []
      ensures old(position) < size && ClusterSize() > BUFFER_SIZE ==> result == -1
      ensures old(position) < size && ClusterSize() <= BUFFER_SIZE ==>
                && 0 <= result == Min(Min(count, size - old(position)), Start(|s|, ClusterSize()) - old(ReadOffset(j)))
                && buffer == Range(volume.data, s, ClusterSize(), old(ReadOffset(j)), result)
                && position == old(position) + result
                && (result > 0 ==> Index(old(ReadOffset(j)) + result - 1, ClusterSize()) < |s|
                                   && currentCluster == s[Index(old(ReadOffset(j)) + result - 1, ClusterSize())])
      ensures result <= 0 ==> position == old(position) && currentCluster == old(currentCluster)
    {
      result, buffer := 0, [];
      if position >= size {
        return;
      }
      var wanted := Min(count, size - position);
      var clusterSize := volume.geometry.ClusterSize();
      if clusterSize > BUFFER_SIZE {
        return -1, buffer;
      }
      Decompose(j, Rest(position, clusterSize), clusterSize);
      InFirst(ReadOffset(j), |s|, clusterSize);
      if wanted == 0 {
        return;
      }
      var current, bytesRead;
      bytesRead, buffer, current := ReadLoop(wanted, position, currentCluster, s, ReadOffset(j));
      result := bytesRead;
      position, currentCluster := position + bytesRead, current;
    }

    /** The loop of `file_read`, on copies of the cursor fields; `from` is the byte of the chain it starts with. */
    method ReadLoop(wanted: nat, start: nat, first: nat, ghost s: seq<nat>, ghost from: nat)
      returns (bytesRead: nat, buffer: Bytes, current: nat)
      requires volume.Valid() && IsChain(volume.fat, s) && wanted > 0
      requires Index(from, ClusterSize()) < |s| && first == s[Index(from, ClusterSize())]
      requires Rest(from, ClusterSize()) == Rest(start, ClusterSize())
      ensures 0 < bytesRead == Min(wanted, Start(|s|, ClusterSize()) - from)
      ensures buffer == Range(volume.data, s, ClusterSize(), from, bytesRead)
      ensures Index(from + bytesRead - 1, ClusterSize()) < |s|
      ensures current == s[Index(from + bytesRead - 1, ClusterSize())]
    {
      hide FatRefines, DataRefines, Range, ByteAt, Index, Rest, Start;
      var clusterSize := volume.geometry.ClusterSize();
      bytesRead, buffer, current := 0, [], first;
      InFirst(from, |s|, clusterSize);
      while true
        invariant bytesRead < wanted && from + bytesRead < Start(|s|, clusterSize)
        invariant Index(from + bytesRead, clusterSize) < |s| && current == s[Index(from + bytesRead, clusterSize)]
        invariant buffer == Range(volume.data, s, clusterSize, from, bytesRead)
        decreases wanted - bytesRead
      {
        ghost var p := from + bytesRead;
        var clusterBuffer := volume.ReadCluster(current);
        SameRest(from, start, bytesRead, clusterSize);
        var offset := OffsetOf(start + bytesRead);
        var toCopy := Min(wanted - bytesRead, clusterSize - offset);
        ReadStep(volume.data, s, clusterSize, from, bytesRead, toCopy);
        buffer := buffer + clusterBuffer[offset..offset + toCopy];
        bytesRead := bytesRead + toCopy;
        if bytesRead >= wanted {
          return;
        }
        assert Next(volume.fat, s[Index(p, clusterSize)])
            == if Index(p, clusterSize) + 1 < |s| then s[Index(p, clusterSize) + 1] else INVALID_CLUSTER;
        var next := volume.NextCluster(current);
        if next >= INVALID_CLUSTER {
          return;
        }
        current := next;
      }
    }

    /** The loop of `file_write_internal`, on copies of the cursor fields: writes `b` over the chain from byte
        `at` on, taking further clusters as needed. `fat0`, `s` and `data0` are the file as it was opened. */
    method WriteLoop(b: Bytes, start: nat, first: nat, ghost fat0: Fat, ghost s: seq<nat>, ghost data0: seq<Bytes>,
                     ghost at: nat, ghost t0: seq<nat>) returns (written: nat, current: nat, ghost t: seq<nat>)
      requires volume.Valid()
      requires FileWritten(fat0, s, data0, volume.fat, t0, volume.data, ClusterSize(), at, [])
      requires Rest(at, ClusterSize()) == Rest(start, ClusterSize())
      requires Index(at, ClusterSize()) < |t0| && first == t0[Index(at, ClusterSize())]
      modifies volume`sectors, volume`fat, volume`data
      ensures volume.Valid() && written <= |b| && |t| >= |t0| && t[0] == t0[0]
      ensures FileWritten(fat0, s, data0, volume.fat, t, volume.data, ClusterSize(), at, b[..written])
      ensures written < |b| ==> FreeClusters(volume.fat) == [] && at + written == Start(|t|, ClusterSize())
      ensures |t| > |t0| && written == |b| ==> Start(|t| - 1, ClusterSize()) < at + written
      ensures at + written <= Start(|t|, ClusterSize())
    {
      var clusterSize := volume.geometry.ClusterSize();
      written, current, t := 0, first, t0;
      assert b[..0] == [];
      InFirst(at, |t|, clusterSize);
      while written < |b|
        invariant volume.Valid() && written <= |b|
        invariant FileWritten(fat0, s, data0, volume.fat, t, volume.data, clusterSize, at, b[..written])
        invariant Rest(at + written, clusterSize) == Rest(start + written, clusterSize)
        invariant Index(at + written, clusterSize) < |t| && current == t[Index(at + written, clusterSize)]
        invariant |t| >= |t0| && t[0] == t0[0] && (|t| > |t0| ==> Index(at + written, clusterSize) == |t| - 1)
        invariant written < |b| || (written == 0 && t == t0)
      {
        ghost var k := Index(at + written, clusterSize);
        written := WritePiece(b, start, written, current, fat0, s, data0, t, at);
        if written == |b| {
          return;
        }
        current, t := NextOrNew(current, fat0, s, data0, at, b[..written], t, k);
        if current == 0 {
          return;
        }
      }
    }

    /** Writes as much of the rest of `b` as fits into the current cluster. */
    method WritePiece(b: Bytes, start: nat, done: nat, current: nat, ghost fat0: Fat, ghost s: seq<nat>,
                      ghost data0: seq<Bytes>, ghost t: seq<nat>, ghost at: nat) returns (written: nat)
      requires volume.Valid() && done < |b|
      requires FileWritten(fat0, s, data0, volume.fat, t, volume.data, ClusterSize(), at, b[..done])
      requires Rest(at + done, ClusterSize()) == Rest(start + done, ClusterSize())
      requires Index(at + done, ClusterSize()) < |t| && current == t[Index(at + done, ClusterSize())]
      modifies volume`sectors, volume`data
      ensures volume.Valid() && done < written <= |b|
      ensures FileWritten(fat0, s, data0, volume.fat, t, volume.data, ClusterSize(), at, b[..written])
      ensures Rest(at + written, ClusterSize()) == Rest(start + written, ClusterSize())
      ensures Start(Index(at + done, ClusterSize()), ClusterSize()) < at + written <= Start(|t|, ClusterSize())
      ensures written < |b| ==>
                && Index(at + written, ClusterSize()) == Index(at + done, ClusterSize()) + 1
                && at + written == Start(Index(at + done, ClusterSize()) + 1, ClusterSize())
    {
      hide FatRefines, DataRefines, Index, Rest, Start, FileWritten, Splice;
      var clusterSize := volume.geometry.ClusterSize();
      ClusterWritten(fat0, s, data0, volume.fat, t, volume.data, clusterSize, at, b[..done],
                     Index(at + done, clusterSize));
      var clusterBuffer := volume.ReadCluster(current);
      var offset := OffsetOf(start + done);
      var toCopy := Min(|b| - done, clusterSize - offset);
      written := done + toCopy;
      PieceWritten(fat0, s, data0, volume.fat, t, volume.data, clusterSize, at, b, done, toCopy);
      Advance(start + done, toCopy, clusterSize);
      Recompose(at + written, clusterSize);
      volume.WriteCluster(current, Splice(clusterBuffer, offset, b[done..written]));
    }

    /** The next cluster of the file, a new one if the write loop has filled its chain `t`; 0 if there is none. */
    method NextOrNew(current: nat, ghost fat0: Fat, ghost s: seq<nat>, ghost data0: seq<Bytes>, ghost at: nat,
                     ghost done: Bytes, ghost t: seq<nat>, ghost k: nat) returns (next: nat, ghost t': seq<nat>)
      requires volume.Valid() && k < |t| && current == t[k]
      requires FileWritten(fat0, s, data0, volume.fat, t, volume.data, ClusterSize(), at, done)
      requires at + |done| == Start(k + 1, ClusterSize())
      modifies volume`sectors, volume`fat, volume`data
      ensures volume.Valid()
      ensures FileWritten(fat0, s, data0, volume.fat, t', volume.data, ClusterSize(), at, done)
      ensures next == 0 ==> t' == t && k + 1 == |t| && FreeClusters(volume.fat) == []
      ensures next != 0 ==> k + 1 < |t'| && t'[k + 1] == next && (t' == t || |t'| == k + 2)
      ensures |t'| >= |t| && t'[0] == t[0]
    {
      assert Next(volume.fat, t[k]) == if k + 1 < |t| then t[k + 1] else INVALID_CLUSTER;
      t' := t;
      next := volume.NextCluster(current);
      if next == INVALID_CLUSTER {
        ghost var fat1, data1 := volume.fat, volume.data;
        next := volume.Lengthen(t, k, current);
        if next != 0 {
          GrownStep(fat0, s, fat1, t, next, volume.fat);
          OverwrittenGrow(data0, s, data1, t, ClusterSize(), at, done, next, volume.data);
          t' := t + [next];
        }
      }
    }

    /** The file's chain `s` (none if it has no cluster yet) keeps clear of the directory chain `d`
        that holds its entry, and the entry is one the directory scan stops at. */
    ghost predicate Opened(s: seq<nat>, d: seq<nat>)
      reads this, volume
    {
      && IsDirectoryChain(volume, parentCluster, d)
      && entry.Cluster() == firstCluster
      && Judge(entry, Raw(entry.name)) == Hit
      && (firstCluster == 0 ==> s == [])
      && (firstCluster != 0 ==> IsChain(volume.fat, s) && s[0] == firstCluster && Disjoint(s, d))
    }

    /** Gives a file without clusters its first one. */
    method EnsureFirstCluster(ghost s: seq<nat>, ghost d: seq<nat>, ghost at: nat) returns (ok: bool, ghost t: seq<nat>)
      requires Opened(s, d)
      modifies this, volume`sectors, volume`fat, volume`data
      ensures ok == (firstCluster != 0) == (old(firstCluster) != 0 || FreeClusters(old(volume.fat)) != [])
      ensures old(firstCluster) != 0 ==> t == s && currentCluster == old(currentCluster) && entry == old(entry)
      ensures old(firstCluster) == 0 && ok ==> t == [firstCluster] && currentCluster == firstCluster
      ensures ok ==> IsChain(volume.fat, t) && t[0] == firstCluster < TWO_32
      ensures ok ==> entry == old(entry).WithCluster(firstCluster)
      ensures ok ==>
                FileWritten(old(volume.fat), s, old(volume.data), volume.fat, t, volume.data, ClusterSize(), at, [])
      ensures !ok ==> volume.fat == old(volume.fat) && volume.data == old(volume.data) && entry == old(entry)
      ensures volume.Valid()
      ensures size == old(size) && position == old(position) && parentCluster == old(parentCluster)
    {
      ok, t := true, s;
      if firstCluster == 0 {
        var cluster := volume.AllocateCluster();
        if cluster == 0 {
          return false, t;
        }
        FirstClusterWritten(old(volume.fat), old(volume.data), cluster, volume.fat, volume.data, ClusterSize(), at);
        firstCluster, currentCluster, entry := cluster, cluster, entry.WithCluster(cluster);
        t := [cluster];
      } else {
        FileWrittenStart(volume.fat, s, volume.data, ClusterSize(), at);
        ClusterUnchanged(entry);
      }
    }

    /** `file_write_internal`: writes `b` at byte `at` of the chain and then saves the entry. */
    method WriteInternal(b: Bytes, ghost s: seq<nat>, ghost d: seq<nat>, ghost at: nat)
      returns (result: int, ghost t: seq<nat>)
      requires Opened(s, d)
      requires Index(at, ClusterSize()) < |s| || (s == [] && Index(at, ClusterSize()) == 0)
      requires Rest(at, ClusterSize()) == Rest(position, ClusterSize())
      requires s != [] ==> currentCluster == s[Index(at, ClusterSize())]
      requires position + |b| < TWO_32 && size < TWO_32
      modifies this, volume`sectors, volume`fat, volume`data
      ensures volume.Valid()
      ensures parentCluster == old(parentCluster)
      ensures result == -101 <==> old(firstCluster) == 0 && FreeClusters(old(volume.fat)) == []
      ensures result == -101 ==> volume.fat == old(volume.fat) && volume.data == old(volume.data)
      ensures result == -102 <==> result != -101 && ClusterSize() > BUFFER_SIZE
      ensures result == -102 ==>
                FileWritten(old(volume.fat), s, old(volume.data), volume.fat, t, volume.data, ClusterSize(), at, [])
      ensures result == -101 || result == -102 || result == -105 || 0 <= result <= |b|
      ensures Found(old(Contents(volume, d)), Raw(old(entry.name))) ==> result != -105
      ensures result == |b| ==> Found(old(Contents(volume, d)), Raw(old(entry.name)))
      ensures result == |b| && |t| > |s| && |t| > 1 ==> Start(|t| - 1, ClusterSize()) < at + |b|
      ensures result == -105 ==>
                FileWritten(old(volume.fat), s, old(volume.data), volume.fat, t, volume.data, ClusterSize(), at, b)
                && at + |b| <= Start(|t|, ClusterSize())
      ensures 0 <= result < |b| ==>
                && FileWritten(old(volume.fat), s, old(volume.data), volume.fat, t, volume.data, ClusterSize(), at,
                               b[..result])
                && at + result == Start(|t|, ClusterSize()) && FreeClusters(volume.fat) == []
      ensures result == |b| ==>
                && FileSaved(old(volume.fat), s, old(volume.data), volume.fat, t, volume.data, ClusterSize(), at, b, d)
                && at + |b| <= Start(|t|, ClusterSize())
                && IsDirectoryChain(volume, parentCluster, d)
                && t[0] == firstCluster < TWO_32
                && size == (if position > old(size) then position else old(size)) < TWO_32
                && position == old(position) + |b|
                && entry == old(entry).WithCluster(firstCluster).(fileSize := size)
                && Contents(volume, d)
                   == old(Contents(volume, d))[First(old(Contents(volume, d)), Raw(entry.name)) := entry]
    {
      hide FatRefines, DataRefines, ChainSlots, First, Judge, Grown, Overwritten, FileWritten, FileSaved, Start, Index,
           Rest;
      ghost var fat0, data0 := volume.fat, volume.data;
      WithinFirst(at, ClusterSize());
      var ok;
      ok, t := EnsureFirstCluster(s, d, at);
      if !ok {
        return -101, t;
      }
      if volume.geometry.ClusterSize() > BUFFER_SIZE {
        return -102, t;
      }
      var saved;
      result, saved, t := WriteOut(b, fat0, s, data0, t, d, at);
      if result == |b| && !saved {
        result := -105;
      }
    }

    /** The rest of `file_write_internal`, for a file that has a cluster. */
    method WriteOut(b: Bytes, ghost fat0: Fat, ghost s: seq<nat>, ghost data0: seq<Bytes>, ghost t0: seq<nat>,
                    ghost d: seq<nat>, ghost at: nat) returns (written: nat, saved: bool, ghost t: seq<nat>)
      requires volume.Valid() && position + |b| < TWO_32 && size < TWO_32
      requires FileWritten(fat0, s, data0, volume.fat, t0, volume.data, ClusterSize(), at, [])
      requires Rest(at, ClusterSize()) == Rest(position, ClusterSize())
      requires Index(at, ClusterSize()) < |t0| && currentCluster == t0[Index(at, ClusterSize())]
      requires IsChain(fat0, d) && d[0] == parentCluster && Disjoint(s, d) && AllInData(data0, d)
      modifies this`size, this`entry, this`position, this`currentCluster, volume`sectors, volume`fat, volume`data
      ensures volume.Valid() && |t| >= |t0| && t[0] == t0[0] && written <= |b|
      ensures |t| > |t0| && written == |b| ==> Start(|t| - 1, ClusterSize()) < at + written
      ensures at + written <= Start(|t|, ClusterSize())
      ensures position == old(position) + written
      ensures written < |b| ==>
                && FileWritten(fat0, s, data0, volume.fat, t, volume.data, ClusterSize(), at, b[..written])
                && at + written == Start(|t|, ClusterSize()) && FreeClusters(volume.fat) == []
                && size == old(size) && entry == old(entry)
      ensures written == |b| ==> saved == Found(ChainSlots(data0, d), Raw(old(entry.name)))
      ensures written == |b| && !saved ==>
                FileWritten(fat0, s, data0, volume.fat, t, volume.data, ClusterSize(), at, b)
      ensures written == |b| && saved ==>
                && FileSaved(fat0, s, data0, volume.fat, t, volume.data, ClusterSize(), at, b, d)
                && IsDirectoryChain(volume, parentCluster, d)
                && size == (if position > old(size) then position else old(size)) < TWO_32
                && entry == old(entry).(fileSize := size)
                && Contents(volume, d) == ChainSlots(data0, d)[First(ChainSlots(data0, d), Raw(entry.name)) := entry]
    {
      var current;
      written, current, t := WriteLoop(b, position, currentCluster, fat0, s, data0, at, t0);
      position, currentCluster := position + written, current;
      saved := false;
      if written < |b| {
        return;
      }
      assert b[..written] == b;
      saved := SaveEntry(b, fat0, s, data0, t, d, at);
    }

    /** The end of `file_write_internal`: the whole buffer is on the disk, the size goes into the entry. */
    method SaveEntry(b: Bytes, ghost fat0: Fat, ghost s: seq<nat>, ghost data0: seq<Bytes>, ghost t: seq<nat>,
                     ghost d: seq<nat>, ghost at: nat) returns (saved: bool)
      requires volume.Valid() && position < TWO_32 && size < TWO_32
      requires FileWritten(fat0, s, data0, volume.fat, t, volume.data, ClusterSize(), at, b)
      requires IsChain(fat0, d) && d[0] == parentCluster && Disjoint(s, d) && AllInData(data0, d)
      modifies this`size, this`entry, volume`sectors, volume`data
      ensures IsDirectoryChain(volume, parentCluster, d)
      ensures saved == Found(ChainSlots(data0, d), Raw(old(entry.name)))
      ensures !saved ==> volume.data == old(volume.data)
      ensures FileSaved(fat0, s, data0, volume.fat, t, volume.data, ClusterSize(), at, b, d)
      ensures size == (if position > old(size) then position else old(size)) < TWO_32
      ensures entry == old(entry).(fileSize := size)
      ensures saved ==>
                Contents(volume, d) == ChainSlots(data0, d)[First(ChainSlots(data0, d), Raw(entry.name)) := entry]
    {
      DirectoryKeptClear(fat0, s, volume.fat, t, d);
      ChainSlotsFrame(data0, volume.data, d);
      if position > size {
        size := position;
      }
      entry := entry.(fileSize := size);
      ghost var data1 := volume.data;
      saved := UpdateEntry(volume, parentCluster, entry, d);
      OverwrittenFrame(data0, s, data1, volume.data, t, ClusterSize(), at, b);
    }

    /** `file_write`: empties the entry and writes `b` from the start of the old chain, which it keeps. */
    method Write(b: Bytes, ghost s: seq<nat>, ghost d: seq<nat>) returns (result: int, ghost t: seq<nat>)
      requires Opened(s, d) && |b| < 0x8000_0000
      modifies this, volume`sectors, volume`fat, volume`data
      ensures volume.Valid() && parentCluster == old(parentCluster)
      ensures result == -1 <==> !Found(old(Contents(volume, d)), Raw(old(entry.name)))
      ensures result == -1 ==> volume.fat == old(volume.fat) && volume.data == old(volume.data)
      ensures result == -101 <==> result != -1 && old(firstCluster) == 0 && FreeClusters(old(volume.fat)) == []
      ensures result == -102 <==> result != -1 && result != -101 && ClusterSize() > BUFFER_SIZE
      ensures result < 0 ==> result == -1 || result == -101 || result == -102
      ensures result == -101 ==>
                && volume.fat == old(volume.fat) && |volume.data| == |old(volume.data)|
                && forall c: nat :: c < |volume.data| && c !in d ==> volume.data[c] == old(volume.data)[c]
      ensures result == -102 ==>
                FileSaved(old(volume.fat), s, old(volume.data), volume.fat, t, volume.data, ClusterSize(), 0, [], d)
      ensures result != -1 && result != |b| ==>
                && IsDirectoryChain(volume, parentCluster, d)
                && Contents(volume, d) == old(Contents(volume, d))[First(old(Contents(volume, d)), Raw(old(entry.name)))
                                                                   := old(entry).(fileSize := 0)]
      ensures 0 <= result < |b| ==>
                && FileSaved(old(volume.fat), s, old(volume.data), volume.fat, t, volume.data, ClusterSize(), 0,
                             b[..result], d)
                && result == Start(|t|, ClusterSize()) && FreeClusters(volume.fat) == []
      ensures result == |b| ==>
                && FileSaved(old(volume.fat), s, old(volume.data), volume.fat, t, volume.data, ClusterSize(), 0, b, d)
                && |b| <= Start(|t|, ClusterSize())
                && IsDirectoryChain(volume, parentCluster, d)
                && entry == old(entry).WithCluster(t[0]).(fileSize := |b|)
                && Contents(volume, d)
                   == old(Contents(volume, d))[First(old(Contents(volume, d)), Raw(entry.name)) := entry]
      ensures result <= |b|
    {
      hide FatRefines, DataRefines, Grown, Overwritten, ChainSlots, First;
      ghost var fat0, data0, slots := volume.fat, volume.data, Contents(volume, d);
      assert AllInData(data0, s);
      position, size, currentCluster, entry := 0, 0, firstCluster, entry.(fileSize := 0);
      t := s;
      var updated := UpdateEntry(volume, parentCluster, entry, d);
      if !updated {
        return -1, t;
      }
      ghost var data1, k := volume.data, First(slots, Raw(entry.name));
      ReplacedIsFound(slots, k, entry);
      assert firstCluster != 0 ==> IsChain(volume.fat, s);
      result, t := WriteInternal(b, s, d, 0);
      if result == -101 {
        return;
      }
      ghost var done := if result == -102 then [] else b[..result];
      assert result == |b| ==> done == b;
      if result < |b| {
        DirectoryKeptClear(fat0, s, volume.fat, t, d);
        ChainSlotsFrame(data1, volume.data, d);
      }
      FileSavedFrom(fat0, s, data0, data1, volume.fat, t, volume.data, ClusterSize(), done, d);
    }

    /** `file_append`: writes `b` into the last cluster of the chain, at the offset the old size has in its cluster. */
    method Append(b: Bytes, ghost s: seq<nat>, ghost d: seq<nat>) returns (result: int, ghost t: seq<nat>)
      requires Opened(s, d) && size + |b| < TWO_32
      modifies this, volume`sectors, volume`fat, volume`data
      ensures volume.Valid() && parentCluster == old(parentCluster)
      ensures result == -101 <==> old(firstCluster) == 0 && FreeClusters(old(volume.fat)) == []
      ensures result == -102 <==> result != -101 && ClusterSize() > BUFFER_SIZE
      ensures result == -102 ==>
                FileWritten(old(volume.fat), s, old(volume.data), volume.fat, t, volume.data, ClusterSize(),
                            AppendOffset(s, old(size), ClusterSize()), [])
      ensures result == -101 || result == -102 || result == -105 || 0 <= result <= |b|
      ensures result == -101 ==> volume.fat == old(volume.fat) && volume.data == old(volume.data)
      ensures Found(old(Contents(volume, d)), Raw(old(entry.name))) ==> result != -105
      ensures result == |b| ==> Found(old(Contents(volume, d)), Raw(old(entry.name)))
      ensures result == |b| && |t| > |s| && |t| > 1 ==>
                Start(|t| - 1, ClusterSize()) < AppendOffset(s, old(size), ClusterSize()) + |b|
      ensures result == -105 ==>
                FileWritten(old(volume.fat), s, old(volume.data), volume.fat, t, volume.data, ClusterSize(),
                            AppendOffset(s, old(size), ClusterSize()), b)
                && AppendOffset(s, old(size), ClusterSize()) + |b| <= Start(|t|, ClusterSize())
      ensures 0 <= result < |b| ==>
                && FreeClusters(volume.fat) == []
                && AppendOffset(s, old(size), ClusterSize()) + result == Start(|t|, ClusterSize())
      ensures 0 <= result < |b| ==>
                FileWritten(old(volume.fat), s, old(volume.data), volume.fat, t, volume.data, ClusterSize(),
                            AppendOffset(s, old(size), ClusterSize()), b[..result])
      ensures result == |b| ==>
                && FileSaved(old(volume.fat), s, old(volume.data), volume.fat, t, volume.data, ClusterSize(),
                             AppendOffset(s, old(size), ClusterSize()), b, d)
                && AppendOffset(s, old(size), ClusterSize()) + |b| <= Start(|t|, ClusterSize())
                && IsDirectoryChain(volume, parentCluster, d)
                && t[0] == firstCluster < TWO_32
                && size == old(size) + |b|
                && entry == old(entry).WithCluster(firstCluster).(fileSize := size)
                && Contents(volume, d)
                   == old(Contents(volume, d))[First(old(Contents(volume, d)), Raw(entry.name)) := entry]
    {
      var clusterSize := volume.geometry.ClusterSize();
      var last := LastCluster(firstCluster, s);
      position, currentCluster := size, last;
      ghost var at := AppendOffset(s, size, clusterSize);
      Decompose(if s == [] then 0 else |s| - 1, Rest(size, clusterSize), clusterSize);
      result, t := WriteInternal(b, s, d, at);
    }

    /** Walks to the end of the chain; `first` itself if there is none. */
    method LastCluster(first: nat, ghost s: seq<nat>) returns (last: nat)
      requires volume.Valid() && (first == 0 ==> s == [])
      requires first != 0 ==> IsChain(volume.fat, s) && s[0] == first
      ensures last == if s == [] then 0 else s[|s| - 1]
    {
      last := first;
      ghost var k := 0;
      while true
        invariant s == [] ==> last == 0
        invariant s != [] ==> 0 <= k < |s| && last == s[k]
        decreases |s| - k
      {
        assert s != [] ==> Next(volume.fat, s[k]) == if k + 1 < |s| then s[k + 1] else INVALID_CLUSTER;
        var next := volume.NextCluster(last);
        if next == INVALID_CLUSTER {
          break;
        }
        last := next;
        k := k + 1;
      }
    }
  }

  /** Where `file_append` starts writing: in the last cluster of the chain. */
  ghost function AppendOffset(s: seq<nat>, size: nat, clusterSize: nat): nat
    requires clusterSize > 0
  {
    Start(if s == [] then 0 else |s| - 1, clusterSize) + Rest(size, clusterSize)
  }

  lemma WithinFirst(at: nat, n: nat)
    requires n > 0
    ensures Index(at, n) == 0 ==> at == Rest(at, n)
  {
  }

  /** The entry an update has written is the one the next update finds. */
  lemma ReplacedIsFound(slots: Directory, k: nat, e: DirEntry)
    requires Found(slots, Raw(e.name)) && k == First(slots, Raw(e.name))
    requires Judge(e, Raw(e.name)) == Hit
    ensures Found(slots[k := e], Raw(e.name)) && First(slots[k := e], Raw(e.name)) == k
  {
    FirstUnique(slots[k := e], Raw(e.name), k);
  }

  ghost predicate AllInData(data: seq<Bytes>, s: seq<nat>) {
    forall i :: 0 <= i < |s| ==> s[i] < |data|
  }

  /** The file has been written and its entry saved: besides its chain only the directory `d` has changed. */
  ghost predicate FileSaved(fat0: Fat, s: seq<nat>, data0: seq<Bytes>, fat: Fat, t: seq<nat>, data: seq<Bytes>,
                            size: nat, at: nat, b: Bytes, d: seq<nat>) {
    && Grown(fat0, s, fat, t) && Disjoint(t, d)
    && Overwritten(data0, s, data, t, size, at, b)
    && |data| == |data0|
    && forall c: nat :: c < |data| && c !in t && c !in d ==> data[c] == data0[c]
  }

  /** A first change inside the directory only does not matter. */
  lemma FileSavedFrom(fat0: Fat, s: seq<nat>, data0: seq<Bytes>, data1: seq<Bytes>, fat: Fat, t: seq<nat>,
                      data: seq<Bytes>, size: nat, b: Bytes, d: seq<nat>)
    requires |data0| == |data1| == |data| && AllInData(data0, s) && Disjoint(s, d)
    requires forall c: nat :: c < |data0| && c !in d ==> data0[c] == data1[c]
    requires Grown(fat0, s, fat, t) && Disjoint(t, d)
    requires Overwritten(data1, s, data, t, size, 0, b)
    requires forall c: nat :: c < |data| && c !in t && c !in d ==> data[c] == data1[c]
    ensures FileSaved(fat0, s, data0, fat, t, data, size, 0, b, d)
  {
    forall p: nat | size > 0 && Index(p, size) < |t| ensures ByteAt(data1, s, size, p) == ByteAt(data0, s, size, p) {
    }
  }

  /** A chain that was disjoint from the file's stays a chain and disjoint when the file grows. */
  lemma DirectoryKeptClear(fat0: Fat, s: seq<nat>, fat: Fat, t: seq<nat>, d: seq<nat>)
    requires Grown(fat0, s, fat, t) && IsChain(fat0, d) && Disjoint(s, d)
    ensures IsChain(fat, d) && Disjoint(t, d)
  {
    ChainNotFree(fat0, d);
    forall i, j | 0 <= i < |t| && 0 <= j < |d| ensures t[i] != d[j] {
      if i >= |s| {
        assert t[i] == t[|s|..][i - |s|] == FreeClusters(fat0)[i - |s|];
      }
    }
    ChainFrame(fat0, fat, d);
  }

  lemma OverwrittenFrame(data0: seq<Bytes>, s: seq<nat>, data: seq<Bytes>, data': seq<Bytes>, t: seq<nat>,
                         size: nat, at: nat, b: Bytes)
    requires Overwritten(data0, s, data, t, size, at, b) && |data| == |data'|
    requires forall i :: 0 <= i < |t| ==> t[i] < |data| && data[t[i]] == data'[t[i]]
    ensures Overwritten(data0, s, data', t, size, at, b)
  {
    forall p: nat | size > 0 && Index(p, size) < |t| ensures ByteAt(data', t, size, p) == ByteAt(data, t, size, p) {
    }
  }

  lemma ClusterUnchanged(e: DirEntry)
    ensures e.WithCluster(e.Cluster()) == e
  {
  }

  lemma FirstClusterWritten(fat0: Fat, data0: seq<Bytes>, c: nat, fat: Fat, data: seq<Bytes>, size: nat, at: nat)
    requires |fat0| == |data0| && size > 0
    requires c == LowestFree(fat0) != 0 && fat == fat0[c := CLUSTER_EOC] && data == data0[c := Zeros(size)]
    ensures IsChain(fat, [c]) && FileWritten(fat0, [], data0, fat, [c], data, size, at, [])
  {
    FreeFromTake(fat0, fat, 2);
    var s: seq<nat> := [c];
    assert Next(fat, s[0]) == INVALID_CLUSTER;
    forall p: nat | Index(p, size) < |s| ensures ByteAt(data, s, size, p) == 0 == ByteAt(data0, [], size, p) {
    }
  }
}
