/** The routines of directory.c that search and change one directory, given the first cluster of its
    chain. The ghost argument `s` is that chain; all contracts speak of the directory's slot sequence. */
module Directories {
  import opened Options
  import opened Words
  import opened Chains
  import opened Fat32
  import opened Entries
  import opened Slots
  import opened Listings

  /** Where a slot lives: entry `index` of sector `sector` of cluster `cluster`. */
  datatype Place = Place(cluster: nat, sector: nat, index: nat)

  ghost predicate IsDirectoryChain(vol: Volume, cluster: nat, s: seq<nat>)
    reads vol
  {
    && vol.Valid() && IsChain(vol.fat, s) && s[0] == cluster
    && forall i :: 0 <= i < |s| ==> s[i] < |vol.data|
  }

  /** The slots of the directory whose chain is `s`. */
  ghost function Contents(vol: Volume, s: seq<nat>): (slots: Directory)
    requires forall i :: 0 <= i < |s| ==> s[i] < |vol.data|
    reads vol
  {
    ChainSlots(vol.data, s)
  }

  /** `place` is slot `k` of the directory. */
  ghost predicate IsPlace(vol: Volume, s: seq<nat>, place: Place, k: nat)
    requires forall i :: 0 <= i < |s| ==> s[i] < |vol.data|
    reads vol
  {
    && place.sector < vol.geometry.sectorsPerCluster && place.index < 16
    && exists i :: 0 <= i < |s| && place.cluster == s[i]
                   && k == SlotBase(vol.data, s, i) + 16 * place.sector + place.index
  }

  /** The first entry of one sector that ends the search. */
  method ScanSector(sector: Sector, want: Wanted) returns (i: nat, verdict: Verdict)
    ensures i <= 16 && (i < 16 <==> verdict != Skip)
    ensures forall j :: 0 <= j < i ==> Judge(SlotsOf(sector)[j], want) == Skip
    ensures i < 16 ==> verdict == Judge(SlotsOf(sector)[i], want)
  {
    hide Judge, SlotsOf, Decode;
    i := 0;
    while i < 16
      invariant 0 <= i <= 16
      invariant forall j :: 0 <= j < i ==> Judge(SlotsOf(sector)[j], want) == Skip
    {
      var e := SlotsOf(sector)[i];
      verdict := Judge(e, want);
      if verdict != Skip {
        return;
      }
      i := i + 1;
    }
    verdict := Skip;
  }

  /** The nested cluster, sector and entry loops the editing routines share. */
  method Scan(vol: Volume, cluster: nat, want: Wanted, ghost s: seq<nat>) returns (place: Option<Place>)
    requires IsDirectoryChain(vol, cluster, s)
    ensures var slots := Contents(vol, s);
            place.Some? == Found(slots, want)
            && (place.Some? ==> IsPlace(vol, s, place.value, First(slots, want)))
  {
    hide FatRefines, DataRefines, ChainSlots, First, Judge;
    var current := cluster;
    ghost var c := 0;
    SlotsOfCluster(vol.data, s, 0);
    while current < CLUSTER_LAST
      invariant 0 <= c <= |s|
      invariant current == if c < |s| then s[c] else INVALID_CLUSTER
      invariant AllSkipped(Contents(vol, s), SlotBase(vol.data, s, c), want)
      decreases |s| - c
    {
      var sector, i, verdict := ScanCluster(vol, current, want);
      ghost var n := if verdict == Skip then |SlotsOf(vol.data[current])| else 16 * sector + i;
      SkippedInto(vol.data, s, c, n, want);
      if verdict != Skip {
        FirstUnique(Contents(vol, s), want, SlotBase(vol.data, s, c) + n);
        place := if verdict == Hit then Some(Place(current, sector, i)) else None;
        return;
      }
      assert Next(vol.fat, s[c]) == if c + 1 < |s| then s[c + 1] else INVALID_CLUSTER;
      current := vol.NextCluster(current);
      c := c + 1;
    }
    FirstUnique(Contents(vol, s), want, |Contents(vol, s)|);
    place := None;
  }

  /** The sector and entry loops over one cluster. */
  method ScanCluster(vol: Volume, cluster: nat, want: Wanted) returns (sector: nat, i: nat, verdict: Verdict)
    requires vol.Valid() && vol.geometry.HasCluster(cluster)
    ensures var slots := SlotsOf(vol.data[cluster]);
            && |slots| == 16 * vol.geometry.sectorsPerCluster
            && (verdict != Skip ==>
                  && sector < vol.geometry.sectorsPerCluster && i < 16
                  && verdict == Judge(slots[16 * sector + i], want)
                  && AllSkipped(slots, 16 * sector + i, want))
            && (verdict == Skip ==> AllSkipped(slots, |slots|, want))
  {
    ghost var slots := SlotsOf(vol.data[cluster]);
    sector := 0;
    while sector < vol.geometry.sectorsPerCluster
      invariant 0 <= sector <= vol.geometry.sectorsPerCluster
      invariant forall k :: 0 <= k < 16 * sector ==> Judge(slots[k], want) == Skip
    {
      var bytes := vol.ReadDataSector(cluster, sector);
      i, verdict := ScanSector(bytes, want);
      forall k | 16 * sector <= k < 16 * sector + 16
        ensures slots[k] == SlotsOf(bytes)[k - 16 * sector]
      {
        SlotOfPart(vol.data[cluster], sector, k - 16 * sector);
      }
      if verdict != Skip {
        return;
      }
      sector := sector + 1;
    }
    i, verdict := 0, Skip;
  }

  /** Nothing but the clusters of `s` has changed, and no link. */
  twostate predicate OnlyChanged(vol: Volume, s: seq<nat>)
    reads vol
  {
    && vol.fat == old(vol.fat)
    && |vol.data| == |old(vol.data)|
    && forall c :: 0 <= c < |vol.data| && c !in s ==> vol.data[c] == old(vol.data)[c]
  }

  /** Replaces the 32 bytes at `place`. */
  method WriteSlot(vol: Volume, place: Place, bytes: Bytes, ghost s: seq<nat>, ghost k: nat)
    requires |s| > 0 && IsDirectoryChain(vol, s[0], s)
    requires IsPlace(vol, s, place, k) && |bytes| == 32
    modifies vol`sectors, vol`data
    ensures IsDirectoryChain(vol, s[0], s) && OnlyChanged(vol, s)
    ensures k < |old(Contents(vol, s))| && Contents(vol, s) == old(Contents(vol, s))[k := Decode(bytes)]
  {
    ghost var i :| 0 <= i < |s| && place.cluster == s[i]
                   && k == SlotBase(vol.data, s, i) + 16 * place.sector + place.index;
    ghost var data0 := vol.data;
    var sector := vol.ReadDataSector(place.cluster, place.sector);
    SlotAfterWrite(data0[s[i]], place.sector, place.index, bytes);
    sector := Splice(sector, 32 * place.index, bytes);
    vol.WriteDataSector(place.cluster, place.sector, sector);
    ChainSlotsUpdate(data0, s, i, 16 * place.sector + place.index, vol.data[s[i]], Decode(bytes));
  }

  /** Reads the 32 bytes at `place`. */
  method ReadSlot(vol: Volume, place: Place, ghost s: seq<nat>, ghost k: nat) returns (bytes: Bytes)
    requires |s| > 0 && IsDirectoryChain(vol, s[0], s) && IsPlace(vol, s, place, k)
    ensures |bytes| == 32 && k < |Contents(vol, s)| && Decode(bytes) == Contents(vol, s)[k]
  {
    ghost var i :| 0 <= i < |s| && place.cluster == s[i]
                   && k == SlotBase(vol.data, s, i) + 16 * place.sector + place.index;
    var sector := vol.ReadDataSector(place.cluster, place.sector);
    bytes := SlotBytes(sector, place.index);
    SlotOfPart(vol.data[s[i]], place.sector, place.index);
    SlotsOfCluster(vol.data, s, i);
    ghost var base := SlotBase(vol.data, s, i);
    assert Contents(vol, s)[k] == Contents(vol, s)[base..base + |SlotsOf(vol.data[s[i]])|][k - base];
  }

  /** Tombstones the first entry listed under `name`. */
  method DeleteInCluster(vol: Volume, cluster: nat, name: Bytes, ghost s: seq<nat>) returns (ok: bool)
    requires IsDirectoryChain(vol, cluster, s)
    modifies vol`sectors, vol`data
    ensures IsDirectoryChain(vol, cluster, s) && OnlyChanged(vol, s)
    ensures ok == Found(old(Contents(vol, s)), Listed(name))
    ensures !ok ==> vol.data == old(vol.data)
    ensures ok ==> var slots, k := old(Contents(vol, s)), First(old(Contents(vol, s)), Listed(name));
                   Contents(vol, s) == slots[k := Tombstone(slots[k])]
  {
    var place := Scan(vol, cluster, Listed(name), s);
    ok := place.Some?;
    if ok {
      ghost var k := First(Contents(vol, s), Listed(name));
      var bytes := ReadSlot(vol, place.value, s, k);
      DecodeTombstone(bytes);
      WriteSlot(vol, place.value, bytes[0 := DELETED], s, k);
    }
  }

  /** Overwrites the first entry with the same eleven name bytes. */
  method UpdateEntry(vol: Volume, parent: nat, entry: DirEntry, ghost s: seq<nat>) returns (ok: bool)
    requires IsDirectoryChain(vol, parent, s)
    modifies vol`sectors, vol`data
    ensures IsDirectoryChain(vol, parent, s) && OnlyChanged(vol, s)
    ensures ok == Found(old(Contents(vol, s)), Raw(entry.name))
    ensures !ok ==> vol.data == old(vol.data)
    ensures ok ==> Contents(vol, s) == old(Contents(vol, s))[First(old(Contents(vol, s)), Raw(entry.name)) := entry]
  {
    ok := Replace(vol, parent, Raw(entry.name), entry, s);
  }

  /** Overwrites the first entry listed under `oldName`. */
  method RenameEntry(vol: Volume, parent: nat, oldName: Bytes, entry: DirEntry, ghost s: seq<nat>) returns (ok: bool)
    requires IsDirectoryChain(vol, parent, s)
    modifies vol`sectors, vol`data
    ensures IsDirectoryChain(vol, parent, s) && OnlyChanged(vol, s)
    ensures ok == Found(old(Contents(vol, s)), Listed(oldName))
    ensures !ok ==> vol.data == old(vol.data)
    ensures ok ==> Contents(vol, s) == old(Contents(vol, s))[First(old(Contents(vol, s)), Listed(oldName)) := entry]
  {
    ok := Replace(vol, parent, Listed(oldName), entry, s);
  }

  method Replace(vol: Volume, cluster: nat, want: Wanted, entry: DirEntry, ghost s: seq<nat>) returns (ok: bool)
    requires IsDirectoryChain(vol, cluster, s)
    modifies vol`sectors, vol`data
    ensures IsDirectoryChain(vol, cluster, s) && OnlyChanged(vol, s)
    ensures ok == Found(old(Contents(vol, s)), want)
    ensures !ok ==> vol.data == old(vol.data)
    ensures ok ==> Contents(vol, s) == old(Contents(vol, s))[First(old(Contents(vol, s)), want) := entry]
  {
    var place := Scan(vol, cluster, want, s);
    ok := place.Some?;
    if ok {
      EncodeRoundTrip(entry);
      WriteSlot(vol, place.value, Encode(entry), s, First(Contents(vol, s), want));
    }
  }

  /** No entry but the dot entries. */
  method IsEmpty(vol: Volume, cluster: nat, ghost s: seq<nat>) returns (empty: bool)
    requires IsDirectoryChain(vol, cluster, s)
    ensures empty == !Found(Contents(vol, s), NotDot)
  {
    var place := Scan(vol, cluster, NotDot, s);
    empty := place.None?;
  }

  /** Tombstones the first entry listed under `name` in the sectors that cluster number 0 is taken to lie in, which are
      the first ones of the disk. */
  method DeleteInReserved(vol: Volume, name: Bytes) returns (ok: bool)
    requires vol.Valid() && vol.geometry.sectorsPerCluster <= vol.geometry.fatStart
    modifies vol`sectors
    ensures vol.Valid()
  {
    hide FatRefines, DataRefines, Judge, SlotsOf;
    var sector := 0;
    while sector < vol.geometry.sectorsPerCluster
      invariant vol.Valid() && 0 <= sector <= vol.geometry.sectorsPerCluster
    {
      var bytes := vol.sectors[sector];
      var i, verdict := ScanSector(bytes, Listed(name));
      if verdict == Hit {
        vol.WriteReserved(sector, Splice(bytes, 32 * i, [DELETED]));
        return true;
      }
      if verdict == Stop {
        return false;
      }
      sector := sector + 1;
    }
    ok := false;
  }

  lemma SlotIs(b: Bytes, i: nat)
    requires 32 * i + 32 <= |b|
    ensures i < |SlotsOf(b)| && |SlotBytes(b, i)| == 32 && SlotsOf(b)[i] == Decode(SlotBytes(b, i))
  {
  }

  /** `directory_delete_in_cluster` of a directory whose first cluster has just been freed: from there the search goes
      on to cluster number 0. */
  method DeleteInFreed(vol: Volume, cluster: nat, name: Bytes) returns (ok: bool)
    requires vol.Valid() && vol.geometry.HasCluster(cluster) && vol.fat[cluster] == CLUSTER_FREE
    requires vol.geometry.sectorsPerCluster <= vol.geometry.fatStart
    modifies vol`sectors, vol`data
    ensures vol.Valid() && OnlyChanged(vol, [cluster])
    ensures var slots := SlotsOf(old(vol.data)[cluster]);
            if Found(slots, Listed(name))
            then ok && SlotsOf(vol.data[cluster])
                       == slots[First(slots, Listed(name)) := Tombstone(slots[First(slots, Listed(name))])]
            else vol.data == old(vol.data)
  {
    hide FatRefines, DataRefines, Judge, SlotsOf;
    var sector, i, verdict := ScanCluster(vol, cluster, Listed(name));
    ghost var slots := SlotsOf(vol.data[cluster]);
    if verdict == Skip {
      FirstUnique(slots, Listed(name), |slots|);
      ok := DeleteInReserved(vol, name);
      return;
    }
    FirstUnique(slots, Listed(name), 16 * sector + i);
    if verdict == Stop {
      return false;
    }
    var bytes := vol.ReadDataSector(cluster, sector);
    SlotOfPart(vol.data[cluster], sector, i);
    var slot := SlotBytes(bytes, i);
    SlotIs(bytes, i);
    DecodeTombstone(slot);
    SlotAfterWrite(vol.data[cluster], sector, i, slot[0 := DELETED]);
    vol.WriteDataSector(cluster, sector, Splice(bytes, 32 * i, slot[0 := DELETED]));
    ok := true;
  }

  /** Fills the first free slot of one cluster. */
  method WriteEntry(vol: Volume, cluster: nat, entry: DirEntry) returns (ok: bool)
    requires vol.Valid() && vol.geometry.HasCluster(cluster)
    modifies vol`sectors, vol`data
    ensures vol.Valid() && OnlyChanged(vol, [cluster])
    ensures var slots := SlotsOf(old(vol.data)[cluster]);
            && ok == (First(slots, FreeSlot) < |slots|)
            && SlotsOf(vol.data[cluster]) == if ok then slots[First(slots, FreeSlot) := entry] else slots
  {
    var sector, i, verdict := ScanCluster(vol, cluster, FreeSlot);
    ghost var slots := SlotsOf(vol.data[cluster]);
    if verdict == Skip {
      FirstUnique(slots, FreeSlot, |slots|);
      return false;
    }
    FirstUnique(slots, FreeSlot, 16 * sector + i);
    EncodeRoundTrip(entry);
    SlotAfterWrite(vol.data[cluster], sector, i, Encode(entry));
    var bytes := vol.ReadDataSector(cluster, sector);
    vol.WriteDataSector(cluster, sector, Splice(bytes, 32 * i, Encode(entry)));
    ok := true;
  }

  /** The chain of the directory after an entry has been created in it. */
  ghost function ChainAfterCreate(fat: Fat, slots: Directory, s: seq<nat>): seq<nat>
  {
    if Found(slots, FreeSlot) then s else s + [LowestFree(fat)]
  }

  ghost predicate HasRoom(fat: Fat, slots: Directory)
  {
    Found(slots, FreeSlot) || LowestFree(fat) != 0
  }

  /** The effect of creating `entry` in the directory with chain `s`, which becomes `s'`. */
  ghost predicate EntryCreated(fat0: Fat, data0: seq<Bytes>, s: seq<nat>, entry: DirEntry, per: Positive,
                               fat: Fat, data: seq<Bytes>, s': seq<nat>)
    requires (forall i :: 0 <= i < |s| ==> s[i] < |data0| == |fat0|) && s != []
  {
    && |data| == |data0| && |fat| == |fat0|
    && IsChain(fat, s') && (forall i :: 0 <= i < |s'| ==> s'[i] < |data|)
    && s' == ChainAfterCreate(fat0, ChainSlots(data0, s), s)
    && (s' == s ==> fat == fat0)
    && (s' != s ==> LowestFree(fat0) < |fat0|
                    && fat == fat0[s[|s| - 1] := LowestFree(fat0)][LowestFree(fat0) := CLUSTER_EOC])
    && ChainSlots(data, s') == Inserted(ChainSlots(data0, s), entry, per)
    && forall c: nat :: c < |data| && c !in s' ==> data[c] == data0[c]
  }

  /** Fills the first free slot, or lengthens the chain by one zeroed cluster and fills its first slot. */
  method CreateEntryInCluster(vol: Volume, cluster: nat, entry: DirEntry, ghost s: seq<nat>) returns (ok: bool)
    requires vol.Valid()
    requires cluster >= 2 ==> IsDirectoryChain(vol, cluster, s)
    modifies vol`sectors, vol`fat, vol`data
    ensures vol.Valid()
    ensures cluster < 2 ==> !ok
    ensures cluster >= 2 ==> ok == old(HasRoom(vol.fat, Contents(vol, s)))
    ensures !ok ==> vol.fat == old(vol.fat) && vol.data == old(vol.data)
    ensures ok ==>
              EntryCreated(old(vol.fat), old(vol.data), s, entry, vol.geometry.SlotsPerCluster(), vol.fat, vol.data,
                                ChainAfterCreate(old(vol.fat), old(Contents(vol, s)), s))
    ensures ok ==> IsDirectoryChain(vol, cluster, ChainAfterCreate(old(vol.fat), old(Contents(vol, s)), s))
  {
    if cluster < 2 {
      return false;
    }
    var place := Scan(vol, cluster, FreeSlot, s);
    if place.Some? {
      EncodeRoundTrip(entry);
      WriteSlot(vol, place.value, Encode(entry), s, First(Contents(vol, s), FreeSlot));
      return true;
    }
    ok := GrowWith(vol, cluster, entry, s);
  }

  lemma ZeroedClusterFilled(m: Positive, e: DirEntry)
    ensures |SlotsOf(Zeros(32 * m))| == m && First(SlotsOf(Zeros(32 * m)), FreeSlot) == 0
    ensures SlotsOf(Zeros(32 * m))[0 := e] == FreshCluster(e, m)
  {
    SlotsOfZeros(m);
    FirstUnique(EmptySlots(m), FreeSlot, 0);
    assert EmptySlots(m)[0 := e][1..] == EmptySlots(m - 1);
  }

  /** The second half of `CreateEntryInCluster`: the directory is full. */
  method GrowWith(vol: Volume, cluster: nat, entry: DirEntry, ghost s: seq<nat>) returns (ok: bool)
    requires IsDirectoryChain(vol, cluster, s)
    modifies vol`sectors, vol`fat, vol`data
    ensures vol.Valid()
    ensures ok == (LowestFree(old(vol.fat)) != 0)
    ensures !ok ==> vol.fat == old(vol.fat) && vol.data == old(vol.data)
    ensures ok ==> var c := LowestFree(old(vol.fat));
                   && IsDirectoryChain(vol, cluster, s + [c])
                   && Contents(vol, s + [c]) == old(Contents(vol, s))
                                                + FreshCluster(entry, vol.geometry.SlotsPerCluster())
                   && vol.fat == old(vol.fat)[s[|s| - 1] := c][c := CLUSTER_EOC]
                   && |vol.data| == |old(vol.data)|
                   && c !in s
                   && forall d :: 0 <= d < |vol.data| && d != c ==> vol.data[d] == old(vol.data)[d]
  {
    ghost var data0 := vol.data;
    var newCluster := vol.Lengthen(s, 0, cluster);
    if newCluster == 0 {
      return false;
    }
    ghost var per := vol.geometry.SlotsPerCluster();
    ZeroedClusterFilled(per, entry);
    assert vol.data[newCluster] == Zeros(32 * per);
    ok := WriteEntry(vol, newCluster, entry);
    assert SlotsOf(vol.data[newCluster]) == FreshCluster(entry, per);
    ChainSlotsFrame(data0, vol.data, s);
    ChainSlotsAppend(vol.data, s, newCluster);
  }

  /** `slots` after the first entry listed under `name`, if any, has been tombstoned. */
  ghost function Unlisted(slots: Directory, name: Bytes): Directory {
    if Found(slots, Listed(name)) then slots[First(slots, Listed(name)) := Tombstone(slots[First(slots, Listed(name))])]
    else slots
  }

  /** `directory_move_entry` between two directories: first creates `entry`, then deletes the old one; if there is
      no old one it deletes the first entry listed under the new name. */
  method MoveEntry(vol: Volume, source: nat, destination: nat, oldName: Bytes, entry: DirEntry,
                   ghost s: seq<nat>, ghost d: seq<nat>) returns (ok: bool)
    requires IsDirectoryChain(vol, source, s) && IsDirectoryChain(vol, destination, d) && Disjoint(s, d)
    modifies vol`sectors, vol`fat, vol`data
    ensures vol.Valid()
    ensures ok == (old(HasRoom(vol.fat, Contents(vol, d))) && Found(old(Contents(vol, s)), Listed(oldName)))
    ensures !old(HasRoom(vol.fat, Contents(vol, d))) ==> vol.fat == old(vol.fat) && vol.data == old(vol.data)
    ensures old(HasRoom(vol.fat, Contents(vol, d))) ==>
              var d' := ChainAfterCreate(old(vol.fat), old(Contents(vol, d)), d);
              && EntryMoved(old(vol.fat), old(vol.data), s, d, entry, vol.geometry.SlotsPerCluster(), vol.fat,
                            vol.data, d', ok)
              && Contents(vol, s) == Unlisted(old(Contents(vol, s)), oldName)
  {
    hide FatRefines, DataRefines, ChainSlots, First, Judge;
    ghost var fat0, data0 := vol.fat, vol.data;
    ghost var d' := ChainAfterCreate(fat0, Contents(vol, d), d);
    ok := CreateEntryInCluster(vol, destination, entry, d);
    if !ok {
      return;
    }
    ghost var data1 := vol.data;
    CreatedElsewhere(fat0, data0, s, d, entry, vol.geometry.SlotsPerCluster(), vol.fat, data1, d');
    ok := DeleteOrTakeBack(vol, source, destination, oldName, entry, s, d');
  }

  /** The end of `directory_move_entry`. */
  method DeleteOrTakeBack(vol: Volume, source: nat, destination: nat, oldName: Bytes, entry: DirEntry,
                          ghost s: seq<nat>, ghost d: seq<nat>) returns (ok: bool)
    requires IsDirectoryChain(vol, source, s) && IsDirectoryChain(vol, destination, d) && Disjoint(s, d)
    modifies vol`sectors, vol`data
    ensures IsDirectoryChain(vol, source, s) && IsDirectoryChain(vol, destination, d)
    ensures vol.fat == old(vol.fat) && |vol.data| == |old(vol.data)|
    ensures forall c :: 0 <= c < |vol.data| && c !in d && c !in s ==> vol.data[c] == old(vol.data)[c]
    ensures ok == Found(old(Contents(vol, s)), Listed(oldName))
    ensures Contents(vol, s) == Unlisted(old(Contents(vol, s)), oldName)
    ensures Contents(vol, d)
            == if ok then old(Contents(vol, d))
               else Unlisted(old(Contents(vol, d)), DisplayName(entry.name))
  {
    hide FatRefines, DataRefines, ChainSlots, First, Judge;
    ghost var data1 := vol.data;
    ok := DeleteInCluster(vol, source, oldName, s);
    if ok {
      ChainSlotsFrame(data1, vol.data, d);
    } else {
      var filename := GetName(entry);
      var _ := DeleteInCluster(vol, destination, filename, d);
      ChainSlotsFrame(data1, vol.data, s);
    }
  }

  /** The effect of moving on the two directories: the one with chain `d`, now `d'`, has gained the entry, unless
      it was taken out again. */
  ghost predicate EntryMoved(fat0: Fat, data0: seq<Bytes>, s: seq<nat>, d: seq<nat>, entry: DirEntry, per: Positive,
                             fat: Fat, data: seq<Bytes>, d': seq<nat>, ok: bool)
    requires (forall i :: 0 <= i < |d| ==> d[i] < |data0| == |fat0|)
  {
    && |data| == |data0| && |fat| == |fat0|
    && IsChain(fat, d') && IsChain(fat, s) && Disjoint(s, d')
    && (forall i :: 0 <= i < |d'| ==> d'[i] < |data|) && d' != [] && d != [] && d'[0] == d[0]
    && (d' == d ==> fat == fat0)
    && (d' != d ==> LowestFree(fat0) < |fat0|
                    && fat == fat0[d[|d| - 1] := LowestFree(fat0)][LowestFree(fat0) := CLUSTER_EOC])
    && (var slots := Inserted(ChainSlots(data0, d), entry, per);
        ChainSlots(data, d') == if ok then slots else Unlisted(slots, DisplayName(entry.name)))
    && forall c: nat :: c < |data| && c !in d' && c !in s ==> data[c] == data0[c]
  }

  /** Creating an entry does not touch a directory elsewhere. */
  lemma CreatedElsewhere(fat0: Fat, data0: seq<Bytes>, s: seq<nat>, d: seq<nat>, entry: DirEntry, per: Positive,
                         fat: Fat, data: seq<Bytes>, d': seq<nat>)
    requires 2 <= |fat0| < CLUSTER_LAST && |fat0| == |data0|
    requires IsChain(fat0, s) && IsChain(fat0, d) && Disjoint(s, d)
    requires (forall i :: 0 <= i < |d| ==> d[i] < |data0|) && (forall i :: 0 <= i < |s| ==> s[i] < |data0|)
    requires EntryCreated(fat0, data0, d, entry, per, fat, data, d') && HasRoom(fat0, ChainSlots(data0, d))
    ensures IsChain(fat, s) && Disjoint(s, d') && d'[0] == d[0] && ChainSlots(data, s) == ChainSlots(data0, s)
  {
    hide ChainSlots, First, Judge;
    ChainNotFree(fat0, s);
    assert d' == d + d'[|d|..];
    forall i, j | 0 <= i < |s| && 0 <= j < |d'| ensures s[i] != d'[j] {
      if j >= |d| {
        assert d'[j] == LowestFree(fat0);
      }
    }
    forall i | 0 <= i < |s| ensures s[i] !in d' && fat[s[i]] == fat0[s[i]] {
    }
    ChainFrame(fat0, fat, s);
    ChainSlotsFrame(data0, data, s);
  }
}
