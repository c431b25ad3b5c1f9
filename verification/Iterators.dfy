/** Walking through a directory entry by entry, and lookup by such a walk. */
module Iterators {
  import opened Options
  import opened Words
  import opened Chains
  import opened Fat32
  import opened Entries
  import opened Slots
  import opened Listings
  import opened Directories

  /** `directory_t`: a cursor into the directory whose chain is `s`, with the sector it has read last. */
  class DirectoryIterator {
    const volume: Volume
    const cluster: nat
    var currentCluster: nat
    var sector: Sector
    var sectorIndex: nat
    var entryIndex: nat
    ghost const s: seq<nat>
    ghost var c: nat

    ghost predicate Valid()
      reads this, volume
    {
      && IsDirectoryChain(volume, cluster, s)
      && c < |s| && currentCluster == s[c]
      && sectorIndex < volume.geometry.sectorsPerCluster && entryIndex <= 16
      && |volume.data[currentCluster]| == volume.geometry.ClusterSize()
      && sector == PartOf(volume.data[currentCluster], sectorIndex)
    }

    ghost function Position(): nat
      requires Valid()
      reads this, volume
    {
      SlotBase(volume.data, s, c) + 16 * sectorIndex + entryIndex
    }

    /** What is still to be listed. */
    ghost function Remaining(): Directory
      requires Valid()
      reads this, volume
    {
      var slots := Contents(volume, s);
      if Position() <= |slots| then Listing(slots[Position()..]) else []
    }

    /** `directory_open`. */
    constructor (vol: Volume, first: nat, ghost chain: seq<nat>)
      requires IsDirectoryChain(vol, first, chain)
      ensures Valid() && volume == vol && s == chain && cluster == first
      ensures Remaining() == Listing(Contents(vol, chain))
    {
      volume, cluster, s := vol, first, chain;
      currentCluster, sectorIndex, entryIndex, c := first, 0, 0, 0;
      var read := vol.ReadDataSector(first, 0);
      sector := read;
      SlotsOfCluster(vol.data, chain, 0);
      assert ChainSlots(vol.data, chain)[0..] == ChainSlots(vol.data, chain);
    }

    /** Returns the next listed entry; false when there is none left. */
    method Next() returns (ok: bool, entry: DirEntry)
      requires Valid()
      modifies this
      ensures ok == (old(Remaining()) != [])
      ensures ok ==> Valid() && [entry] + Remaining() == old(Remaining())
    {
      ghost var rest := Remaining();
      entry := EMPTY_SLOT;
      while true
        invariant Valid() && Remaining() == rest
        decreases |s| - c, volume.geometry.sectorsPerCluster - sectorIndex
      {
        var found, ended;
        found, ended, entry := NextInSector();
        if found || ended {
          return found, entry;
        }
        var more := NextSector();
        if !more {
          return false, entry;
        }
      }
    }

    /** Moves on to the next sector, in the next cluster of the chain if need be. */
    method NextSector() returns (ok: bool)
      requires Valid() && entryIndex == 16
      modifies this
      ensures ok ==> Valid() && Remaining() == old(Remaining())
      ensures ok ==> c > old(c) || (c == old(c) && sectorIndex > old(sectorIndex))
      ensures !ok ==> old(Remaining()) == []
    {
      hide FatRefines, DataRefines, ChainSlots;
      if sectorIndex + 1 < volume.geometry.sectorsPerCluster {
        var read := volume.ReadDataSector(currentCluster, sectorIndex + 1);
        entryIndex, sectorIndex, sector := 0, sectorIndex + 1, read;
        return true;
      }
      SlotsOfCluster(volume.data, s, c);
      assert Chains.Next(volume.fat, s[c]) == if c + 1 < |s| then s[c + 1] else INVALID_CLUSTER;
      var next := volume.NextCluster(currentCluster);
      if next == INVALID_CLUSTER {
        assert Position() == |Contents(volume, s)|;
        return false;
      }
      var read := volume.ReadDataSector(next, 0);
      currentCluster, sectorIndex, entryIndex, sector, c := next, 0, 0, read, c + 1;
      ok := true;
    }

    /** The inner loop over the rest of the current sector. */
    method NextInSector() returns (found: bool, ended: bool, entry: DirEntry)
      requires Valid()
      modifies this`entryIndex
      ensures Valid() && !(found && ended)
      ensures found ==> [entry] + Remaining() == old(Remaining())
      ensures ended ==> old(Remaining()) == []
      ensures !found && !ended ==> entryIndex == 16 && Remaining() == old(Remaining())
    {
      hide FatRefines, DataRefines, ChainSlots, Listing;
      SectorInChain(volume.data, s, c, sectorIndex);
      ghost var slots, base := Contents(volume, s), SlotBase(volume.data, s, c) + 16 * sectorIndex;
      assert Remaining() == Listing(slots[base + entryIndex..]);
      var i;
      i, found, ended, entry := NextListed(sector, entryIndex, slots, base);
      entryIndex := i;
      assert Contents(volume, s) == slots && Position() == base + i;
      assert Remaining() == Listing(slots[base + i..]);
    }
  }

  /** The sixteen entries of `sector` are the slots from `base` on. */
  ghost predicate SectorHolds(sector: Sector, slots: Directory, base: nat) {
    && base + 16 <= |slots|
    && forall i {:trigger SlotsOf(sector)[i]} :: 0 <= i < 16 ==> slots[base + i] == SlotsOf(sector)[i]
  }

  lemma SectorInChain(data: seq<Bytes>, s: seq<nat>, c: nat, j: nat)
    requires (forall k :: 0 <= k < |s| ==> s[k] < |data|) && c < |s|
    requires 512 * j + 512 <= |data[s[c]]|
    ensures SectorHolds(PartOf(data[s[c]], j), ChainSlots(data, s), SlotBase(data, s, c) + 16 * j)
  {
    SlotInChain(data, s, c, j, 15);
    var slots, base := ChainSlots(data, s), SlotBase(data, s, c) + 16 * j;
    forall i | 0 <= i < 16 ensures slots[base + i] == SlotsOf(PartOf(data[s[c]], j))[i] {
      SlotInChain(data, s, c, j, i);
    }
  }

  lemma SectorLength(sector: Sector, slots: Directory, base: nat)
    requires SectorHolds(sector, slots, base)
    ensures base + 16 <= |slots|
  {
  }

  lemma SectorSlot(sector: Sector, slots: Directory, base: nat, i: nat)
    requires SectorHolds(sector, slots, base) && i < 16
    ensures base + i < |slots| && i < |SlotsOf(sector)| && SlotsOf(sector)[i] == slots[base + i]
  {
  }

  method NextListed(sector: Sector, start: nat, ghost slots: Directory, ghost base: nat)
    returns (i: nat, found: bool, ended: bool, entry: DirEntry)
    requires start <= 16 && SectorHolds(sector, slots, base)
    ensures i <= 16 && !(found && ended)
    ensures found ==> [entry] + Listing(slots[base + i..]) == Listing(slots[base + start..])
    ensures ended ==> Listing(slots[base + start..]) == []
    ensures !found && !ended ==> i == 16 && Listing(slots[base + i..]) == Listing(slots[base + start..])
  {
    hide *;
    found, ended, entry := false, false, EMPTY_SLOT;
    i := start;
    SectorLength(sector, slots, base);
    ghost var rest := Listing(slots[base + start..]);
    while i < 16
      invariant start <= i <= 16
      invariant Listing(slots[base + i..]) == rest
    {
      ListingFrom(slots, base + i);
      SectorSlot(sector, slots, base, i);
      entry := SlotsOf(sector)[i];
      i := i + 1;
      if IsEnd(entry) {
        ended := true;
        return;
      }
      if IsShown(entry) {
        found := true;
        return;
      }
    }
  }

  /** `directory_find_in_cluster`. */
  method FindInCluster(vol: Volume, cluster: nat, name: Bytes, ghost s: seq<nat>) returns (found: Option<DirEntry>)
    requires IsDirectoryChain(vol, cluster, s)
    ensures found == FindListed(Listing(Contents(vol, s)), name)
  {
    var dir := new DirectoryIterator(vol, cluster, s);
    while true
      invariant dir.Valid() && dir.volume == vol && dir.s == s && fresh(dir)
      invariant FindListed(Listing(Contents(vol, s)), name) == FindListed(dir.Remaining(), name)
      decreases |dir.Remaining()|
    {
      ghost var rest := dir.Remaining();
      var ok, current := dir.Next();
      if !ok {
        return None;
      }
      assert rest[0] == current && rest[1..] == dir.Remaining();
      var filename := GetName(current);
      if filename == name {
        return Some(current);
      }
    }
  }
}
