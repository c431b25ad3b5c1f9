/** A mounted FAT32 volume: the sectors of its disk, and the routines of fat32.c that read and
    change the first file allocation table and the data clusters. */
module Fat32 {
  import opened Words
  import opened Chains

  type Positive = n: nat | n > 0 witness 1

  /** The fields of the boot sector the driver keeps. */
  datatype Geometry = Geometry(
    sectorsPerCluster: Positive,
    fatStart: nat,
    fatSize: nat,
    firstDataSector: nat,
    totalClusters: nat,
    rootCluster: nat,
    diskSectors: nat)
  {
    /** A volume that `fat32_detect` accepts and whose tables fit the disk without 32-bit wrap-around. */
    ghost predicate Valid() {
      && sectorsPerCluster <= 255
      && 1 <= fatSize
      && fatStart + fatSize <= firstDataSector
      && (totalClusters + 2) * 4 <= fatSize * 512
      && totalClusters + 2 < TWO_28 - 8
      && 2 <= rootCluster < totalClusters + 2
      && firstDataSector <= diskSectors <= TWO_32
      && forall c {:trigger ClusterToSector(c)} :: HasCluster(c) ==>
           ClusterToSector(c) + sectorsPerCluster <= diskSectors
    }

    function ClusterSize(): Positive {
      512 * sectorsPerCluster
    }

    function SlotsPerCluster(): Positive {
      16 * sectorsPerCluster
    }

    predicate HasCluster(c: nat) {
      2 <= c < totalClusters + 2
    }

    function ClusterToSector(cluster: nat): nat {
      if cluster < 2 then 0 else firstDataSector + (cluster - 2) * sectorsPerCluster
    }

    function FatSector(cluster: nat): nat {
      fatStart + cluster * 4 / 512
    }

    function FatOffset(cluster: nat): nat {
      cluster * 4 % 512
    }
  }

  lemma MulMonotone(a: nat, b: nat, n: nat)
    requires a <= b
    ensures a * n <= b * n
  {
  }

  /** The entry of a cluster lies inside one sector of the first FAT, entry `c % 128` of sector `c / 128`. */
  lemma FatEntryInSector(g: Geometry, c: nat)
    requires g.Valid() && c < g.totalClusters + 2
    ensures g.FatSector(c) == g.fatStart + c / 128 < g.fatStart + g.fatSize <= g.firstDataSector <= g.diskSectors
    ensures g.FatOffset(c) == c % 128 * 4 <= 508
  {
  }

  /** The sectors of a cluster lie in the data region, behind the FAT. */
  lemma ClusterSectorsInData(g: Geometry, c: nat, i: nat)
    requires g.Valid() && g.HasCluster(c) && i < g.sectorsPerCluster
    ensures g.fatStart + g.fatSize <= g.firstDataSector <= g.ClusterToSector(c) + i < g.diskSectors
  {
    MulMonotone(0, c - 2, g.sectorsPerCluster);
    assert g.ClusterToSector(c) + g.sectorsPerCluster <= g.diskSectors;
  }

  /** Different clusters share no sector. */
  lemma ClusterSectorsDisjoint(g: Geometry, c: nat, i: nat, d: nat, j: nat)
    requires g.HasCluster(c) && g.HasCluster(d)
    requires i < g.sectorsPerCluster && j < g.sectorsPerCluster
    ensures g.ClusterToSector(c) + i == g.ClusterToSector(d) + j <==> c == d && i == j
  {
    if c < d {
      MulMonotone(c - 1, d - 2, g.sectorsPerCluster);
      assert (c - 1) * g.sectorsPerCluster == (c - 2) * g.sectorsPerCluster + g.sectorsPerCluster;
    } else if d < c {
      MulMonotone(d - 1, c - 2, g.sectorsPerCluster);
      assert (d - 1) * g.sectorsPerCluster == (d - 2) * g.sectorsPerCluster + g.sectorsPerCluster;
    }
  }

  /** The raw 32-bit word the FAT holds for a cluster; its top four bits are reserved. */
  function EntryAt(g: Geometry, sectors: seq<Sector>, c: nat): nat
    requires g.Valid() && |sectors| == g.diskSectors && c < g.totalClusters + 2
  {
    FatEntryInSector(g, c);
    Le32(sectors[g.FatSector(c)], g.FatOffset(c))
  }

  function PartOf(cluster: Bytes, i: nat): Bytes
    requires 512 * i + 512 <= |cluster|
  {
    cluster[512 * i..512 * i + 512]
  }

  function Flatten(sectors: seq<Sector>, first: nat, count: nat): (b: Bytes)
    requires first + count <= |sectors|
    ensures |b| == 512 * count
    ensures forall i {:trigger PartOf(b, i)} :: 0 <= i < count ==> PartOf(b, i) == sectors[first + i]
  {
    if count == 0 then []
    else
      var init := Flatten(sectors, first, count - 1);
      var b := init + sectors[first + count - 1];
      assert forall i {:trigger PartOf(b, i)} :: 0 <= i < count ==> PartOf(b, i) == sectors[first + i] by {
        forall i {:trigger PartOf(b, i)} | 0 <= i < count ensures PartOf(b, i) == sectors[first + i] {
          if i < count - 1 {
            assert PartOf(b, i) == PartOf(init, i);
          }
        }
      }
      b
  }

  /** The contents of cluster `c`. */
  function ClusterAt(g: Geometry, sectors: seq<Sector>, c: nat): Bytes
    requires g.Valid() && |sectors| == g.diskSectors && g.HasCluster(c)
  {
    ClusterSectorsInData(g, c, g.sectorsPerCluster - 1);
    Flatten(sectors, g.ClusterToSector(c), g.sectorsPerCluster)
  }

  /** The FAT region of the disk encodes the 28-bit entries `fat` below the reserved bits `top`. */
  ghost predicate FatRefines(g: Geometry, sectors: seq<Sector>, top: seq<nat>, fat: Fat)
    requires g.Valid() && |sectors| == g.diskSectors
  {
    && |fat| == |top| == g.totalClusters + 2
    && forall c {:trigger EntryAt(g, sectors, c)} :: 0 <= c < |fat| ==>
         EntryAt(g, sectors, c) == Compose(top[c], fat[c])
  }

  ghost predicate Entries28(fat: Fat) {
    forall c :: 0 <= c < |fat| ==> fat[c] < TWO_28
  }

  ghost predicate ClustersOfSize(data: seq<Bytes>, size: nat) {
    forall c :: 2 <= c < |data| ==> |data[c]| == size
  }

  /** The data region of the disk holds, cluster by cluster, the bytes `data`. */
  ghost predicate DataRefines(g: Geometry, sectors: seq<Sector>, data: seq<Bytes>)
    requires g.Valid() && |sectors| == g.diskSectors
  {
    && |data| == g.totalClusters + 2
    && forall c {:trigger ClusterAt(g, sectors, c)} :: 2 <= c < |data| ==> data[c] == ClusterAt(g, sectors, c)
  }

  /** Any disk of the right size encodes some FAT ... */
  lemma EveryDiskHasFat(g: Geometry, sectors: seq<Sector>) returns (top: seq<nat>, fat: Fat)
    requires g.Valid() && |sectors| == g.diskSectors
    ensures FatRefines(g, sectors, top, fat) && Entries28(fat)
  {
    top := seq(g.totalClusters + 2, c requires 0 <= c < g.totalClusters + 2 => Top4(EntryAt(g, sectors, c)));
    fat := seq(g.totalClusters + 2, c requires 0 <= c < g.totalClusters + 2 => Low28(EntryAt(g, sectors, c)));
    forall c | 0 <= c < |fat| ensures EntryAt(g, sectors, c) == Compose(top[c], fat[c]) {
      PartsCompose(EntryAt(g, sectors, c));
    }
  }

  /** ... and some cluster contents. */
  lemma EveryDiskHasData(g: Geometry, sectors: seq<Sector>) returns (data: seq<Bytes>)
    requires g.Valid() && |sectors| == g.diskSectors
    ensures DataRefines(g, sectors, data) && ClustersOfSize(data, g.ClusterSize())
  {
    data := seq(g.totalClusters + 2, c requires 0 <= c < g.totalClusters + 2 =>
                if c < 2 then [] else ClusterAt(g, sectors, c));
  }

  /** A cluster's contents depend on its own sectors only. */
  lemma {:induction false} FlattenFrame(sectors: seq<Sector>, sectors': seq<Sector>, first: nat, count: nat)
    requires first + count <= |sectors| == |sectors'|
    requires forall k :: first <= k < first + count ==> sectors[k] == sectors'[k]
    ensures Flatten(sectors, first, count) == Flatten(sectors', first, count)
  {
    if count > 0 {
      FlattenFrame(sectors, sectors', first, count - 1);
    }
  }

  /** Overwriting one sector of a cluster overwrites that part of its bytes. */
  lemma {:induction false} FlattenUpdate(sectors: seq<Sector>, first: nat, count: nat, i: nat, part: Sector)
    requires first + count <= |sectors| && i < count
    ensures Flatten(sectors[first + i := part], first, count)
            == Splice(Flatten(sectors, first, count), 512 * i, part)
  {
    var sectors' := sectors[first + i := part];
    if i == count - 1 {
      FlattenFrame(sectors, sectors', first, count - 1);
    } else {
      FlattenUpdate(sectors, first, count - 1, i, part);
    }
    assert Flatten(sectors', first, count)
        == Splice(Flatten(sectors, first, count), 512 * i, part);
  }

  /** The bytes `fat32_write_fat_entry` leaves in a FAT sector: the reserved bits stay, the low 28 bits change. */
  function PatchEntry(sector: Sector, offset: nat, value: nat): Sector
    requires offset + 4 <= 512
  {
    Splice(sector, offset, ToLe32(KeepTop(Le32(sector, offset), value)))
  }

  /** The top four bits of `word` with the low 28 bits of `value`. */
  function KeepTop(word: nat, value: nat): (w: nat)
    requires word < TWO_32
    ensures w < TWO_32
  {
    Compose(Top4(word), Low28(value))
  }

  lemma EntryAfterPatch(g: Geometry, sectors: seq<Sector>, c: nat, value: nat, d: nat)
    requires g.Valid() && |sectors| == g.diskSectors && g.HasCluster(c) && d < g.totalClusters + 2
    requires g.FatSector(c) < |sectors| && g.FatOffset(c) + 4 <= 512
    ensures EntryAt(g, sectors[g.FatSector(c) := PatchEntry(sectors[g.FatSector(c)], g.FatOffset(c), value)], d)
         == if d == c then KeepTop(EntryAt(g, sectors, c), value) else EntryAt(g, sectors, d)
  {
    FatEntryInSector(g, c);
    FatEntryInSector(g, d);
    if g.FatSector(d) == g.FatSector(c) {
      Le32AfterSplice(sectors[g.FatSector(c)], g.FatOffset(c), KeepTop(EntryAt(g, sectors, c), value), g.FatOffset(d));
    }
  }

  /** Patching the word of one cluster changes one entry of the FAT and nothing else. */
  lemma FatAfterWrite(g: Geometry, sectors: seq<Sector>, top: seq<nat>, fat: Fat, c: nat, value: nat)
    requires g.Valid() && |sectors| == g.diskSectors && g.HasCluster(c)
    requires FatRefines(g, sectors, top, fat) && Entries28(fat)
    requires g.FatSector(c) < |sectors| && g.FatOffset(c) + 4 <= 512
    ensures FatRefines(g, sectors[g.FatSector(c) := PatchEntry(sectors[g.FatSector(c)], g.FatOffset(c), value)],
                       top, fat[c := Low28(value)])
  {
    var sectors' := sectors[g.FatSector(c) := PatchEntry(sectors[g.FatSector(c)], g.FatOffset(c), value)];
    var fat' := fat[c := Low28(value)];
    forall d | 0 <= d < |fat'|
      ensures EntryAt(g, sectors', d) == Compose(top[d], fat'[d])
    {
      EntryAfterPatch(g, sectors, c, value, d);
      assert EntryAt(g, sectors, d) == Compose(top[d], fat[d]);
      if d == c {
        ComposeParts(top[c], fat[c]);
      }
    }
  }

  lemma DataAfterFatWrite(g: Geometry, sectors: seq<Sector>, sectors': seq<Sector>, data: seq<Bytes>)
    requires g.Valid() && |sectors| == |sectors'| == g.diskSectors
    requires DataRefines(g, sectors, data)
    requires forall i :: g.firstDataSector <= i < |sectors| ==> sectors[i] == sectors'[i]
    ensures DataRefines(g, sectors', data)
  {
    forall c | 2 <= c < |data| ensures data[c] == ClusterAt(g, sectors', c) {
      ClusterSectorsInData(g, c, 0);
      ClusterSectorsInData(g, c, g.sectorsPerCluster - 1);
      FlattenFrame(sectors, sectors', g.ClusterToSector(c), g.sectorsPerCluster);
      assert data[c] == ClusterAt(g, sectors, c);
    }
  }

  lemma FatAfterDataWrite(g: Geometry, sectors: seq<Sector>, sectors': seq<Sector>, top: seq<nat>, fat: Fat)
    requires g.Valid() && |sectors| == |sectors'| == g.diskSectors
    requires FatRefines(g, sectors, top, fat)
    requires forall i :: 0 <= i < g.firstDataSector ==> sectors[i] == sectors'[i]
    ensures FatRefines(g, sectors', top, fat)
  {
    forall d | 0 <= d < |fat| ensures EntryAt(g, sectors', d) == Compose(top[d], fat[d]) {
      FatEntryInSector(g, d);
      assert EntryAt(g, sectors, d) == Compose(top[d], fat[d]);
    }
  }

  /** Nor does a sector in front of the table matter to it. */
  lemma FatAfterReservedWrite(g: Geometry, sectors: seq<Sector>, sectors': seq<Sector>, top: seq<nat>, fat: Fat, j: nat)
    requires g.Valid() && |sectors| == |sectors'| == g.diskSectors && j < g.fatStart
    requires FatRefines(g, sectors, top, fat)
    requires forall i :: 0 <= i < |sectors| && i != j ==> sectors[i] == sectors'[i]
    ensures FatRefines(g, sectors', top, fat)
  {
    forall d | 0 <= d < |fat| ensures EntryAt(g, sectors', d) == Compose(top[d], fat[d]) {
      FatEntryInSector(g, d);
      assert EntryAt(g, sectors, d) == Compose(top[d], fat[d]);
    }
  }

  /** Overwriting sector `i` of cluster `c` changes that part of `c` and no other cluster. */
  lemma DataAfterWrite(g: Geometry, sectors: seq<Sector>, data: seq<Bytes>, c: nat, i: nat, part: Sector)
    requires g.Valid() && |sectors| == g.diskSectors && g.HasCluster(c) && i < g.sectorsPerCluster
    requires DataRefines(g, sectors, data)
    requires g.ClusterToSector(c) + i < |sectors|
    requires ClustersOfSize(data, g.ClusterSize())
    ensures DataRefines(g, sectors[g.ClusterToSector(c) + i := part], data[c := Splice(data[c], 512 * i, part)])
  {
    var sectors' := sectors[g.ClusterToSector(c) + i := part];
    var data' := data[c := Splice(data[c], 512 * i, part)];
    forall d | 2 <= d < |data| ensures data'[d] == ClusterAt(g, sectors', d) {
      ClusterSectorsInData(g, d, g.sectorsPerCluster - 1);
      assert data[d] == ClusterAt(g, sectors, d);
      if d == c {
        FlattenUpdate(sectors, g.ClusterToSector(c), g.sectorsPerCluster, i, part);
      } else {
        forall k | g.ClusterToSector(d) <= k < g.ClusterToSector(d) + g.sectorsPerCluster
          ensures sectors[k] == sectors'[k]
        {
          ClusterSectorsDisjoint(g, c, i, d, k - g.ClusterToSector(d));
        }
        FlattenFrame(sectors, sectors', g.ClusterToSector(d), g.sectorsPerCluster);
      }
    }
  }

  /** `data` with the clusters of `s` filled with zeros. */
  function Zeroed(data: seq<Bytes>, s: seq<nat>, size: nat): (r: seq<Bytes>)
    ensures |r| == |data|
    ensures forall c :: 0 <= c < |data| ==> r[c] == if c in s then Zeros(size) else data[c]
  {
    seq(|data|, c requires 0 <= c < |data| => if c in s then Zeros(size) else data[c])
  }

  /** `n` clusters have been taken off the free list, zeroed and linked. */
  ghost predicate Progress(fat0: Fat, data0: seq<Bytes>, fat: Fat, data: seq<Bytes>, size: nat, n: nat) {
    var free := FreeClusters(fat0);
    && n <= |free|
    && fat == Linked(fat0, free[..n])
    && FreeClusters(fat) == free[n..]
    && data == Zeroed(data0, free[..n], size)
  }

  lemma ProgressStart(fat: Fat, data: seq<Bytes>, size: nat)
    ensures Progress(fat, data, fat, data, size, 0)
  {
  }

  lemma ProgressStep(fat0: Fat, data0: seq<Bytes>, fat: Fat, data: seq<Bytes>, size: nat, n: nat,
                     fat': Fat, data': seq<Bytes>)
    requires |fat| == |data| && Progress(fat0, data0, fat, data, size, n)
    requires n < |FreeClusters(fat0)|
    requires var c := FreeClusters(fat0)[n];
             && fat' == (if n == 0 then fat[c := CLUSTER_EOC]
                         else fat[c := CLUSTER_EOC][FreeClusters(fat0)[n - 1] := c])
             && data' == data[c := Zeros(size)]
    ensures Progress(fat0, data0, fat', data', size, n + 1)
  {
    var free := FreeClusters(fat0);
    var c := free[n];
    assert free[..n + 1][..n] == free[..n];
    assert c == FreeClusters(fat)[0];
    FreeFromTake(fat, fat', 2);
  }

  /** When enough clusters have been taken they form one chain, and no other entry has changed. */
  lemma ProgressDone(fat0: Fat, data0: seq<Bytes>, fat: Fat, data: seq<Bytes>, size: nat, n: nat)
    requires 2 <= |fat0| < CLUSTER_LAST && 0 < n
    requires Progress(fat0, data0, fat, data, size, n)
    ensures IsChain(fat, FreeClusters(fat0)[..n])
    ensures |fat| == |fat0|
    ensures forall c: nat :: c < |fat| && c !in FreeClusters(fat0)[..n] ==> fat[c] == fat0[c]
  {
    FreeFromExact(fat0, 2);
    LinkedIsChain(fat0, FreeClusters(fat0)[..n]);
  }

  /** Once the volume is full, the table differs from the original in the clusters taken only, and those were free. */
  lemma ProgressFull(fat0: Fat, data0: seq<Bytes>, fat: Fat, data: seq<Bytes>, size: nat)
    requires 2 <= |fat0| < CLUSTER_LAST && |fat0| == |data0|
    requires Progress(fat0, data0, fat, data, size, |FreeClusters(fat0)|)
    ensures |fat| == |fat0| && |data| == |data0|
    ensures forall c :: 0 <= c < |fat| && c !in FreeClusters(fat0) ==> fat[c] == fat0[c] && data[c] == data0[c]
  {
    var free := FreeClusters(fat0);
    assert free[..|free|] == free;
    FreeFromExact(fat0, 2);
    if free != [] {
      LinkedIsChain(fat0, free);
    }
  }

  class Volume {
    const geometry: Geometry
    /** The whole disk. */
    var sectors: seq<Sector>
    /** The 28-bit FAT entries and the contents of the clusters that the disk encodes. */
    ghost var fat: Fat
    ghost var data: seq<Bytes>
    /** The reserved top bits of the FAT entries: a constant, so no routine can change them. */
    ghost const top: seq<nat>

    ghost predicate Valid()
      reads this
    {
      && geometry.Valid()
      && |sectors| == geometry.diskSectors
      && |fat| == |data| == geometry.totalClusters + 2
      && Entries28(fat)
      && ClustersOfSize(data, geometry.ClusterSize())
      && FatRefines(geometry, sectors, top, fat)
      && DataRefines(geometry, sectors, data)
    }

    /** Every disk of the right size is a volume: any bytes at all encode some FAT and some clusters. */
    constructor (g: Geometry, disk: seq<Sector>)
      requires g.Valid() && |disk| == g.diskSectors
      ensures Valid() && geometry == g && sectors == disk
    {
      geometry := g;
      sectors := disk;
      ghost var t, f := EveryDiskHasFat(g, disk);
      ghost var d := EveryDiskHasData(g, disk);
      top, fat, data := t, f, d;
    }

    method ReadFatEntry(cluster: nat) returns (value: nat)
      requires Valid()
      ensures value == if geometry.HasCluster(cluster) then fat[cluster] else INVALID_CLUSTER
    {
      if cluster < 2 || cluster >= geometry.totalClusters + 2 {
        return INVALID_CLUSTER;
      }
      FatEntryInSector(geometry, cluster);
      var sector := sectors[geometry.fatStart + cluster * 4 / 512];
      var offset := cluster * 4 % 512;
      value := Le32(sector, offset);
      assert value == EntryAt(geometry, sectors, cluster);
      ComposeParts(top[cluster], fat[cluster]);
      value := Low28(value);
    }

    method WriteFatEntry(cluster: nat, value: nat) returns (ok: bool)
      requires Valid() && value < TWO_32
      modifies this`sectors, this`fat
      ensures Valid()
      ensures ok == geometry.HasCluster(cluster)
      ensures fat == if ok then old(fat)[cluster := Low28(value)] else old(fat)
      ensures ok ==> geometry.FatSector(cluster) < |sectors| && geometry.FatOffset(cluster) + 4 <= 512
      ensures ok ==> sectors == old(sectors)[geometry.FatSector(cluster) :=
                PatchEntry(old(sectors)[geometry.FatSector(cluster)], geometry.FatOffset(cluster), value)]
      ensures !ok ==> sectors == old(sectors)
    {
      if cluster < 2 || cluster >= geometry.totalClusters + 2 {
        return false;
      }
      FatEntryInSector(geometry, cluster);
      var fatSector := geometry.fatStart + cluster * 4 / 512;
      var offset := cluster * 4 % 512;
      FatAfterWrite(geometry, sectors, top, fat, cluster, value);
      sectors := sectors[fatSector := PatchEntry(sectors[fatSector], offset, value)];
      fat := fat[cluster := Low28(value)];
      DataAfterFatWrite(geometry, old(sectors), sectors, data);
      ok := true;
    }

    method NextCluster(cluster: nat) returns (next: nat)
      requires Valid()
      ensures next == Next(fat, cluster)
    {
      next := ReadFatEntry(cluster);
      if next >= CLUSTER_LAST {
        next := INVALID_CLUSTER;
      }
    }

    method ReadDataSector(cluster: nat, i: nat) returns (sector: Sector)
      requires Valid() && geometry.HasCluster(cluster) && i < geometry.sectorsPerCluster
      ensures |data[cluster]| == geometry.ClusterSize() && sector == PartOf(data[cluster], i)
    {
      ClusterSectorsInData(geometry, cluster, i);
      sector := sectors[geometry.ClusterToSector(cluster) + i];
      assert PartOf(ClusterAt(geometry, sectors, cluster), i) == sector;
    }

    method WriteDataSector(cluster: nat, i: nat, part: Sector)
      requires Valid() && geometry.HasCluster(cluster) && i < geometry.sectorsPerCluster
      modifies this`sectors, this`data
      ensures Valid()
      ensures |old(data[cluster])| == geometry.ClusterSize()
      ensures data == old(data)[cluster := Splice(old(data)[cluster], 512 * i, part)]
    {
      ClusterSectorsInData(geometry, cluster, i);
      DataAfterWrite(geometry, sectors, data, cluster, i, part);
      sectors := sectors[geometry.ClusterToSector(cluster) + i := part];
      data := data[cluster := Splice(data[cluster], 512 * i, part)];
      FatAfterDataWrite(geometry, old(sectors), sectors, top, fat);
    }

    /** Writes a sector in front of the FAT. */
    method WriteReserved(i: nat, part: Sector)
      requires Valid() && i < geometry.fatStart
      modifies this`sectors
      ensures Valid()
    {
      FatAfterReservedWrite(geometry, sectors, sectors[i := part], top, fat, i);
      DataAfterFatWrite(geometry, sectors, sectors[i := part], data);
      sectors := sectors[i := part];
    }

    method ZeroCluster(cluster: nat)
      requires Valid() && geometry.HasCluster(cluster)
      modifies this`sectors, this`data
      ensures Valid()
      ensures data == old(data)[cluster := Zeros(geometry.ClusterSize())]
    {
      var buffer: Sector := Zeros(512);
      var i := 0;
      while i < geometry.sectorsPerCluster
        invariant Valid() && 0 <= i <= geometry.sectorsPerCluster
        invariant |data| == |old(data)| && |data[cluster]| == geometry.ClusterSize()
        invariant forall c :: 0 <= c < |data| && c != cluster ==> data[c] == old(data)[c]
        invariant forall k :: 0 <= k < 512 * i ==> data[cluster][k] == 0
      {
        WriteDataSector(cluster, i, buffer);
        i := i + 1;
      }
      assert data[cluster] == Zeros(geometry.ClusterSize());
    }

    method ReadCluster(cluster: nat) returns (buffer: Bytes)
      requires Valid() && geometry.HasCluster(cluster)
      ensures buffer == data[cluster] && |buffer| == geometry.ClusterSize()
    {
      buffer := [];
      var i := 0;
      while i < geometry.sectorsPerCluster
        invariant 0 <= i <= geometry.sectorsPerCluster && |data[cluster]| == geometry.ClusterSize()
        invariant buffer == data[cluster][..512 * i]
      {
        var sector := ReadDataSector(cluster, i);
        buffer := buffer + sector;
        i := i + 1;
      }
    }

    method WriteCluster(cluster: nat, buffer: Bytes)
      requires Valid() && geometry.HasCluster(cluster) && |buffer| == geometry.ClusterSize()
      modifies this`sectors, this`data
      ensures Valid()
      ensures data == old(data)[cluster := buffer]
    {
      var i := 0;
      while i < geometry.sectorsPerCluster
        invariant Valid() && 0 <= i <= geometry.sectorsPerCluster
        invariant |data| == |old(data)| && |data[cluster]| == geometry.ClusterSize()
        invariant forall c :: 0 <= c < |data| && c != cluster ==> data[c] == old(data)[c]
        invariant forall k :: 0 <= k < 512 * i ==> data[cluster][k] == buffer[k]
      {
        WriteDataSector(cluster, i, PartOf(buffer, i));
        i := i + 1;
      }
      assert data[cluster] == buffer;
    }

    method FindFreeCluster() returns (cluster: nat)
      requires Valid()
      ensures cluster == LowestFree(fat)
    {
      cluster := 2;
      while cluster < geometry.totalClusters + 2
        invariant 2 <= cluster <= geometry.totalClusters + 2
        invariant FreeClusters(fat) == FreeFrom(fat, cluster)
      {
        var value := ReadFatEntry(cluster);
        if value == CLUSTER_FREE {
          return;
        }
        cluster := cluster + 1;
      }
      cluster := 0;
    }

    /** Takes the lowest free cluster, marks it as a chain of its own and fills it with zeros. */
    method AllocateCluster() returns (cluster: nat)
      requires Valid()
      modifies this`sectors, this`fat, this`data
      ensures Valid()
      ensures cluster == LowestFree(old(fat))
      ensures cluster == 0 ==> fat == old(fat) && data == old(data)
      ensures cluster != 0 ==>
                && geometry.HasCluster(cluster) && old(fat)[cluster] == CLUSTER_FREE
                && fat == old(fat)[cluster := CLUSTER_EOC]
                && data == old(data)[cluster := Zeros(geometry.ClusterSize())]
    {
      cluster := FindFreeCluster();
      if cluster == 0 {
        return;
      }
      var _ := WriteFatEntry(cluster, CLUSTER_EOC);
      ZeroCluster(cluster);
    }

    /** Links `cluster` behind the last cluster of the chain `s` that starts at `chain`. */
    method AppendCluster(chain: nat, cluster: nat, ghost s: seq<nat>) returns (ok: bool)
      requires Valid() && cluster < TWO_32
      requires chain >= 2 ==> IsChain(fat, s) && s[0] == chain
      modifies this`sectors, this`fat, this`data
      ensures Valid()
      ensures ok == (chain >= 2 && geometry.HasCluster(cluster))
      ensures ok ==> fat == old(fat)[s[|s| - 1] := cluster][cluster := CLUSTER_EOC]
      ensures ok ==> data == old(data)[cluster := Zeros(geometry.ClusterSize())]
      ensures !ok ==> data == old(data)
      ensures !ok ==> fat == if chain < 2 || cluster < 2 then old(fat)
                             else old(fat)[s[|s| - 1] := Low28(cluster)]
    {
      if chain < 2 || cluster < 2 {
        return false;
      }
      var current := chain;
      ghost var k := 0;
      while true
        invariant Valid() && fat == old(fat) && data == old(data)
        invariant 0 <= k < |s| && current == s[k]
        invariant Next(fat, s[k]) == if k + 1 < |s| then s[k + 1] else INVALID_CLUSTER
        decreases |s| - k
      {
        var next := NextCluster(current);
        if next == INVALID_CLUSTER {
          break;
        }
        current := next;
        k := k + 1;
      }
      assert k == |s| - 1;
      ok := WriteFatEntry(current, cluster);
      ok := WriteFatEntry(cluster, CLUSTER_EOC);
      if ok {
        ZeroCluster(cluster);
      }
    }

    /** Allocates a cluster and appends it to the chain `s`, entered at its `k`-th cluster. */
    method Lengthen(ghost s: seq<nat>, ghost k: nat, start: nat) returns (cluster: nat)
      requires Valid() && IsChain(fat, s) && k < |s| && start == s[k]
      modifies this`sectors, this`fat, this`data
      ensures Valid()
      ensures cluster == LowestFree(old(fat))
      ensures cluster == 0 ==> fat == old(fat) && data == old(data)
      ensures cluster != 0 ==>
                && geometry.HasCluster(cluster) && old(fat)[cluster] == CLUSTER_FREE && cluster !in s
                && fat == old(fat)[s[|s| - 1] := cluster][cluster := CLUSTER_EOC]
                && IsChain(fat, s + [cluster])
                && data == old(data)[cluster := Zeros(geometry.ClusterSize())]
    {
      cluster := AllocateCluster();
      if cluster == 0 {
        return;
      }
      ghost var marked := fat;
      ChainNotFree(old(fat), s);
      ChainFrame(old(fat), fat, s);
      ChainSuffix(fat, s, k);
      var _ := AppendCluster(start, cluster, s[k..]);
      ChainExtend(marked, s, cluster, fat);
    }

    /** All or nothing: links the `count` lowest free clusters in increasing order, or restores the FAT. */
    method AllocateClusterChain(count: nat, memoryLeft: bool) returns (first: nat)
      requires Valid()
      modifies this`sectors, this`fat, this`data
      ensures Valid()
      ensures first != 0 <==> 0 < count <= |FreeClusters(old(fat))| && memoryLeft
      ensures first != 0 ==>
                var s := FreeClusters(old(fat))[..count];
                && first == s[0] && IsChain(fat, s)
                && (forall c: nat :: c < |fat| && c !in s ==> fat[c] == old(fat)[c])
                && data == Zeroed(old(data), s, geometry.ClusterSize())
      ensures first == 0 ==> fat == old(fat)
      ensures first == 0 ==> forall c :: 2 <= c < |data| && old(fat)[c] != CLUSTER_FREE ==> data[c] == old(data)[c]
    {
      if count == 0 || !memoryLeft {
        return 0;
      }
      var taken := TakeClusters(count);
      if |taken| < count {
        Rollback(taken, old(fat), old(data));
        return 0;
      }
      first := taken[0];
      ProgressDone(old(fat), old(data), fat, data, geometry.ClusterSize(), count);
    }

    /** The allocation loop: takes clusters and links them one behind the other until there are `count` of them
        or the volume is full. */
    method TakeClusters(count: nat) returns (taken: seq<nat>)
      requires Valid()
      modifies this`sectors, this`fat, this`data
      ensures Valid()
      ensures Progress(old(fat), old(data), fat, data, geometry.ClusterSize(), |taken|)
      ensures |taken| <= |FreeClusters(old(fat))|
      ensures taken == FreeClusters(old(fat))[..|taken|]
      ensures |taken| <= count
      ensures |taken| < count ==> |taken| == |FreeClusters(old(fat))|
    {
      hide FatRefines, DataRefines, Progress, FreeFrom;
      ProgressStart(fat, data, geometry.ClusterSize());
      taken := [];
      var previous := 0;
      while |taken| < count
        invariant |taken| <= count && |taken| <= |FreeClusters(old(fat))| && Valid()
        invariant Progress(old(fat), old(data), fat, data, geometry.ClusterSize(), |taken|)
        invariant taken == FreeClusters(old(fat))[..|taken|]
        invariant previous == if taken == [] then 0 else taken[|taken| - 1]
      {
        var cluster := AllocateBehind(previous, old(fat), old(data), |taken|);
        if cluster == 0 {
          return;
        }
        taken := taken + [cluster];
        previous := cluster;
      }
    }

    /** One round of the allocation loop: takes a cluster and links it behind `previous`, if there is one. */
    method AllocateBehind(previous: nat, ghost fat0: Fat, ghost data0: seq<Bytes>, ghost n: nat) returns (cluster: nat)
      requires Valid() && |fat0| == |fat| && |data0| == |data|
      requires Progress(fat0, data0, fat, data, geometry.ClusterSize(), n)
      requires previous == if n == 0 then 0 else FreeClusters(fat0)[n - 1]
      modifies this`sectors, this`fat, this`data
      ensures Valid()
      ensures cluster == 0 ==> fat == old(fat) && data == old(data) && n == |FreeClusters(fat0)|
      ensures cluster != 0 ==> n < |FreeClusters(fat0)| && cluster == FreeClusters(fat0)[n]
      ensures cluster != 0 ==> Progress(fat0, data0, fat, data, geometry.ClusterSize(), n + 1)
    {
      ghost var fat1, data1 := fat, data;
      cluster := AllocateCluster();
      if cluster != 0 {
        if previous != 0 {
          var _ := WriteFatEntry(previous, cluster);
        }
        ProgressStep(fat0, data0, fat1, data1, geometry.ClusterSize(), n, fat, data);
      }
    }

    /** Marks the clusters taken so far free again. */
    method Rollback(taken: seq<nat>, ghost fat0: Fat, ghost data0: seq<Bytes>)
      requires Valid() && |fat0| == |fat| && |data0| == |data|
      requires taken == FreeClusters(fat0)
      requires Progress(fat0, data0, fat, data, geometry.ClusterSize(), |taken|)
      modifies this`sectors, this`fat
      ensures Valid() && fat == fat0
      ensures forall c :: 2 <= c < |data| && fat0[c] != CLUSTER_FREE ==> data[c] == data0[c]
    {
      hide FatRefines, DataRefines, Progress;
      ProgressFull(fat0, data0, fat, data, geometry.ClusterSize());
      var i := 0;
      while i < |taken|
        invariant 0 <= i <= |taken| && Valid()
        invariant forall c :: 0 <= c < |fat| && c !in taken ==> fat[c] == fat0[c]
        invariant forall j :: 0 <= j < i ==> fat[taken[j]] == CLUSTER_FREE
      {
        var _ := WriteFatEntry(taken[i], CLUSTER_FREE);
        i := i + 1;
      }
      assert forall c :: 0 <= c < |fat| && c in taken ==> fat[c] == CLUSTER_FREE == fat0[c];
    }

    /** Frees every cluster met from `first` on. Ends on any FAT, cyclic ones included. */
    method FreeClusterChain(first: nat) returns (ok: bool)
      requires Valid()
      modifies this`sectors, this`fat
      ensures Valid()
      ensures fat == Cleared(old(fat), Trail(old(fat), first, []))
      ensures ok == !LoopsThroughAll(old(fat), first)
    {
      var cluster: nat := first;
      var freed: nat := 0;
      ghost var seen: seq<nat> := [];
      ghost var cameBack := false;
      while cluster >= 2 && cluster < geometry.totalClusters + 2
        invariant Valid() && Freeing(old(fat), first, fat, cluster, freed, seen, cameBack)
        decreases cluster != 0, geometry.totalClusters - freed
      {
        Pigeonhole(old(fat), seen);
        freed := freed + 1;
        if freed > geometry.totalClusters {
          FreeingAborts(old(fat), first, fat, cluster, freed - 1, seen);
          return false;
        }
        FreeingStep(old(fat), first, fat, cluster, freed - 1, seen);
        var next := ReadFatEntry(cluster);
        var _ := WriteFatEntry(cluster, CLUSTER_FREE);
        if next >= CLUSTER_LAST {
          return true;
        }
        cameBack, seen := cluster in seen, if cluster in seen then seen else seen + [cluster];
        cluster := next;
      }
      FreeingEnds(old(fat), first, fat, cluster, freed, seen, cameBack);
      ok := true;
    }
  }
}
