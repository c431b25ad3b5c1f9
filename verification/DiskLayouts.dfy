/** Where things lie on the disk, sector by sector and byte by byte: the formats that other systems read and write. */
module DiskLayouts {
  import opened Words
  import opened Chains
  import opened Fat32
  import opened Offsets
  import opened Entries
  import opened Slots
  import opened Listings
  import opened FileBytes

  // ----- clusters -----

  /** Cluster 2 begins the data region, and each next cluster begins where the one before it ends. */
  lemma ClustersInOrder(g: Geometry, c: nat)
    requires c >= 2
    ensures g.ClusterToSector(2) == g.firstDataSector
    ensures g.ClusterToSector(c + 1) == g.ClusterToSector(c) + g.sectorsPerCluster
  {
    assert (c - 1) * g.sectorsPerCluster == (c - 2) * g.sectorsPerCluster + g.sectorsPerCluster;
  }

  /** The sectors from the first data sector on are the clusters 2, 3 and so on. */
  lemma ClusterOnDisk(g: Geometry, sectors: seq<Sector>, data: seq<Bytes>, c: nat, i: nat)
    requires g.Valid() && |sectors| == g.diskSectors && DataRefines(g, sectors, data)
    requires 2 <= c < g.totalClusters + 2 && i < g.sectorsPerCluster
    ensures var j := g.firstDataSector + (c - 2) * g.sectorsPerCluster + i;
            && c < |data| && |data[c]| == 512 * g.sectorsPerCluster && 0 <= j < |sectors|
            && data[c][512 * i..512 * i + 512] == sectors[j]
  {
    ClusterSectorsInData(g, c, i);
    assert data[c] == ClusterAt(g, sectors, c);
    assert PartOf(data[c], i) == sectors[g.ClusterToSector(c) + i];
  }

  /** Byte `o` of sector `i` of the `k`th cluster of a file, at the place of the disk where it is. */
  lemma FileByteOnDisk(g: Geometry, sectors: seq<Sector>, data: seq<Bytes>, s: seq<nat>, k: nat, i: nat, o: nat)
    requires g.Valid() && |sectors| == g.diskSectors && DataRefines(g, sectors, data)
    requires k < |s| && g.HasCluster(s[k]) && i < g.sectorsPerCluster && o < 512
    ensures var j := g.firstDataSector + (s[k] - 2) * g.sectorsPerCluster + i;
            && 0 <= j < |sectors|
            && ByteAt(data, s, g.ClusterSize(), k * g.ClusterSize() + 512 * i + o) == sectors[j][o]
  {
    var size, r := g.ClusterSize(), 512 * i + o;
    ClusterOnDisk(g, sectors, data, s[k], i);
    StartIsProduct(k, size);
    Decompose(k, r, size);
    assert data[s[k]][512 * i..512 * i + 512][o] == data[s[k]][r];
  }

  // ----- the table -----

  /** The entry of a cluster is the cluster's word in the table, least significant byte first, without its top four
      bits. */
  lemma FatOnDisk(g: Geometry, sectors: seq<Sector>, top: seq<nat>, fat: Fat, c: nat)
    requires g.Valid() && |sectors| == g.diskSectors && FatRefines(g, sectors, top, fat) && Entries28(fat)
    requires c < g.totalClusters + 2
    ensures var i, o := g.fatStart + c / 128, 4 * (c % 128);
            && i < |sectors| && c < |fat|
            && fat[c] == (sectors[i][o] as int + 0x100 * (sectors[i][o + 1] as int)
                          + 0x1_0000 * (sectors[i][o + 2] as int)
                          + 0x100_0000 * (sectors[i][o + 3] as int)) % 0x1000_0000
  {
    FatEntryInSector(g, c);
    assert EntryAt(g, sectors, c) == Compose(top[c], fat[c]);
    ComposeParts(top[c], fat[c]);
  }

  // ----- directory entries -----

  /** The fields of an entry in its 32 bytes. */
  lemma EntryOnDisk(e: DirEntry)
    ensures var b := Encode(e);
            && b[..11] == e.name && b[11] == e.attributes
            && 0x100_0000 * (b[21] as int) + 0x1_0000 * (b[20] as int) + 0x100 * (b[27] as int) + b[26] as int
               == e.Cluster()
            && b[28] as int + 0x100 * (b[29] as int) + 0x1_0000 * (b[30] as int) + 0x100_0000 * (b[31] as int)
               == e.fileSize
            && (e.IsDirectory() <==> b[11] as int / 16 % 2 == 1)
  {
    var b := Encode(e);
    assert b[20..22] == ToLe16(e.clusterHigh) && b[26..28] == ToLe16(e.clusterLow) && b[28..] == ToLe32(e.fileSize);
    assert b[20] == b[20..22][0] && b[21] == b[20..22][1] && b[26] == b[26..28][0] && b[27] == b[26..28][1];
    assert b[28] == b[28..][0] && b[29] == b[28..][1] && b[30] == b[28..][2] && b[31] == b[28..][3];
    Le32RoundTrip(e.fileSize);
    BitFour(e.attributes);
  }

  /** A deleted entry is the same but for its first byte. */
  lemma TombstoneOnDisk(e: DirEntry)
    ensures Encode(Tombstone(e)) == Encode(e)[0 := 0xE5]
  {
    var rest := [e.attributes] + e.created + ToLe16(e.clusterHigh) + e.written + ToLe16(e.clusterLow)
                + ToLe32(e.fileSize);
    assert Encode(e) == e.name + rest && Encode(Tombstone(e)) == e.name[0 := 0xE5] + rest;
  }

  /** An entry that is not shown is free, or a label or part of a long name. */
  lemma ShownOnDisk(b: Bytes)
    requires |b| == 32
    ensures IsShown(Decode(b)) <==> b[0] != 0 && b[0] != 0xE5 && b[11] as int / 8 % 2 == 0
  {
    BitThree(b[11]);
    AttributeBits();
  }

  lemma BitThree(a: nat)
    ensures Bit(a, 3) <==> a / 8 % 2 == 1
  {
    var b := a / 2;
    var c := b / 2;
    assert Bit(a, 3) == Bit(b, 2) == Bit(c, 1) == Bit(c / 2, 0);
  }

  lemma BitFour(a: nat)
    ensures Bit(a, 4) <==> a / 16 % 2 == 1
  {
    var b := a / 2;
    var c := b / 2;
    var d := c / 2;
    assert Bit(a, 4) == Bit(b, 3) == Bit(c, 2) == Bit(d, 1) == Bit(d / 2, 0);
  }

  /** Slot `i` of the `j`th cluster of a directory. */
  lemma SlotOnDisk(data: seq<Bytes>, s: seq<nat>, per: nat, j: nat, i: nat)
    requires forall k :: 0 <= k < |s| ==> s[k] < |data| && |data[s[k]]| == 32 * per
    requires j < |s| && i < per
    ensures 32 * i + 32 <= |data[s[j]]| && j * per + i < |ChainSlots(data, s)|
    ensures ChainSlots(data, s)[j * per + i] == Decode(data[s[j]][32 * i..32 * i + 32])
  {
    hide ChainSlots;
    SlotsOfCluster(data, s, j);
    BaseIs(data, s, per, j);
    assert ChainSlots(data, s)[SlotBase(data, s, j)..SlotBase(data, s, j + 1)][i] == SlotsOf(data[s[j]])[i];
  }

  lemma {:induction false} BaseIs(data: seq<Bytes>, s: seq<nat>, per: nat, j: nat)
    requires forall k :: 0 <= k < |s| ==> s[k] < |data| && |data[s[k]]| == 32 * per
    requires j <= |s|
    ensures SlotBase(data, s, j) == j * per
    decreases j
  {
    hide ChainSlots;
    if j > 0 {
      SlotsOfCluster(data, s, j - 1);
      BaseIs(data, s, per, j - 1);
      assert (j - 1) * per + per == j * per;
    } else {
      NoSlots(data, s);
    }
  }

  lemma NoSlots(data: seq<Bytes>, s: seq<nat>)
    ensures s[..0] == [] && ChainSlots(data, []) == []
  {
  }

  // ----- names -----

  /** A name of base and extension, in the eleven bytes: in upper case, each padded with spaces. */
  lemma NameOnDisk(base: Bytes, extension: Bytes, i: nat)
    requires 1 <= |base| <= 8 && |extension| <= 3 && PERIOD !in base && PERIOD !in extension && i < 11
    ensures var name := if extension == [] then base else base + [PERIOD] + extension;
            && Accepted(name)
            && ShortName(name)[i] == if i < |base| then Upper(base[i])
                                     else if 8 <= i < 8 + |extension| then Upper(extension[i - 8]) else 0x20
  {
    var name := if extension == [] then base else base + [PERIOD] + extension;
    IndexUnique(name, PERIOD, |base|);
    assert Base(name) == base && Extension(name) == extension;
  }
}
