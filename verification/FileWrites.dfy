/** Writing and appending to a file of a consistent volume, complete or cut short by a full disk. */
module FileWrites {
  import opened Options
  import opened Words
  import opened Chains
  import opened Fat32
  import opened Offsets
  import opened Entries
  import opened Slots
  import opened Listings
  import opened Iterators
  import opened FileBytes
  import opened Files
  import opened Namespaces
  import opened Catalogues
  import opened FileSystems
  import opened Subdirectories
  import opened Renames

  /** The chain of a file, empty if it has no cluster. */
  ghost function ChainOf(cat: Catalogue, e: DirEntry): seq<nat> {
    if e.Cluster() in cat.chains then cat.chains[e.Cluster()] else []
  }

  /** Slot `k` of the directory at `d` holds the file entry `e`. */
  ghost predicate HoldsFile(data: seq<Bytes>, cat: Catalogue, d: nat, k: nat, e: DirEntry) {
    && d in cat.ns.tree && k < |SlotsAt(data, cat.chains, d)| && SlotsAt(data, cat.chains, d)[k] == e
    && IsShown(e) && !e.IsDirectory()
  }

  lemma FileKnown(fat: Fat, data: seq<Bytes>, cat: Catalogue, d: nat, k: nat, e: DirEntry)
    requires Consistent(fat, data, cat) && HoldsFile(data, cat, d, k, e)
    ensures d in cat.chains && IsChain(fat, cat.chains[d]) && cat.chains[d][0] == d && InData(data, cat.chains[d])
    ensures SlotsAt(data, cat.chains, d) == ChainSlots(data, cat.chains[d])
    ensures GoodEntry(e) && !IsDotName(DisplayName(e.name))
    ensures e.Cluster() == 0 ==> ChainOf(cat, e) == [] && LinkOf(e) == Nothing
    ensures e.Cluster() != 0 ==>
              && LinkOf(e) == OwnsFile(e.Cluster()) && e.Cluster() in cat.chains && e.Cluster() !in cat.ns.tree
              && IsChain(fat, ChainOf(cat, e)) && ChainOf(cat, e)[0] == e.Cluster()
    ensures Disjoint(ChainOf(cat, e), cat.chains[d]) && InData(data, ChainOf(cat, e))
    ensures Judge(e, Raw(e.name)) == Hit
  {
    hide IsChain;
    AttributeBits();
    DirectoryKnown(fat, data, cat, d);
    SlotKnown(fat, data, cat, d, k);
    NoChainAtZero(fat, data, cat);
    if e.Cluster() != 0 {
      FileChainApart(fat, cat, e.Cluster(), d);
    }
  }

  lemma FileChainApart(fat: Fat, cat: Catalogue, c: nat, d: nat)
    requires ChainsOk(fat, cat.chains) && c in cat.chains && d in cat.chains && c != d
    ensures Disjoint(cat.chains[c], cat.chains[d]) && forall i :: 0 <= i < |cat.chains[c]| ==> cat.chains[c][i] < |fat|
  {
    assert ChainOk(fat, cat.chains, c);
  }

  /** What saving an entry with a first cluster `c` leaves of it. */
  lemma SavedEntryFacts(e: DirEntry, c: nat, size: Word32)
    requires IsShown(e) && !e.IsDirectory() && !IsDotName(DisplayName(e.name)) && GoodEntry(e) && c < TWO_32
    ensures var e' := e.WithCluster(c).(fileSize := size);
            IsShown(e') && GoodEntry(e') && LinkOf(e') == if c == 0 then Nothing else OwnsFile(c)
  {
    ClusterRoundTrip(e, c);
  }

  /** The chain of a file has grown from `s` to `t` and its entry has been saved as `e'`, or not at all. */
  ghost predicate ChainSaved(fat0: Fat, data0: seq<Bytes>, cat: Catalogue, d: nat, k: nat, e': DirEntry, s: seq<nat>,
                             fat: Fat, t: seq<nat>, data: seq<Bytes>) {
    && d in cat.chains && InData(data, cat.chains[d]) && k < |SlotsAt(data0, cat.chains, d)|
    && Grown(fat0, s, fat, t) && |data| == |data0|
    && ChainSlots(data, cat.chains[d]) == SlotsAt(data0, cat.chains, d)[k := e']
    && (forall c: nat :: c < |data| && c !in t && c !in cat.chains[d] ==> data[c] == data0[c])
    && GoodSlots(SlotsAt(data0, cat.chains, d)[k := e'])
  }

  /** The catalogue after a chain has grown and its entry has been saved. */
  ghost predicate Stored(data0: seq<Bytes>, cat: Catalogue, d: nat, k: nat, e: DirEntry, e': DirEntry, t: seq<nat>,
                         data: seq<Bytes>, cat': Catalogue) {
    && Kept(data0, cat.chains, data, cat'.chains, {d, e.Cluster()})
    && cat'.ns.tree.Keys == cat.ns.tree.Keys && cat'.ns.root == cat.ns.root
    && k < |SlotsAt(data0, cat.chains, d)| && SlotsAt(data, cat'.chains, d) == SlotsAt(data0, cat.chains, d)[k := e']
    && (LinkOf(e') == Nothing ==> cat' == cat)
    && (LinkOf(e') != Nothing ==> t != [] && t[0] in cat'.chains && cat'.chains[t[0]] == t
                                  && cat'.ns.owner == cat.ns.owner[t[0] := Home(d, k)])
  }

  /** Who owns what after the chain of the file has become `t` and its slot holds `e'`. */
  ghost function SettledCatalogue(data0: seq<Bytes>, cat: Catalogue, d: nat, k: nat, e: DirEntry, e': DirEntry,
                                  t: seq<nat>)
    : Catalogue
  {
    if e.Cluster() != 0 then Catalogue(cat.chains[e.Cluster() := t], cat.ns)
    else if LinkOf(e') == Nothing || t == [] || k >= |SlotsAt(data0, cat.chains, d)| then cat
    else Catalogue(cat.chains[t[0] := t],
                   Namespace(cat.ns.root, cat.ns.tree[d := LinksOf(SlotsAt(data0, cat.chains, d)[k := e'])],
                             cat.ns.owner[t[0] := Home(d, k)]))
  }

  lemma SettledCases(data0: seq<Bytes>, cat: Catalogue, d: nat, k: nat, e: DirEntry, e': DirEntry, t: seq<nat>)
    requires t != [] && k < |SlotsAt(data0, cat.chains, d)|
    ensures e.Cluster() != 0 ==>
              SettledCatalogue(data0, cat, d, k, e, e', t) == Catalogue(cat.chains[e.Cluster() := t], cat.ns)
    ensures e.Cluster() == 0 && LinkOf(e') == Nothing ==> SettledCatalogue(data0, cat, d, k, e, e', t) == cat
    ensures e.Cluster() == 0 && LinkOf(e') != Nothing ==>
              SettledCatalogue(data0, cat, d, k, e, e', t)
              == Catalogue(cat.chains[t[0] := t],
                           Namespace(cat.ns.root, cat.ns.tree[d := LinksOf(SlotsAt(data0, cat.chains, d)[k := e'])],
                                     cat.ns.owner[t[0] := Home(d, k)]))
  {
  }

  /** The file had clusters already: its chain may have grown, nothing else changes hands. */
  lemma StoredInPlace(fat0: Fat, data0: seq<Bytes>, cat: Catalogue, d: nat, k: nat, e: DirEntry, e': DirEntry,
                      fat: Fat, t: seq<nat>, data: seq<Bytes>) returns (cat': Catalogue)
    requires Consistent(fat0, data0, cat) && HoldsFile(data0, cat, d, k, e) && e.Cluster() != 0
    requires ChainSaved(fat0, data0, cat, d, k, e', ChainOf(cat, e), fat, t, data)
    requires LinkOf(e') == LinkOf(e)
    ensures Consistent(fat, data, cat') && Stored(data0, cat, d, k, e, e', t, data, cat')
    ensures cat' == SettledCatalogue(data0, cat, d, k, e, e', t)
  {
    hide *;
    HoldsAt(data0, cat, d, k, e);
    ConsistentParts(fat0, data0, cat);
    FileKnown(fat0, data0, cat, d, k, e);
    FileHome(fat0, data0, cat, d, k, e);
    var c := e.Cluster();
    SavedParts(fat0, data0, cat, d, k, e', ChainOf(cat, e), fat, t, data);
    SavedHead(fat0, ChainOf(cat, e), fat, t);
    KeptOutside(fat0, data0, cat.chains, c, t, fat, data, d);
    cat' := Catalogue(cat.chains[c := t], cat.ns);
    LinksAfter(SlotsAt(data0, cat.chains, d), k, e');
    DirectoryKnown(fat0, data0, cat, d);
    SlotsMakeDirectory(data, cat'.chains, d, SlotsAt(data0, cat.chains, d)[k := e']);
    assert {c, d} == {d, c};
    SettledCases(data0, cat, d, k, e, e', t);
    Rebuilt(fat0, data0, cat, fat, data, cat', {c, d});
    StoredSummary(data0, cat, d, k, e, e', t, data, cat');
  }

  lemma FileHome(fat: Fat, data: seq<Bytes>, cat: Catalogue, d: nat, k: nat, e: DirEntry)
    requires Consistent(fat, data, cat) && HoldsFile(data, cat, d, k, e) && e.Cluster() != 0
    ensures e.Cluster() in cat.ns.owner && cat.ns.owner[e.Cluster()] == Home(d, k) && e.Cluster() != d
    ensures cat.ns.owner[e.Cluster() := Home(d, k)] == cat.ns.owner && e.Cluster() != cat.ns.root
    ensures ChainOf(cat, e) == if e.Cluster() in cat.chains then cat.chains[e.Cluster()] else []
    ensures LinkOf(e) == OwnsFile(e.Cluster()) && ChainOf(cat, e) != []
  {
    hide ChainsOk;
    FileKnown(fat, data, cat, d, k, e);
    SlotKnown(fat, data, cat, d, k);
  }

  lemma SavedParts(fat0: Fat, data0: seq<Bytes>, cat: Catalogue, d: nat, k: nat, e': DirEntry, s: seq<nat>,
                   fat: Fat, t: seq<nat>, data: seq<Bytes>)
    requires ChainSaved(fat0, data0, cat, d, k, e', s, fat, t, data)
    ensures d in cat.chains && InData(data, cat.chains[d]) && k < |SlotsAt(data0, cat.chains, d)|
    ensures Grown(fat0, s, fat, t) && |data| == |data0| && |fat| == |fat0|
    ensures ChainSlots(data, cat.chains[d]) == SlotsAt(data0, cat.chains, d)[k := e']
    ensures forall c: nat :: c < |data| && c !in t && c !in cat.chains[d] ==> data[c] == data0[c]
    ensures GoodSlots(SlotsAt(data0, cat.chains, d)[k := e'])
  {
  }

  lemma SavedHead(fat0: Fat, s: seq<nat>, fat: Fat, t: seq<nat>)
    requires Grown(fat0, s, fat, t)
    ensures t != [] && (s != [] ==> t[0] == s[0])
    ensures s == [] ==> t[0] == LowestFree(fat0) && t[0] != 0
  {
    if s == [] {
      assert t[0] == t[0..][0] == FreeClusters(fat0)[..|t|][0];
    }
  }

  lemma StoredSummary(data0: seq<Bytes>, cat: Catalogue, d: nat, k: nat, e: DirEntry, e': DirEntry, t: seq<nat>,
                      data: seq<Bytes>, cat': Catalogue)
    requires Kept(data0, cat.chains, data, cat'.chains, {d, e.Cluster()})
    requires cat'.ns.tree.Keys == cat.ns.tree.Keys && cat'.ns.root == cat.ns.root
    requires k < |SlotsAt(data0, cat.chains, d)|
    requires SlotsAt(data, cat'.chains, d) == SlotsAt(data0, cat.chains, d)[k := e']
    requires (LinkOf(e') == Nothing ==> cat' == cat)
    requires LinkOf(e') != Nothing ==> t != [] && t[0] in cat'.chains && cat'.chains[t[0]] == t
                                       && cat'.ns.owner == cat.ns.owner[t[0] := Home(d, k)]
    ensures Stored(data0, cat, d, k, e, e', t, data, cat')
  {
    hide Kept, SlotsAt, LinkOf;
  }

  /** The file had no cluster and its entry now owns the new chain. */
  lemma StoredNew(fat0: Fat, data0: seq<Bytes>, cat: Catalogue, d: nat, k: nat, e: DirEntry, e': DirEntry,
                  fat: Fat, t: seq<nat>, data: seq<Bytes>) returns (cat': Catalogue)
    requires Consistent(fat0, data0, cat) && HoldsFile(data0, cat, d, k, e) && e.Cluster() == 0
    requires ChainSaved(fat0, data0, cat, d, k, e', [], fat, t, data)
    requires t != [] && LinkOf(e') == OwnsFile(t[0])
    ensures Consistent(fat, data, cat') && Stored(data0, cat, d, k, e, e', t, data, cat')
    ensures cat' == SettledCatalogue(data0, cat, d, k, e, e', t)
  {
    hide *;
    HoldsAt(data0, cat, d, k, e);
    ConsistentParts(fat0, data0, cat);
    FileKnown(fat0, data0, cat, d, k, e);
    DirectoryKnown(fat0, data0, cat, d);
    SavedParts(fat0, data0, cat, d, k, e', [], fat, t, data);
    SavedHead(fat0, [], fat, t);
    NewChain(fat0, data0, cat, d, fat, t, data);
    var c, slots, slots' := t[0], SlotsAt(data0, cat.chains, d), SlotsAt(data0, cat.chains, d)[k := e'];
    LinksAfter(slots, k, e');
    var ns' := Namespace(cat.ns.root, cat.ns.tree[d := LinksOf(slots')], cat.ns.owner[c := Home(d, k)]);
    SlotGainsOwner(cat.ns, d, k, LinksOf(slots'), c, None, ns');
    cat' := Catalogue(cat.chains[c := t], ns');
    assert cat'.chains[d] == cat.chains[d];
    SlotsMakeDirectory(data, cat'.chains, d, slots');
    KeptMore(data0, cat.chains, data, cat'.chains, {d}, {d, e.Cluster()});
    Rebuilt(fat0, data0, cat, fat, data, cat', {d});
    SettledCases(data0, cat, d, k, e, e', t);
    StoredSummary(data0, cat, d, k, e, e', t, data, cat');
  }

  lemma HoldsAt(data: seq<Bytes>, cat: Catalogue, d: nat, k: nat, e: DirEntry)
    requires HoldsFile(data, cat, d, k, e)
    ensures d in cat.ns.tree && k < |SlotsAt(data, cat.chains, d)| && SlotsAt(data, cat.chains, d)[k] == e
  {
  }

  /** A new chain does not meet any of the catalogue's. */
  lemma NewChain(fat0: Fat, data0: seq<Bytes>, cat: Catalogue, d: nat, fat: Fat, t: seq<nat>, data: seq<Bytes>)
    requires Consistent(fat0, data0, cat) && d in cat.chains && |data| == |data0|
    requires Grown(fat0, [], fat, t) && t != [] && t[0] == LowestFree(fat0)
    requires forall c: nat :: c < |data| && c !in t && c !in cat.chains[d] ==> data[c] == data0[c]
    ensures t[0] !in cat.chains && t[0] !in cat.ns.owner && t[0] != cat.ns.root && t[0] != d
    ensures ChainsOk(fat, cat.chains[t[0] := t]) && ChainsOk(fat, cat.chains)
    ensures Kept(data0, cat.chains, data, cat.chains[t[0] := t], {d})
    ensures Kept(data0, cat.chains, data, cat.chains, {d})
  {
    hide *;
    var c := t[0];
    ConsistentParts(fat0, data0, cat);
    FreeIsUnused(fat0, cat.chains);
    OwnRoot(fat0, cat.chains, c);
    KeptOutside(fat0, data0, cat.chains, c, t, fat, data, d);
    ChainsSubset(fat, cat.chains, c, t);
    KeptAside(data0, cat.chains, data, c, t, d);
  }

  lemma KeptAside(data0: seq<Bytes>, chains: ChainMap, data: seq<Bytes>, c: nat, t: seq<nat>, d: nat)
    requires Kept(data0, chains, data, chains[c := t], {c, d}) && c !in chains
    ensures Kept(data0, chains, data, chains[c := t], {d}) && Kept(data0, chains, data, chains, {d})
  {
  }

  /** The file had no cluster and its entry does not say otherwise: the new chain stays without an owner. */
  lemma StoredOrphan(fat0: Fat, data0: seq<Bytes>, cat: Catalogue, d: nat, k: nat, e: DirEntry, e': DirEntry,
                     fat: Fat, t: seq<nat>, data: seq<Bytes>)
    requires Consistent(fat0, data0, cat) && HoldsFile(data0, cat, d, k, e) && e.Cluster() == 0
    requires ChainSaved(fat0, data0, cat, d, k, e', [], fat, t, data)
    requires LinkOf(e') == Nothing
    ensures Consistent(fat, data, cat) && Stored(data0, cat, d, k, e, e', t, data, cat)
    ensures t != [] && t[0] !in cat.chains
  {
    hide *;
    HoldsAt(data0, cat, d, k, e);
    ConsistentParts(fat0, data0, cat);
    FileKnown(fat0, data0, cat, d, k, e);
    DirectoryKnown(fat0, data0, cat, d);
    SavedParts(fat0, data0, cat, d, k, e', [], fat, t, data);
    SavedHead(fat0, [], fat, t);
    NewChain(fat0, data0, cat, d, fat, t, data);
    LinksAfter(SlotsAt(data0, cat.chains, d), k, e');
    SlotsMakeDirectory(data, cat.chains, d, SlotsAt(data0, cat.chains, d)[k := e']);
    KeptMore(data0, cat.chains, data, cat.chains, {d}, {d, e.Cluster()});
    Rebuilt(fat0, data0, cat, fat, data, cat, {d});
    StoredSummary(data0, cat, d, k, e, e', t, data, cat);
  }

  // ----- writing -----

  /** Settles who owns what after the chain of the file in slot `k` has grown to `t` and the slot holds `e'`. */
  lemma Settled(fat0: Fat, data0: seq<Bytes>, cat: Catalogue, d: nat, k: nat, e: DirEntry, e': DirEntry,
                fat: Fat, t: seq<nat>, data: seq<Bytes>) returns (cat': Catalogue)
    requires Consistent(fat0, data0, cat) && HoldsFile(data0, cat, d, k, e)
    requires ChainSaved(fat0, data0, cat, d, k, e', ChainOf(cat, e), fat, t, data)
    requires LinkOf(e') == LinkOf(e) || (t != [] && LinkOf(e') == OwnsFile(t[0]))
    ensures Consistent(fat, data, cat') && Stored(data0, cat, d, k, e, e', t, data, cat')
    ensures cat' == SettledCatalogue(data0, cat, d, k, e, e', t)
  {
    hide *;
    FileKnown(fat0, data0, cat, d, k, e);
    if e.Cluster() != 0 {
      FileHome(fat0, data0, cat, d, k, e);
      SavedParts(fat0, data0, cat, d, k, e', ChainOf(cat, e), fat, t, data);
      SavedHead(fat0, ChainOf(cat, e), fat, t);
      cat' := StoredInPlace(fat0, data0, cat, d, k, e, e', fat, t, data);
    } else if LinkOf(e') == Nothing {
      StoredOrphan(fat0, data0, cat, d, k, e, e', fat, t, data);
      cat' := cat;
      HoldsAt(data0, cat, d, k, e);
      SettledCases(data0, cat, d, k, e, e', t);
    } else {
      cat' := StoredNew(fat0, data0, cat, d, k, e, e', fat, t, data);
    }
  }

  lemma SavedGood(slots: Directory, k: nat, e: DirEntry)
    requires GoodSlots(slots) && k < |slots| && IsShown(slots[k]) && IsShown(e) && GoodEntry(e)
    ensures GoodSlots(slots[k := e])
  {
    RenamedGood(slots, k, e);
  }

  /** The entry a write leaves: complete, or emptied. */
  function WrittenEntry(e: DirEntry, c: nat, complete: bool, size: Word32): DirEntry
    requires c < TWO_32
  {
    if complete then e.WithCluster(c).(fileSize := size) else e.(fileSize := 0)
  }

  lemma WrittenEntryFacts(e: DirEntry, c: nat, complete: bool, size: Word32)
    requires IsShown(e) && !e.IsDirectory() && !IsDotName(DisplayName(e.name)) && GoodEntry(e) && c < TWO_32
    ensures var e' := WrittenEntry(e, c, complete, size);
            && IsShown(e') && GoodEntry(e')
            && LinkOf(e') == if !complete then LinkOf(e) else if c == 0 then Nothing else OwnsFile(c)
  {
    if complete {
      SavedEntryFacts(e, c, size);
    } else {
      ClusterUnchanged(e);
      SavedEntryFacts(e, e.Cluster(), 0);
    }
  }

  /** What `file_write` of `b` to the file entry `e` in slot `k` of `d` leaves behind. */
  ghost predicate WriteOutcome(fat0: Fat, data0: seq<Bytes>, cat: Catalogue, d: nat, k: nat, e: DirEntry, b: Bytes,
                               size: nat, result: int, fat: Fat, t: seq<nat>, data: seq<Bytes>, cat': Catalogue) {
    && d in cat.chains && |b| < 0x8000_0000
    && (result == -101 || result == -102 || 0 <= result <= |b|)
    && (result == -101 <==> e.Cluster() == 0 && FreeClusters(fat0) == [])
    && (result == -102 <==> result != -101 && size > BUFFER_SIZE)
    && (result == -101 ==> fat == fat0)
    && (result != -101 ==>
          && FileSaved(fat0, ChainOf(cat, e), data0, fat, t, data, size, 0, if result < 0 then [] else b[..result],
                       cat.chains[d])
          && t != [] && t[0] < TWO_32)
    && (0 <= result < |b| ==> FreeClusters(fat) == [] && result == Start(|t|, size))
    && (result == |b| ==> |b| <= Start(|t|, size))
    && var e' := WrittenEntry(e, if result == |b| then t[0] else 0, result == |b|, |b|);
       && Stored(data0, cat, d, k, e, e', t, data, cat')
       && (if result == -101
           then cat' == cat && k < |SlotsAt(data0, cat.chains, d)|
                && SlotsRewritten(data0, data, cat.chains[d], SlotsAt(data0, cat.chains, d)[k := e'])
           else cat' == SettledCatalogue(data0, cat, d, k, e, e', t)
                && ChainSaved(fat0, data0, cat, d, k, e', ChainOf(cat, e), fat, t, data))
  }

  lemma WriteSettled(fat0: Fat, data0: seq<Bytes>, cat: Catalogue, d: nat, k: nat, e: DirEntry, b: Bytes, done: Bytes,
                     size: nat, complete: bool, fat: Fat, t: seq<nat>, data: seq<Bytes>) returns (cat': Catalogue)
    requires Consistent(fat0, data0, cat) && HoldsFile(data0, cat, d, k, e) && d in cat.chains
    requires InData(data, cat.chains[d])
    requires FileSaved(fat0, ChainOf(cat, e), data0, fat, t, data, size, 0, done, cat.chains[d])
    requires t != [] && t[0] < TWO_28 && |b| < 0x8000_0000
    requires ChainSlots(data, cat.chains[d])
             == SlotsAt(data0, cat.chains, d)[k := WrittenEntry(e, t[0], complete, |b|)]
    ensures Consistent(fat, data, cat')
    ensures var e' := WrittenEntry(e, t[0], complete, |b|);
            && Stored(data0, cat, d, k, e, e', t, data, cat') && cat' == SettledCatalogue(data0, cat, d, k, e, e', t)
            && ChainSaved(fat0, data0, cat, d, k, e', ChainOf(cat, e), fat, t, data)
  {
    hide Consistent, Stored, Namespace.Ok, GoodEntry, GoodSlots, ChainSlots, SlotsAt, Overwritten, LinkOf, ChainOf,
         LinksOf, WrittenEntry, IsChain;
    FileKnown(fat0, data0, cat, d, k, e);
    DirectoryKnown(fat0, data0, cat, d);
    var e' := WrittenEntry(e, t[0], complete, |b|);
    WrittenEntryFacts(e, t[0], complete, |b|);
    SavedGood(SlotsAt(data0, cat.chains, d), k, e');
    SavedHead(fat0, ChainOf(cat, e), fat, t);
    HeadPositive(fat, t);
    cat' := Settled(fat0, data0, cat, d, k, e, e', fat, t, data);
  }

  lemma HeadPositive(fat: Fat, t: seq<nat>)
    requires IsChain(fat, t)
    ensures t[0] >= 2
  {
  }

  /** A write that found no cluster for an empty file: only the entry has been saved. */
  lemma WriteRefused(fat: Fat, data0: seq<Bytes>, cat: Catalogue, d: nat, k: nat, e: DirEntry, t: seq<nat>,
                     data: seq<Bytes>,
                     size: Word32)
    requires Consistent(fat, data0, cat) && HoldsFile(data0, cat, d, k, e) && e.Cluster() == 0
    requires d in cat.chains && InData(data, cat.chains[d]) && |data| == |data0|
    requires ChainSlots(data, cat.chains[d]) == SlotsAt(data0, cat.chains, d)[k := WrittenEntry(e, 0, false, size)]
    requires forall c: nat :: c < |data| && c !in cat.chains[d] ==> data[c] == data0[c]
    ensures Consistent(fat, data, cat) && Stored(data0, cat, d, k, e, WrittenEntry(e, 0, false, size), t, data, cat)
  {
    hide Consistent, Stored, Namespace.Ok, GoodEntry, GoodSlots, ChainSlots, SlotsAt, LinkOf, ChainOf, LinksOf,
         WrittenEntry, IsChain;
    var e' := WrittenEntry(e, 0, false, size);
    FileKnown(fat, data0, cat, d, k, e);
    DirectoryKnown(fat, data0, cat, d);
    WrittenEntryFacts(e, 0, false, size);
    SavedGood(SlotsAt(data0, cat.chains, d), k, e');
    Resaved(fat, data0, cat, d, k, e', data);
    KeptMore(data0, cat.chains, data, cat.chains, {d}, {d, e.Cluster()});
    StoredSummary(data0, cat, d, k, e, e', t, data, cat);
  }

  lemma ChainHead(fat: Fat, s: seq<nat>, fat': Fat, t: seq<nat>)
    requires Grown(fat, s, fat', t) && |fat'| < TWO_28
    ensures t != [] && t[0] < TWO_28
  {
  }

  /** Opens the file listed under `leaf` and writes `b` to it. */
  method WriteFile(vol: Volume, parent: nat, leaf: Bytes, b: Bytes, ghost cat: Catalogue)
    returns (result: Option<int>, ghost t: seq<nat>, ghost cat': Catalogue)
    requires IsVolume(vol, cat) && parent in cat.ns.tree && |b| < 0x8000_0000
    modifies vol`sectors, vol`fat, vol`data
    ensures IsVolume(vol, cat')
    ensures var found := FindListed(Listing(old(DirSlots(vol, cat, parent))), leaf);
            && result.Some? == (found.Some? && !found.value.IsDirectory())
            && (result.Some? ==>
                  WriteOutcome(old(vol.fat), old(vol.data), cat, parent,
                               First(old(DirSlots(vol, cat, parent)), Listed(leaf)),
                               found.value, b, vol.geometry.ClusterSize(), result.value, vol.fat, t, vol.data, cat'))
    ensures result == None ==> vol.fat == old(vol.fat) && vol.data == old(vol.data) && cat' == cat
  {
    hide Consistent, Kept, DirectoryOk, FatRefines, DataRefines, ChainSlots, First, Judge, Listing, FindListed,
         GoodEntry, LinkOf, GoodSlots, IsShown, LinksOf, Stored, Grown, Overwritten, ChainOf, IsChain;
    t, cat' := [], cat;
    var entry;
    ghost var k;
    entry, k := Lookup(vol, parent, leaf, cat);
    if entry.None? || entry.value.IsDirectory() {
      return None, t, cat';
    }
    ghost var fat0, data0, e := vol.fat, vol.data, entry.value;
    ghost var slots, d := DirSlots(vol, cat, parent), cat.chains[parent];
    FileKnown(fat0, data0, cat, parent, k, e);
    RawFindsSame(slots, leaf);
    var file := new FileHandle(vol, parent, entry.value);
    var written;
    written, t := file.Write(b, ChainOf(cat, e), d);
    result := Some(written);
    if written == -101 {
      WriteRefused(fat0, data0, cat, parent, k, e, t, vol.data, |b|);
    } else {
      ghost var done := if written < 0 then [] else b[..written];
      assert written == |b| ==> done == b;
      ChainHead(fat0, ChainOf(cat, e), vol.fat, t);
      cat' := WriteSettled(fat0, data0, cat, parent, k, e, b, done, vol.geometry.ClusterSize(), written == |b|,
                           vol.fat, t, vol.data);
      StoredRoot(data0, cat, parent, k, e, WrittenEntry(e, t[0], written == |b|, |b|), t, vol.data, cat');
    }
  }

  /** What a write leaves behind is a consistent volume. */
  lemma WriteKeeps(fat0: Fat, data0: seq<Bytes>, cat: Catalogue, d: nat, k: nat, e: DirEntry, b: Bytes,
                   size: Positive, result: int, fat: Fat, t: seq<nat>, data: seq<Bytes>, cat': Catalogue)
    requires Consistent(fat0, data0, cat) && HoldsFile(data0, cat, d, k, e)
    requires WriteOutcome(fat0, data0, cat, d, k, e, b, size, result, fat, t, data, cat')
    ensures Consistent(fat, data, cat') && cat'.ns.root == cat.ns.root
  {
    hide Consistent, Stored, Namespace.Ok, GoodEntry, GoodSlots, ChainSlots, SlotsAt, Overwritten, LinkOf, ChainOf,
         LinksOf, WrittenEntry, IsChain, ChainSaved, SettledCatalogue, Grown, FileSaved;
    FileKnown(fat0, data0, cat, d, k, e);
    var e' := WrittenEntry(e, if result == |b| then t[0] else 0, result == |b|, |b|);
    StoredRoot(data0, cat, d, k, e, e', t, data, cat');
    if result == -101 {
      WriteRefused(fat, data0, cat, d, k, e, t, data, |b|);
    } else {
      WrittenEntryFacts(e, if result == |b| then t[0] else 0, result == |b|, |b|);
      SavedHeadOf(fat0, data0, cat, d, k, e', ChainOf(cat, e), fat, t, data);
      var _ := Settled(fat0, data0, cat, d, k, e, e', fat, t, data);
    }
  }

  lemma SavedHeadOf(fat0: Fat, data0: seq<Bytes>, cat: Catalogue, d: nat, k: nat, e': DirEntry, s: seq<nat>,
                    fat: Fat, t: seq<nat>, data: seq<Bytes>)
    requires ChainSaved(fat0, data0, cat, d, k, e', s, fat, t, data)
    ensures t != [] && t[0] >= 2 && (s != [] ==> t[0] == s[0])
  {
    SavedHead(fat0, s, fat, t);
    HeadPositive(fat, t);
  }

  lemma StoredRoot(data0: seq<Bytes>, cat: Catalogue, d: nat, k: nat, e: DirEntry, e': DirEntry, t: seq<nat>,
                   data: seq<Bytes>, cat': Catalogue)
    requires Stored(data0, cat, d, k, e, e', t, data, cat')
    ensures cat'.ns.root == cat.ns.root
  {
  }

  // ----- appending -----

  /** What `file_append` of `b` to the file entry `e` in slot `k` of `d` leaves behind. */
  ghost predicate AppendOutcome(fat0: Fat, data0: seq<Bytes>, cat: Catalogue, d: nat, k: nat, e: DirEntry, b: Bytes,
                                size: Positive, result: int, fat: Fat, t: seq<nat>, data: seq<Bytes>, cat': Catalogue) {
    var s, at := ChainOf(cat, e), AppendOffset(ChainOf(cat, e), e.fileSize, size);
    && d in cat.chains && e.fileSize + |b| < TWO_32
    && (result == -101 || result == -102 || 0 <= result <= |b|)
    && (result == -101 <==> e.Cluster() == 0 && FreeClusters(fat0) == [])
    && (result == -102 <==> result != -101 && size > BUFFER_SIZE)
    && (result == -101 ==> fat == fat0 && data == data0 && cat' == cat)
    && (result != -101 ==>
          && FileSaved(fat0, s, data0, fat, t, data, size, at, if result < 0 then [] else b[..result], cat.chains[d])
          && t != [] && t[0] < TWO_32
          && var e' := AppendedEntry(e, t[0], result == |b|, e.fileSize + |b|);
             && Stored(data0, cat, d, k, e, e', t, data, cat') && cat' == SettledCatalogue(data0, cat, d, k, e, e', t)
             && ChainSaved(fat0, data0, cat, d, k, e', s, fat, t, data))
    && (0 <= result < |b| ==> FreeClusters(fat) == [] && at + result == Start(|t|, size))
    && (result == |b| && |t| > |s| && |t| > 1 ==> Start(|t| - 1, size) < at + |b|)
    && (result == |b| ==> at + |b| <= Start(|t|, size))
  }

  /** The entry an append leaves: grown, or as it was. */
  function AppendedEntry(e: DirEntry, c: nat, complete: bool, size: Word32): DirEntry
    requires c < TWO_32
  {
    if complete then e.WithCluster(c).(fileSize := size) else e
  }

  lemma AppendedEntryFacts(e: DirEntry, c: nat, complete: bool, size: Word32)
    requires IsShown(e) && !e.IsDirectory() && !IsDotName(DisplayName(e.name)) && GoodEntry(e) && c < TWO_32
    ensures var e' := AppendedEntry(e, c, complete, size);
            && IsShown(e') && GoodEntry(e')
            && LinkOf(e') == if !complete then LinkOf(e) else if c == 0 then Nothing else OwnsFile(c)
  {
    SavedEntryFacts(e, c, size);
  }

  lemma AppendSettled(fat0: Fat, data0: seq<Bytes>, cat: Catalogue, d: nat, k: nat, e: DirEntry, at: nat, done: Bytes,
                      size: nat, complete: bool, length: Word32, fat: Fat, t: seq<nat>, data: seq<Bytes>)
    returns (cat': Catalogue)
    requires Consistent(fat0, data0, cat) && HoldsFile(data0, cat, d, k, e) && d in cat.chains
    requires InData(data, cat.chains[d])
    requires FileSaved(fat0, ChainOf(cat, e), data0, fat, t, data, size, at, done, cat.chains[d])
    requires t != [] && t[0] < TWO_28
    requires ChainSlots(data, cat.chains[d])
             == SlotsAt(data0, cat.chains, d)[k := AppendedEntry(e, t[0], complete, length)]
    ensures Consistent(fat, data, cat') && cat'.ns.root == cat.ns.root
    ensures var e' := AppendedEntry(e, t[0], complete, length);
            && Stored(data0, cat, d, k, e, e', t, data, cat') && cat' == SettledCatalogue(data0, cat, d, k, e, e', t)
            && ChainSaved(fat0, data0, cat, d, k, e', ChainOf(cat, e), fat, t, data)
  {
    hide Consistent, Stored, Namespace.Ok, GoodEntry, GoodSlots, ChainSlots, SlotsAt, Overwritten, LinkOf, ChainOf,
         LinksOf, AppendedEntry, IsChain;
    FileKnown(fat0, data0, cat, d, k, e);
    DirectoryKnown(fat0, data0, cat, d);
    var e' := AppendedEntry(e, t[0], complete, length);
    AppendedEntryFacts(e, t[0], complete, length);
    SavedGood(SlotsAt(data0, cat.chains, d), k, e');
    SavedHead(fat0, ChainOf(cat, e), fat, t);
    HeadPositive(fat, t);
    cat' := Settled(fat0, data0, cat, d, k, e, e', fat, t, data);
    StoredRoot(data0, cat, d, k, e, e', t, data, cat');
  }

  /** An append cut short has left the directory alone. */
  lemma AppendCutShort(fat0: Fat, data0: seq<Bytes>, cat: Catalogue, d: nat, k: nat, e: DirEntry, at: nat, done: Bytes,
                       size: nat, fat: Fat, t: seq<nat>, data: seq<Bytes>)
    requires Consistent(fat0, data0, cat) && HoldsFile(data0, cat, d, k, e)
    requires FileWritten(fat0, ChainOf(cat, e), data0, fat, t, data, size, at, done)
    ensures d in cat.chains && InData(data, cat.chains[d])
    ensures FileSaved(fat0, ChainOf(cat, e), data0, fat, t, data, size, at, done, cat.chains[d])
    ensures ChainSlots(data, cat.chains[d]) == SlotsAt(data0, cat.chains, d)[k := e]
  {
    hide Consistent, Namespace.Ok, GoodEntry, GoodSlots, ChainSlots, SlotsAt, Overwritten, LinkOf, ChainOf, LinksOf,
         IsChain, Judge;
    FileKnown(fat0, data0, cat, d, k, e);
    DirectoryKeptClear(fat0, ChainOf(cat, e), fat, t, cat.chains[d]);
    ChainSlotsFrame(data0, data, cat.chains[d]);
  }

  /** Opens the file listed under `leaf` and appends `b` to it. */
  method AppendFile(vol: Volume, parent: nat, leaf: Bytes, b: Bytes, ghost cat: Catalogue)
    returns (result: Option<int>, ghost t: seq<nat>, ghost cat': Catalogue)
    requires IsVolume(vol, cat) && parent in cat.ns.tree
    requires var found := FindListed(Listing(DirSlots(vol, cat, parent)), leaf);
             found.Some? ==> found.value.fileSize + |b| < TWO_32
    modifies vol`sectors, vol`fat, vol`data
    ensures IsVolume(vol, cat')
    ensures var found := FindListed(Listing(old(DirSlots(vol, cat, parent))), leaf);
            && result.Some? == (found.Some? && !found.value.IsDirectory())
            && (result.Some? ==>
                  AppendOutcome(old(vol.fat), old(vol.data), cat, parent,
                                First(old(DirSlots(vol, cat, parent)), Listed(leaf)),
                                found.value, b, vol.geometry.ClusterSize(), result.value, vol.fat, t, vol.data, cat'))
    ensures result == None ==> vol.fat == old(vol.fat) && vol.data == old(vol.data) && cat' == cat
  {
    hide Consistent, Kept, DirectoryOk, FatRefines, DataRefines, ChainSlots, First, Judge, Listing, FindListed,
         GoodEntry, LinkOf, GoodSlots, IsShown, LinksOf, Stored, Grown, Overwritten, ChainOf, IsChain, Disjoint,
         ChainsOk, FileWritten, FileSaved, Start, AppendOffset, ChainSaved, SettledCatalogue, Found;
    t, cat' := [], cat;
    var entry;
    ghost var k;
    entry, k := Lookup(vol, parent, leaf, cat);
    if entry.None? || entry.value.IsDirectory() {
      return None, t, cat';
    }
    ghost var fat0, data0, e := vol.fat, vol.data, entry.value;
    ghost var slots, d := DirSlots(vol, cat, parent), cat.chains[parent];
    FileKnown(fat0, data0, cat, parent, k, e);
    RawFindsSame(slots, leaf);
    var file := new FileHandle(vol, parent, entry.value);
    var written;
    written, t := file.Append(b, ChainOf(cat, e), d);
    result := Some(written);
    if written != -101 {
      ghost var done, at := if written < 0 then [] else b[..written],
                            AppendOffset(ChainOf(cat, e), e.fileSize, vol.geometry.ClusterSize());
      assert written == |b| ==> done == b;
      if written != |b| {
        AppendCutShort(fat0, data0, cat, parent, k, e, at, done, vol.geometry.ClusterSize(), vol.fat, t, vol.data);
      }
      ChainHead(fat0, ChainOf(cat, e), vol.fat, t);
      cat' := AppendSettled(fat0, data0, cat, parent, k, e, at, done, vol.geometry.ClusterSize(), written == |b|,
                            e.fileSize + |b|, vol.fat, t, vol.data);
    }
  }

  /** What an append leaves behind is a consistent volume. */
  lemma AppendKeeps(fat0: Fat, data0: seq<Bytes>, cat: Catalogue, d: nat, k: nat, e: DirEntry, b: Bytes,
                    size: Positive, result: int, fat: Fat, t: seq<nat>, data: seq<Bytes>, cat': Catalogue)
    requires Consistent(fat0, data0, cat) && HoldsFile(data0, cat, d, k, e)
    requires AppendOutcome(fat0, data0, cat, d, k, e, b, size, result, fat, t, data, cat')
    ensures Consistent(fat, data, cat') && cat'.ns.root == cat.ns.root
  {
    hide Consistent, Stored, Namespace.Ok, GoodEntry, GoodSlots, ChainSlots, SlotsAt, Overwritten, LinkOf, ChainOf,
         LinksOf, AppendedEntry, IsChain, ChainSaved, SettledCatalogue, Grown, FileSaved;
    if result != -101 {
      FileKnown(fat0, data0, cat, d, k, e);
      var e' := AppendedEntry(e, t[0], result == |b|, e.fileSize + |b|);
      StoredRoot(data0, cat, d, k, e, e', t, data, cat');
      AppendedEntryFacts(e, t[0], result == |b|, e.fileSize + |b|);
      SavedHeadOf(fat0, data0, cat, d, k, e', ChainOf(cat, e), fat, t, data);
      var _ := Settled(fat0, data0, cat, d, k, e, e', fat, t, data);
    }
  }
}
