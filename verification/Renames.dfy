/** Renaming an entry inside its directory and moving it to another one, once its paths have been looked up. */
module Renames {
  import opened Options
  import opened Words
  import opened Chains
  import opened Fat32
  import opened Entries
  import opened Slots
  import opened Listings
  import opened Directories
  import opened Iterators
  import opened Namespaces
  import opened Catalogues
  import opened FileSystems

  /** An entry that owns what it owned, under a new accepted name. */
  lemma RenamedFacts(e: DirEntry, newLeaf: Bytes)
    requires IsShown(e) && GoodEntry(e) && !IsDotName(DisplayName(e.name)) && Accepted(newLeaf) && IsText(newLeaf)
    ensures var e' := e.(name := ShortName(newLeaf));
            IsShown(e') && !IsEnd(e') && GoodEntry(e') && LinkOf(e') == LinkOf(e)
  {
    ShortNameFacts(newLeaf);
  }

  lemma RenamedGood(slots: Directory, k: nat, e: DirEntry)
    requires GoodSlots(slots) && k < |slots| && IsShown(slots[k]) && IsShown(e) && GoodEntry(e)
    ensures GoodSlots(slots[k := e])
  {
    ReplaceListing(slots, k, e);
  }

  /** Renaming inside one directory, as `file_move` does it when the entry is to stay in its directory. The entry has
      been located by the old path; `occupied` says whether the new path led to an entry, which is looked for where that
      path says. */
  method RenameInDirectory(vol: Volume, at: Located, newLeaf: Bytes, occupied: bool, ghost cat: Catalogue)
    returns (ok: bool)
    requires IsVolume(vol, cat) && at.parent in cat.ns.tree && IsLocated(vol.data, cat, at) && 0 !in newLeaf
    modifies vol`sectors, vol`data
    ensures vol.Valid() && vol.fat == old(vol.fat) && at.parent in cat.chains
    ensures Kept(old(vol.data), cat.chains, vol.data, cat.chains, {at.parent})
    ensures var slots := old(DirSlots(vol, cat, at.parent));
            && ok == (&& at.entry.Some? && at.leaf != [] && !occupied && Accepted(newLeaf)
                      && Found(slots, Listed(at.leaf)))
            && (ok ==> DirSlots(vol, cat, at.parent)
                       == slots[First(slots, Listed(at.leaf)) := at.entry.value.(name := ShortName(newLeaf))])
            && (ok && !IsRootAnswer(cat, at) ==>
                  SlotsRewritten(old(vol.data), vol.data, cat.chains[at.parent], Renamed(slots, at.leaf, newLeaf)))
    ensures !ok ==> vol.data == old(vol.data)
    ensures !ok || (!IsDotName(at.leaf) && IsText(newLeaf)) ==> IsVolume(vol, cat)
  {
    hide Consistent, Kept, DirectoryOk, FatRefines, DataRefines, ChainSlots, First, Judge, Listing, FindListed,
         GoodEntry, LinkOf, GoodSlots, IsShown, Accepted, ShortName, IsText, LinksOf, RootEntry;
    KeptAll(vol.fat, vol.data, cat, {at.parent});
    DirectoryKnown(vol.fat, vol.data, cat, at.parent);
    FindAgrees(DirSlots(vol, cat, at.parent), at.leaf);
    if at.entry.None? || occupied || at.leaf == [] {
      return false;
    }
    ghost var data0 := vol.data;
    var renamed;
    ok, renamed := SetName(at.entry.value, newLeaf);
    if !ok {
      return;
    }
    ok := RenameEntry(vol, at.parent, at.leaf, renamed, cat.chains[at.parent]);
    KeptOffDirectory(vol.fat, data0, cat, at.parent, vol.data, cat.chains, {at.parent});
    if ok && !IsDotName(at.leaf) && IsText(newLeaf) {
      RenamedKeeps(vol.fat, data0, cat, at.parent, at.leaf, newLeaf, vol.data);
    }
  }

  /** What stands in the way of a rename is nothing but a dot name. */
  lemma RenamedKeeps(fat: Fat, data0: seq<Bytes>, cat: Catalogue, d: nat, oldLeaf: Bytes, newLeaf: Bytes,
                     data: seq<Bytes>)
    requires Consistent(fat, data0, cat) && d in cat.ns.tree && Accepted(newLeaf) && IsText(newLeaf)
    requires !IsDotName(oldLeaf)
    requires Found(SlotsAt(data0, cat.chains, d), Listed(oldLeaf)) && d in cat.chains
    requires SlotsRewritten(data0, data, cat.chains[d], Renamed(SlotsAt(data0, cat.chains, d), oldLeaf, newLeaf))
    ensures Consistent(fat, data, cat) && Kept(data0, cat.chains, data, cat.chains, {d})
  {
    hide Consistent, Kept, DirectoryOk, ChainSlots, Judge, Listing, FindListed, GoodEntry, LinkOf, GoodSlots, IsShown,
         Accepted, ShortName, IsText, LinksOf;
    var slots := SlotsAt(data0, cat.chains, d);
    var k := First(slots, Listed(oldLeaf));
    DirectoryKnown(fat, data0, cat, d);
    FindAgrees(slots, oldLeaf);
    FoundName(slots, oldLeaf);
    SlotKnown(fat, data0, cat, d, k);
    RenamedFacts(slots[k], newLeaf);
    RenamedGood(slots, k, slots[k].(name := ShortName(newLeaf)));
    Resaved(fat, data0, cat, d, k, slots[k].(name := ShortName(newLeaf)), data);
  }

  /** Under the new name the entry owns what it owned: a dot entry, which owns nothing, would own a directory, and an
      entry whose new name begins with the mark of a deleted one owns nothing any more. */
  ghost predicate KeepsItsChain(e: DirEntry, newLeaf: Bytes) {
    if IsText(newLeaf) then !IsDotName(DisplayName(e.name)) else LinkOf(e) == Nothing
  }

  lemma LostNameFacts(e: DirEntry, newLeaf: Bytes)
    requires Accepted(newLeaf) && 0 !in newLeaf && !IsText(newLeaf)
    ensures var e' := e.(name := ShortName(newLeaf));
            IsFree(e') && !IsShown(e') && !IsEnd(e') && LinkOf(e') == Nothing && GoodEntry(e')
  {
    assert ShortName(newLeaf)[0] == UpperAll(Base(newLeaf))[0] == Upper(newLeaf[0]);
    FreeIsGood(e.(name := ShortName(newLeaf)));
  }

  /** After a rename the volume is consistent under some catalogue of the same chains, files and directories if and only
      if the entry owns what it owned. */
  lemma RenameKeepsIff(fat: Fat, data0: seq<Bytes>, cat: Catalogue, d: nat, oldLeaf: Bytes, newLeaf: Bytes,
                       data: seq<Bytes>)
    requires Consistent(fat, data0, cat) && d in cat.ns.tree && Accepted(newLeaf) && 0 !in newLeaf
    requires Found(SlotsAt(data0, cat.chains, d), Listed(oldLeaf)) && d in cat.chains
    requires SlotsRewritten(data0, data, cat.chains[d], Renamed(SlotsAt(data0, cat.chains, d), oldLeaf, newLeaf))
    ensures var slots := SlotsAt(data0, cat.chains, d);
            (exists cat' :: SameShape(cat, cat') && Consistent(fat, data, cat'))
            <==> KeepsItsChain(slots[First(slots, Listed(oldLeaf))], newLeaf)
  {
    hide Consistent, SlotsRewritten, Accepted, IsText, SlotsAt, ShortName, First, Judge, DisplayName, LinkOf;
    var slots := SlotsAt(data0, cat.chains, d);
    var k := First(slots, Listed(oldLeaf));
    FoundName(slots, oldLeaf);
    if KeepsItsChain(slots[k], newLeaf) {
      if IsText(newLeaf) {
        RenamedKeeps(fat, data0, cat, d, oldLeaf, newLeaf, data);
      } else {
        LostRenameKeeps(fat, data0, cat, d, oldLeaf, newLeaf, data);
      }
      assert SameShape(cat, cat);
    } else {
      forall cat' | SameShape(cat, cat') ensures !Consistent(fat, data, cat') {
        if IsText(newLeaf) {
          DotRenameBreaks(fat, data0, cat, d, oldLeaf, newLeaf, data, cat');
        } else {
          LostRenameBreaks(fat, data0, cat, d, oldLeaf, newLeaf, data, cat');
        }
      }
    }
  }

  lemma LostRenameKeeps(fat: Fat, data0: seq<Bytes>, cat: Catalogue, d: nat, oldLeaf: Bytes, newLeaf: Bytes,
                        data: seq<Bytes>)
    requires Consistent(fat, data0, cat) && d in cat.ns.tree && Accepted(newLeaf) && 0 !in newLeaf && !IsText(newLeaf)
    requires var slots := SlotsAt(data0, cat.chains, d);
             Found(slots, Listed(oldLeaf)) && LinkOf(slots[First(slots, Listed(oldLeaf))]) == Nothing
    requires d in cat.chains
    requires SlotsRewritten(data0, data, cat.chains[d], Renamed(SlotsAt(data0, cat.chains, d), oldLeaf, newLeaf))
    ensures Consistent(fat, data, cat)
  {
    hide Consistent, Kept, DirectoryOk, ChainSlots, Judge, Listing, FindListed, GoodEntry, LinkOf, IsShown, Accepted,
         ShortName, IsText, LinksOf, First, IsFree, IsEnd, WellEnded;
    var slots := SlotsAt(data0, cat.chains, d);
    var k := First(slots, Listed(oldLeaf));
    var e := slots[k].(name := ShortName(newLeaf));
    DirectoryKnown(fat, data0, cat, d);
    FindAgrees(slots, oldLeaf);
    LostNameFacts(slots[k], newLeaf);
    ReplaceSlot(slots, k, e);
    Resaved(fat, data0, cat, d, k, e, data);
  }

  /** The chain the entry owned is not owned by any entry. */
  lemma LostRenameBreaks(fat: Fat, data0: seq<Bytes>, cat: Catalogue, d: nat, oldLeaf: Bytes, newLeaf: Bytes,
                         data: seq<Bytes>, cat': Catalogue)
    requires Consistent(fat, data0, cat) && d in cat.ns.tree && Accepted(newLeaf) && 0 !in newLeaf && !IsText(newLeaf)
    requires var slots := SlotsAt(data0, cat.chains, d);
             Found(slots, Listed(oldLeaf)) && LinkOf(slots[First(slots, Listed(oldLeaf))]) != Nothing
    requires d in cat.chains && SameShape(cat, cat')
    requires SlotsRewritten(data0, data, cat.chains[d], Renamed(SlotsAt(data0, cat.chains, d), oldLeaf, newLeaf))
    ensures !Consistent(fat, data, cat')
  {
    hide Consistent, Kept, DirectoryOk, ChainSlots, Judge, Listing, FindListed, GoodSlots, IsShown, Accepted, GoodEntry,
         LinkOf, ShortName, IsText, LinksOf, ChainsOk, Namespace.Ok, First, IsFree, IsEnd;
    if Consistent(fat, data, cat') {
      var slots := SlotsAt(data0, cat.chains, d);
      var k := First(slots, Listed(oldLeaf));
      DirectoryKnown(fat, data0, cat, d);
      SlotKnown(fat, data0, cat, d, k);
      LostNameFacts(slots[k], newLeaf);
      var x := LinkOf(slots[k]).cluster;
      KeptOffDirectory(fat, data0, cat, d, data, cat.chains, {d});
      assert SlotsAt(data, cat'.chains, d) == Renamed(slots, oldLeaf, newLeaf);
      OwnersKnown(fat, data, cat');
      OwnerSlot(fat, data, cat', x);
      var home := cat'.ns.owner[x];
      OwnsCluster(LinkOf(SlotsAt(data, cat'.chains, home.dir)[home.slot]), x);
      if home.dir != d {
        KeptSlots(fat, data0, cat, data, cat.chains, {d}, home.dir);
      }
      SlotKnown(fat, data0, cat, home.dir, home.slot);
      assert false;
    }
  }

  lemma DotRenameBreaks(fat: Fat, data0: seq<Bytes>, cat: Catalogue, d: nat, oldLeaf: Bytes, newLeaf: Bytes,
                        data: seq<Bytes>, cat': Catalogue)
    requires Consistent(fat, data0, cat) && d in cat.ns.tree && Accepted(newLeaf) && IsText(newLeaf)
    requires IsDotName(oldLeaf)
    requires Found(SlotsAt(data0, cat.chains, d), Listed(oldLeaf)) && d in cat.chains
    requires SlotsRewritten(data0, data, cat.chains[d], Renamed(SlotsAt(data0, cat.chains, d), oldLeaf, newLeaf))
    requires SameShape(cat, cat')
    ensures !Consistent(fat, data, cat')
  {
    hide Consistent, Kept, DirectoryOk, ChainSlots, Judge, Listing, FindListed, GoodSlots, IsShown, Accepted,
         GoodEntry, LinkOf, ShortName, IsText, LinksOf, ChainsOk;
    if Consistent(fat, data, cat') {
      var slots := SlotsAt(data0, cat.chains, d);
      var k := First(slots, Listed(oldLeaf));
      DirectoryKnown(fat, data0, cat, d);
      FindAgrees(slots, oldLeaf);
      FoundName(slots, oldLeaf);
      SlotKnown(fat, data0, cat, d, k);
      DotEntryRenamed(slots[k], newLeaf);
      var x := slots[k].Cluster();
      KeptOffDirectory(fat, data0, cat, d, data, cat.chains, {d});
      assert SlotsAt(data, cat'.chains, d) == Renamed(slots, oldLeaf, newLeaf);
      SlotKnown(fat, data, cat', d, k);
      OwnersKnown(fat, data0, cat);
      OwnersKnown(fat, data, cat');
      assert x in cat.ns.owner && cat.ns.OwnerOk(x);
      var home := cat.ns.owner[x];
      DirectoryKnown(fat, data0, cat, home.dir);
      SlotKnown(fat, data0, cat, home.dir, home.slot);
      if home.dir != d {
        KeptSlots(fat, data0, cat, data, cat.chains, {d}, home.dir);
      }
      SlotKnown(fat, data, cat', home.dir, home.slot);
      assert false;
    }
  }

  /** A dot entry owns nothing; under another name it owns the directory it points to. */
  lemma DotEntryRenamed(e: DirEntry, newLeaf: Bytes)
    requires IsShown(e) && GoodEntry(e) && IsDotName(DisplayName(e.name)) && Accepted(newLeaf) && IsText(newLeaf)
    ensures LinkOf(e) == Nothing && LinkOf(e.(name := ShortName(newLeaf))) == OwnsDirectory(e.Cluster())
  {
    ShortNameFacts(newLeaf);
  }

  /** The slots after a renaming. */
  ghost function Renamed(slots: Directory, oldLeaf: Bytes, newLeaf: Bytes): Directory
    requires Accepted(newLeaf)
  {
    var k := First(slots, Listed(oldLeaf));
    if k < |slots| then slots[k := slots[k].(name := ShortName(newLeaf))] else slots
  }

  // ----- moving -----

  /** The entry has moved between the slot sequences of two directories. */
  ghost predicate FileMoved(data0: seq<Bytes>, cat: Catalogue, source: nat, destination: nat, oldLeaf: Bytes,
                            e: DirEntry, per: Positive, data: seq<Bytes>, cat': Catalogue) {
    && Kept(data0, cat.chains, data, cat'.chains, {source, destination})
    && cat'.chains.Keys == cat.chains.Keys && cat'.ns.tree.Keys == cat.ns.tree.Keys && cat'.ns.root == cat.ns.root
    && SlotsAt(data, cat'.chains, source) == Unlisted(SlotsAt(data0, cat.chains, source), oldLeaf)
    && SlotsAt(data, cat'.chains, destination) == Inserted(SlotsAt(data0, cat.chains, destination), e, per)
    && (var k := First(SlotsAt(data0, cat.chains, destination), FreeSlot);
        cat'.ns.owner == OwnersMoved(cat.ns.owner, LinkOf(e), destination, k))
  }

  /** Who owns what, once the entry that owned `link` has moved to slot `k2` of `d2`. */
  ghost function OwnersMoved(owner: map<nat, Home>, link: Link, d2: nat, k2: nat): map<nat, Home> {
    if link.Nothing? then owner else owner[link.cluster := Home(d2, k2)]
  }

  lemma MovedLinks(ns: Namespace, d: nat, k: nat, links: Links, d2: nat, k2: nat, links2: Links, link: Link)
    returns (ns': Namespace)
    requires ns.Ok() && d in ns.tree && d2 in ns.tree && d != d2
    requires k < |ns.tree[d]| && SameBut(ns.tree[d], links, k) && SameBut(ns.tree[d2], links2, k2)
    requires ns.tree[d][k] == link && links[k].Nothing?
    requires Unowned(ns.tree[d2], k2) && links2[k2] == link
    ensures ns'.Ok()
    ensures ns' == Namespace(ns.root, ns.tree[d2 := links2][d := links], OwnersMoved(ns.owner, link, d2, k2))
    ensures ns'.owner.Keys == ns.owner.Keys
  {
    hide Namespace.Ok, SameBut, Unowned;
    if link.Nothing? {
      var ns1 := ns.(tree := ns.tree[d2 := links2]);
      SlotStaysUnowned(ns, d2, k2, links2, ns1);
      ns' := ns1.(tree := ns1.tree[d := links]);
      NothingIsUnowned(ns.tree[d], k);
      SlotStaysUnowned(ns1, d, k, links, ns');
    } else {
      var c := link.cluster;
      LinkOwned(ns, d, k, c);
      ns' := Namespace(ns.root, ns.tree[d2 := links2][d := links], ns.owner[c := Home(d2, k2)]);
      SlotMoves(ns, d, k, links, d2, k2, links2, c, ns');
    }
  }

  lemma NothingIsUnowned(links: Links, k: nat)
    requires k < |links| && links[k].Nothing?
    ensures Unowned(links, k)
  {
  }

  lemma LinkOwned(ns: Namespace, d: nat, k: nat, c: nat)
    requires ns.Ok() && d in ns.tree && k < |ns.tree[d]| && ns.tree[d][k].Owns(c)
    ensures c in ns.owner
  {
    assert ns.LinkOk(d, k);
  }

  /** The entry listed under `oldLeaf` in `source` has become the entry `e` of `destination`. */
  ghost predicate EntryTransferred(fat0: Fat, data0: seq<Bytes>, cat: Catalogue, source: nat, destination: nat,
                                   oldLeaf: Bytes, e: DirEntry, per: Positive,
                                   fat: Fat, data: seq<Bytes>, cat': Catalogue) {
    && source in cat.chains && destination in cat.chains && |data0| == |fat0| == |data|
    && InData(data0, cat.chains[source]) && InData(data0, cat.chains[destination]) && InData(data, cat.chains[source])
    && cat.chains[destination] != []
    && var slots, into := SlotsAt(data0, cat.chains, source), SlotsAt(data0, cat.chains, destination);
       var d' := ChainAfterCreate(fat0, into, cat.chains[destination]);
       && HasRoom(fat0, into)
       && EntryMoved(fat0, data0, cat.chains[source], cat.chains[destination], e, per, fat, data, d', true)
       && ChainSlots(data, cat.chains[source]) == Unlisted(slots, oldLeaf)
       && cat' == Transferred(cat, source, Unlisted(slots, oldLeaf), destination, d', Inserted(into, e, per), LinkOf(e),
                              First(into, FreeSlot))
  }

  ghost function Transferred(cat: Catalogue, source: nat, left: Directory, destination: nat, d': seq<nat>,
                             filled: Directory, link: Link, k2: nat): Catalogue {
    Catalogue(cat.chains[destination := d'],
              Namespace(cat.ns.root, cat.ns.tree[destination := LinksOf(filled)][source := LinksOf(left)],
                        OwnersMoved(cat.ns.owner, link, destination, k2)))
  }

  lemma TransferredIs(cat: Catalogue, source: nat, left: Directory, destination: nat, d': seq<nat>,
                      filled: Directory, link: Link, k2: nat)
    ensures Transferred(cat, source, left, destination, d', filled, link, k2)
            == Catalogue(cat.chains[destination := d'],
                         Namespace(cat.ns.root, cat.ns.tree[destination := LinksOf(filled)][source := LinksOf(left)],
                                   OwnersMoved(cat.ns.owner, link, destination, k2)))
  {
  }

  lemma TransferredParts(fat0: Fat, data0: seq<Bytes>, cat: Catalogue, source: nat, destination: nat,
                         oldLeaf: Bytes, e: DirEntry, per: Positive, fat: Fat, data: seq<Bytes>, cat': Catalogue)
    requires EntryTransferred(fat0, data0, cat, source, destination, oldLeaf, e, per, fat, data, cat')
    ensures source in cat.chains && destination in cat.chains && |data0| == |fat0| == |data|
    ensures InData(data0, cat.chains[source]) && InData(data0, cat.chains[destination])
    ensures InData(data, cat.chains[source])
    ensures var slots, into := SlotsAt(data0, cat.chains, source), SlotsAt(data0, cat.chains, destination);
            var d' := ChainAfterCreate(fat0, into, cat.chains[destination]);
            && slots == ChainSlots(data0, cat.chains[source]) && into == ChainSlots(data0, cat.chains[destination])
            && HasRoom(fat0, into)
            && EntryMoved(fat0, data0, cat.chains[source], cat.chains[destination], e, per, fat, data, d', true)
            && ChainSlots(data, cat.chains[source]) == Unlisted(slots, oldLeaf)
            && cat' == Transferred(cat, source, Unlisted(slots, oldLeaf), destination, d', Inserted(into, e, per),
                                   LinkOf(e),
                                   First(into, FreeSlot))
  {
  }

  /** Its chain is the same, and now owned by the slot the entry went to. */
  lemma TransferKeeps(fat0: Fat, data0: seq<Bytes>, cat: Catalogue, source: nat, destination: nat, oldLeaf: Bytes,
                      e: DirEntry, per: Positive, fat: Fat, data: seq<Bytes>, cat': Catalogue)
    requires Consistent(fat0, data0, cat) && source in cat.ns.tree && destination in cat.ns.tree
    requires source != destination
    requires var slots := SlotsAt(data0, cat.chains, source);
             && Found(slots, Listed(oldLeaf)) && IsShown(slots[First(slots, Listed(oldLeaf))])
             && LinkOf(slots[First(slots, Listed(oldLeaf))]) == LinkOf(e)
    requires !IsEnd(e) && GoodEntry(e)
    requires EntryTransferred(fat0, data0, cat, source, destination, oldLeaf, e, per, fat, data, cat')
    ensures Consistent(fat, data, cat') && FileMoved(data0, cat, source, destination, oldLeaf, e, per, data, cat')
    ensures cat'.ns.root == cat.ns.root
  {
    hide *;
    TransferredParts(fat0, data0, cat, source, destination, oldLeaf, e, per, fat, data, cat');
    ConsistentParts(fat0, data0, cat);
    DirectoryKnown(fat0, data0, cat, source);
    DirectoryKnown(fat0, data0, cat, destination);
    var slots, into := SlotsAt(data0, cat.chains, source), SlotsAt(data0, cat.chains, destination);
    var d' := ChainAfterCreate(fat0, into, cat.chains[destination]);
    var k, k2 := First(slots, Listed(oldLeaf)), First(into, FreeSlot);
    FoundInside(slots, oldLeaf);
    SlotKnown(fat0, data0, cat, source, k);
    TombstoneFacts(slots, k);
    InsertedGood(into, e, per);
    MovedShape(fat0, data0, cat.chains[source], cat.chains[destination], e, per, fat, data, d');
    var left, filled := Unlisted(slots, oldLeaf), Inserted(into, e, per);
    TransferredIs(cat, source, left, destination, d', filled, LinkOf(e), k2);
    var ns' := MovedLinks(cat.ns, source, k, LinksOf(left), destination, k2, LinksOf(filled), LinkOf(e));
    TransferRebuilt(fat0, data0, cat, source, destination, fat, data, d', left, filled,
                    Catalogue(cat.chains[destination := d'], ns'));
    MovedSummary(data0, cat, source, destination, oldLeaf, e, per, data, cat');
  }

  lemma TransferRebuilt(fat0: Fat, data0: seq<Bytes>, cat: Catalogue, source: nat, destination: nat, fat: Fat,
                        data: seq<Bytes>, d': seq<nat>, left: Directory, filled: Directory, cat': Catalogue)
    requires Consistent(fat0, data0, cat) && source in cat.ns.tree && destination in cat.ns.tree
    requires source != destination
    requires source in cat.chains && destination in cat.chains
    requires |fat| == |data| == |data0| && d' != [] && d'[0] == destination
    requires Grown(fat0, cat.chains[destination], fat, d')
    requires InData(data, cat.chains[source]) && InData(data, d')
    requires ChainSlots(data, cat.chains[source]) == left && ChainSlots(data, d') == filled
    requires GoodSlots(left) && GoodSlots(filled)
    requires forall c: nat :: c < |data| && c !in d' && c !in cat.chains[source] ==> data[c] == data0[c]
    requires cat'.ns.Ok() && cat'.ns.root == cat.ns.root && cat'.ns.owner.Keys == cat.ns.owner.Keys
    requires cat'.chains == cat.chains[destination := d']
    requires cat'.ns.tree == cat.ns.tree[destination := LinksOf(filled)][source := LinksOf(left)]
    ensures Consistent(fat, data, cat') && Kept(data0, cat.chains, data, cat'.chains, {source, destination})
    ensures SlotsAt(data, cat'.chains, source) == left && SlotsAt(data, cat'.chains, destination) == filled
    ensures cat'.chains.Keys == cat.chains.Keys && cat'.ns.tree.Keys == cat.ns.tree.Keys
  {
    hide *;
    ConsistentParts(fat0, data0, cat);
    KeptOutside(fat0, data0, cat.chains, destination, d', fat, data, source);
    assert cat'.chains[source] == cat.chains[source] && cat'.chains[destination] == d';
    SlotsMakeDirectory(data, cat'.chains, source, left);
    SlotsMakeDirectory(data, cat'.chains, destination, filled);
    assert {destination, source} == {source, destination};
    Rebuilt(fat0, data0, cat, fat, data, cat', {source, destination});
  }

  lemma FoundInside(slots: Directory, oldLeaf: Bytes)
    requires Found(slots, Listed(oldLeaf))
    ensures var k := First(slots, Listed(oldLeaf));
            k < |slots| && Unlisted(slots, oldLeaf) == slots[k := Tombstone(slots[k])]
  {
  }

  lemma MovedShape(fat0: Fat, data0: seq<Bytes>, s: seq<nat>, d: seq<nat>, e: DirEntry, per: Positive,
                   fat: Fat, data: seq<Bytes>, d': seq<nat>)
    requires 2 <= |fat0| < CLUSTER_LAST && IsChain(fat0, d) && |fat0| == |data0| && InData(data0, d) && InData(data0, s)
    requires EntryMoved(fat0, data0, s, d, e, per, fat, data, d', true)
    requires HasRoom(fat0, ChainSlots(data0, d)) && d' == ChainAfterCreate(fat0, ChainSlots(data0, d), d)
    ensures |fat| == |data| == |data0| && Grown(fat0, d, fat, d') && d' != [] && d'[0] == d[0]
    ensures InData(data, d') && InData(data, s) && ChainSlots(data, d') == Inserted(ChainSlots(data0, d), e, per)
    ensures forall c: nat :: c < |data| && c !in d' && c !in s ==> data[c] == data0[c]
  {
    hide ChainSlots;
    CreateGrows(fat0, ChainSlots(data0, d), d, fat);
  }

  lemma MovedSummary(data0: seq<Bytes>, cat: Catalogue, source: nat, destination: nat, oldLeaf: Bytes, e: DirEntry,
                     per: Positive, data: seq<Bytes>, cat': Catalogue)
    requires Kept(data0, cat.chains, data, cat'.chains, {source, destination})
    requires cat'.chains.Keys == cat.chains.Keys && cat'.ns.tree.Keys == cat.ns.tree.Keys && cat'.ns.root == cat.ns.root
    requires SlotsAt(data, cat'.chains, source) == Unlisted(SlotsAt(data0, cat.chains, source), oldLeaf)
    requires SlotsAt(data, cat'.chains, destination) == Inserted(SlotsAt(data0, cat.chains, destination), e, per)
    requires var k := First(SlotsAt(data0, cat.chains, destination), FreeSlot);
             cat'.ns.owner == OwnersMoved(cat.ns.owner, LinkOf(e), destination, k)
    ensures FileMoved(data0, cat, source, destination, oldLeaf, e, per, data, cat')
  {
    hide Kept, SlotsAt, Unlisted, Inserted, LinkOf, First, OwnersMoved;
  }

  /** The entry has gone into the destination, and as there was nothing to delete in `source` the first entry listed
      under the new name has been taken out of the destination again. */
  ghost predicate EntryTakenBack(fat0: Fat, data0: seq<Bytes>, cat: Catalogue, source: nat, destination: nat,
                                 e: DirEntry, per: Positive, fat: Fat, data: seq<Bytes>, cat': Catalogue) {
    && source in cat.chains && destination in cat.chains && |data0| == |fat0| == |data|
    && InData(data0, cat.chains[source]) && InData(data0, cat.chains[destination]) && InData(data, cat.chains[source])
    && cat.chains[destination] != []
    && var into := SlotsAt(data0, cat.chains, destination);
       var d' := ChainAfterCreate(fat0, into, cat.chains[destination]);
       && HasRoom(fat0, into)
       && EntryMoved(fat0, data0, cat.chains[source], cat.chains[destination], e, per, fat, data, d', false)
       && ChainSlots(data, cat.chains[source]) == SlotsAt(data0, cat.chains, source)
       && cat' == WithSlots(cat, destination, d', Unlisted(Inserted(into, e, per), DisplayName(e.name)))
  }

  /** Moving a file or a directory to another directory, as `file_move` does it. The entry has been located by the old
      path; `occupied` says whether the new path led to an entry, and `destination` is where the entry goes. */
  method MoveFile(vol: Volume, at: Located, destination: nat, newLeaf: Bytes, occupied: bool, ghost cat: Catalogue)
    returns (ok: bool, ghost cat': Catalogue)
    requires IsVolume(vol, cat) && at.parent in cat.ns.tree && destination in cat.ns.tree && at.parent != destination
    requires IsLocated(vol.data, cat, at) && 0 !in newLeaf
    modifies vol`sectors, vol`fat, vol`data
    ensures vol.Valid()
    ensures var slots, into := old(DirSlots(vol, cat, at.parent)), old(DirSlots(vol, cat, destination));
            var goes := && at.entry.Some? && at.leaf != [] && !occupied && Accepted(newLeaf)
                        && HasRoom(old(vol.fat), into);
            && ok == (goes && Found(slots, Listed(at.leaf)))
            && (ok ==> EntryTransferred(old(vol.fat), old(vol.data), cat, at.parent, destination, at.leaf,
                                        at.entry.value.(name := ShortName(newLeaf)), vol.geometry.SlotsPerCluster(),
                                        vol.fat, vol.data, cat'))
            && (goes && !ok ==> EntryTakenBack(old(vol.fat), old(vol.data), cat, at.parent, destination,
                                               at.entry.value.(name := ShortName(newLeaf)),
                                               vol.geometry.SlotsPerCluster(), vol.fat, vol.data, cat'))
            && (!goes ==> vol.fat == old(vol.fat) && vol.data == old(vol.data) && cat' == cat)
            && (goes && !ok ==> IsRootAnswer(cat, at))
            && (!goes || (ok && !IsDotName(at.leaf) && IsText(newLeaf)) ==> IsVolume(vol, cat'))
    ensures ok && !IsDotName(at.leaf) && IsText(newLeaf) ==>
              FileMoved(old(vol.data), cat, at.parent, destination, at.leaf,
                        at.entry.value.(name := ShortName(newLeaf)), vol.geometry.SlotsPerCluster(), vol.data, cat')
  {
    hide Consistent, Kept, DirectoryOk, FatRefines, DataRefines, ChainSlots, First, Judge, Listing, FindListed,
         GoodEntry, LinkOf, GoodSlots, IsShown, Accepted, ShortName, IsText, LinksOf, FileMoved, EntryMoved,
         ChainAfterCreate, Unlisted, Transferred, RootEntry, WithSlots;
    cat' := cat;
    ghost var fat0, data0 := vol.fat, vol.data;
    TwoDirectories(fat0, data0, cat, at.parent, destination);
    DirectoryKnown(fat0, data0, cat, at.parent);
    FindAgrees(DirSlots(vol, cat, at.parent), at.leaf);
    if at.entry.None? || occupied || at.leaf == [] {
      return false, cat';
    }
    var renamed;
    ok, renamed := SetName(at.entry.value, newLeaf);
    if !ok {
      return;
    }
    ghost var slots, into := ChainSlots(data0, cat.chains[at.parent]), ChainSlots(data0, cat.chains[destination]);
    ghost var d', per := ChainAfterCreate(fat0, into, cat.chains[destination]), vol.geometry.SlotsPerCluster();
    ok := MoveEntry(vol, at.parent, destination, at.leaf, renamed, cat.chains[at.parent], cat.chains[destination]);
    if ok {
      cat' := Transferred(cat, at.parent, Unlisted(slots, at.leaf), destination, d', Inserted(into, renamed, per),
                          LinkOf(renamed), First(into, FreeSlot));
      if !IsDotName(at.leaf) && IsText(newLeaf) {
        MovedFacts(fat0, data0, cat, at, newLeaf);
        TransferKeeps(fat0, data0, cat, at.parent, destination, at.leaf, renamed, per, vol.fat, vol.data, cat');
      }
    } else if HasRoom(fat0, into) {
      NothingUnlisted(slots, at.leaf);
      cat' := WithSlots(cat, destination, d', Unlisted(Inserted(into, renamed, per), DisplayName(renamed.name)));
    }
  }

  lemma NothingUnlisted(slots: Directory, name: Bytes)
    requires !Found(slots, Listed(name))
    ensures Unlisted(slots, name) == slots
  {
  }

  /** What is known of a listed entry that gets another text as its name. */
  lemma MovedFacts(fat: Fat, data: seq<Bytes>, cat: Catalogue, at: Located, newLeaf: Bytes)
    requires Consistent(fat, data, cat) && at.parent in cat.ns.tree && at.entry.Some? && !IsDotName(at.leaf)
    requires at.entry == EntryIn(data, cat, at.parent, at.leaf) && Accepted(newLeaf) && IsText(newLeaf)
    ensures var slots, e := SlotsAt(data, cat.chains, at.parent), at.entry.value.(name := ShortName(newLeaf));
            && Found(slots, Listed(at.leaf)) && IsShown(slots[First(slots, Listed(at.leaf))])
            && LinkOf(slots[First(slots, Listed(at.leaf))]) == LinkOf(e) && IsShown(e) && !IsEnd(e) && GoodEntry(e)
  {
    hide Consistent, DirectoryOk, Judge, Listing, FindListed, GoodEntry, LinkOf, GoodSlots, IsShown, Accepted,
         ShortName, IsText, First, ChainSlots, ChainOk;
    var slots := SlotsAt(data, cat.chains, at.parent);
    DirectoryKnown(fat, data, cat, at.parent);
    FindAgrees(slots, at.leaf);
    FoundName(slots, at.leaf);
    SlotKnown(fat, data, cat, at.parent, First(slots, Listed(at.leaf)));
    RenamedFacts(at.entry.value, newLeaf);
  }

  /** After a move the volume is consistent under some catalogue of the same chains, files and directories if and only
      if the entry owns what it owned. */
  lemma MoveKeepsIff(fat0: Fat, data0: seq<Bytes>, cat: Catalogue, source: nat, destination: nat, oldLeaf: Bytes,
                     newLeaf: Bytes, per: Positive, fat: Fat, data: seq<Bytes>, cat1: Catalogue)
    requires Consistent(fat0, data0, cat) && source in cat.ns.tree && destination in cat.ns.tree
    requires source != destination
    requires Accepted(newLeaf) && 0 !in newLeaf && Found(SlotsAt(data0, cat.chains, source), Listed(oldLeaf))
    requires var slots := SlotsAt(data0, cat.chains, source);
             EntryTransferred(fat0, data0, cat, source, destination, oldLeaf,
                              slots[First(slots, Listed(oldLeaf))].(name := ShortName(newLeaf)), per, fat, data, cat1)
    ensures var slots := SlotsAt(data0, cat.chains, source);
            (exists cat' :: SameShape(cat1, cat') && Consistent(fat, data, cat'))
            <==> KeepsItsChain(slots[First(slots, Listed(oldLeaf))], newLeaf)
  {
    hide Consistent, Accepted, IsText, SlotsAt, ChainSlots, EntryTransferred, ShortName, DisplayName, Listing,
         FindListed, LinkOf, GoodSlots, DirectoryOk, ChainsOk, IsShown, GoodEntry, Judge, IsFree, IsEnd, First;
    var slots := SlotsAt(data0, cat.chains, source);
    var k := First(slots, Listed(oldLeaf));
    DirectoryKnown(fat0, data0, cat, source);
    FindAgrees(slots, oldLeaf);
    FoundName(slots, oldLeaf);
    SlotKnown(fat0, data0, cat, source, k);
    var e := slots[k].(name := ShortName(newLeaf));
    if KeepsItsChain(slots[k], newLeaf) {
      if IsText(newLeaf) {
        RenamedFacts(slots[k], newLeaf);
      } else {
        LostNameFacts(slots[k], newLeaf);
      }
      TransferKeeps(fat0, data0, cat, source, destination, oldLeaf, e, per, fat, data, cat1);
      assert SameShape(cat1, cat1);
    } else {
      forall cat' | SameShape(cat1, cat') ensures !Consistent(fat, data, cat') {
        if IsText(newLeaf) {
          DotEntryRenamed(slots[k], newLeaf);
          DotEntryShown(slots[k], newLeaf);
          DotMoveBreaks(fat0, data0, cat, source, destination, oldLeaf, e, per, fat, data, cat1, cat');
        } else {
          LostNameFacts(slots[k], newLeaf);
          LostMoveBreaks(fat0, data0, cat, source, destination, oldLeaf, e, per, fat, data, cat1, cat');
        }
      }
    }
  }

  /** The chain the entry owned is not owned by any entry. */
  lemma LostMoveBreaks(fat0: Fat, data0: seq<Bytes>, cat: Catalogue, source: nat, destination: nat, oldLeaf: Bytes,
                       e: DirEntry, per: Positive, fat: Fat, data: seq<Bytes>, cat1: Catalogue, cat': Catalogue)
    requires Consistent(fat0, data0, cat) && source in cat.ns.tree && destination in cat.ns.tree
    requires source != destination
    requires var slots := SlotsAt(data0, cat.chains, source);
             && Found(slots, Listed(oldLeaf)) && LinkOf(slots[First(slots, Listed(oldLeaf))]) != Nothing
             && IsShown(slots[First(slots, Listed(oldLeaf))])
    requires LinkOf(e) == Nothing
    requires EntryTransferred(fat0, data0, cat, source, destination, oldLeaf, e, per, fat, data, cat1)
    requires SameShape(cat1, cat')
    ensures !Consistent(fat, data, cat')
  {
    hide *;
    if Consistent(fat, data, cat') {
      SameShapeParts(cat1, cat');
      TransferSlots(fat0, data0, cat, source, destination, oldLeaf, e, per, fat, data, cat1);
      var slots, into := SlotsAt(data0, cat.chains, source), SlotsAt(data0, cat.chains, destination);
      var k, k2 := First(slots, Listed(oldLeaf)), First(into, FreeSlot);
      FoundInside(slots, oldLeaf);
      var x := LinkOf(slots[k]).cluster;
      SlotKnown(fat0, data0, cat, source, k);
      InsertedSlots(into, e, per);
      OwnersKnown(fat, data, cat');
      OwnerSlot(fat, data, cat', x);
      var home := cat'.ns.owner[x];
      OwnsCluster(LinkOf(SlotsAt(data, cat'.chains, home.dir)[home.slot]), x);
      FreeIsGood(EMPTY_SLOT);
      DirectoryKnown(fat0, data0, cat, source);
      TombstoneFacts(slots, k);
      SlotKnown(fat0, data0, cat, home.dir, home.slot);
      assert false;
    }
  }

  /** What the entry made up for the root leaves behind when it is moved out of the root as `..`: a catalogue of the
      same chains, files and directories goes on making the volume consistent exactly if the entry taken out again is
      the one put in. Otherwise an entry owns the root. */
  lemma TakenBackKeepsIff(fat0: Fat, data0: seq<Bytes>, cat: Catalogue, destination: nat, newLeaf: Bytes, per: Positive,
                          fat: Fat, data: seq<Bytes>, cat1: Catalogue)
    requires Consistent(fat0, data0, cat) && destination in cat.ns.tree && destination != cat.ns.root < TWO_32
    requires Accepted(newLeaf) && 0 !in newLeaf
    requires EntryTakenBack(fat0, data0, cat, cat.ns.root, destination,
                            RootEntry(cat.ns.root).(name := ShortName(newLeaf)), per, fat, data, cat1)
    ensures var into := SlotsAt(data0, cat.chains, destination);
            (exists cat' :: SameShape(cat1, cat') && Consistent(fat, data, cat'))
            <==> FindListed(Listing(into[..First(into, FreeSlot)]), DisplayName(ShortName(newLeaf))) == None
  {
    hide Consistent, Accepted, IsText, SlotsAt, ChainSlots, EntryTakenBack, ShortName, DisplayName, Listing, RootEntry,
         FindListed, LinkOf, GoodSlots, DirectoryOk, ChainsOk, IsShown, GoodEntry, Judge, First, SameShape;
    var into, name := SlotsAt(data0, cat.chains, destination), DisplayName(ShortName(newLeaf));
    var e := RootEntry(cat.ns.root).(name := ShortName(newLeaf));
    ConsistentParts(fat0, data0, cat);
    NoChainAtZero(fat0, data0, cat);
    DirectoryKnown(fat0, data0, cat, destination);
    if IsText(newLeaf) {
      RootRenamed(cat.ns.root, newLeaf);
      TakenOut(into, e, per);
    } else {
      LostNameFacts(RootEntry(cat.ns.root), newLeaf);
      LostNotFound(into, e, per);
    }
    if FindListed(Listing(into[..First(into, FreeSlot)]), name) == None {
      TakenBackKeeps(fat0, data0, cat, destination, e, if IsText(newLeaf) then Tombstone(e) else e, per, fat, data,
                     cat1);
      SameShapeItself(cat1);
    } else {
      forall cat' | SameShape(cat1, cat') ensures !Consistent(fat, data, cat') {
        RootOwnedBreaks(fat0, data0, cat, destination, e, per, fat, data, cat1, cat');
      }
    }
  }

  lemma RootRenamed(root: nat, newLeaf: Bytes)
    requires root < TWO_32 && root != 0 && Accepted(newLeaf) && IsText(newLeaf)
    ensures var e := RootEntry(root).(name := ShortName(newLeaf));
            IsShown(e) && !IsEnd(e) && GoodEntry(e) && LinkOf(e) == OwnsDirectory(root)
  {
    hide ShortName, Accepted, IsText;
    assert RootEntry(root).(name := ShortName(newLeaf)) == NewEntry(ShortName(newLeaf), ATTR_DIRECTORY, root);
    NewEntryFacts(newLeaf, ATTR_DIRECTORY, root);
  }

  /** An entry put in and the first of its name taken out. */
  lemma TakenOut(into: Directory, e: DirEntry, per: Positive)
    requires GoodSlots(into) && IsShown(e)
    ensures var k, slots := First(into, FreeSlot), Unlisted(Inserted(into, e, per), DisplayName(e.name));
            && k < |slots|
            && (if FindListed(Listing(into[..k]), DisplayName(e.name)) == None
                then slots == Inserted(into, Tombstone(e), per) else slots[k] == e)
            && IsFree(Tombstone(e)) && !IsEnd(Tombstone(e))
  {
    hide Listing, FindListed, DisplayName, GoodSlots, WellEnded, Inserted;
    var k, slots, name := First(into, FreeSlot), Inserted(into, e, per), DisplayName(e.name);
    InsertedSlots(into, e, per);
    LiveBeforeFree(into);
    GoodSlotsArePlain(into);
    assert PlainVolumeBits(into[..k]);
    FindAgrees(into[..k], name);
    ShownIsJudged(e, Listed(name));
    var f := First(into[..k], Listed(name));
    assert forall j :: 0 <= j < k ==> slots[j] == into[..k][j];
    FirstUnique(slots, Listed(name), f);
    InsertedLost(into, e, per);
    TombstoneIsFree(e);
  }

  /** An entry that is lost at once is not found, nor is another of its name. */
  lemma LostNotFound(into: Directory, e: DirEntry, per: Positive)
    requires GoodSlots(into) && e.name[0] == DELETED && GoodEntry(e)
    ensures Unlisted(Inserted(into, e, per), DisplayName(e.name)) == Inserted(into, e, per)
    ensures FindListed(Listing(into[..First(into, FreeSlot)]), DisplayName(e.name)) == None
    ensures IsFree(e) && !IsEnd(e) && IsFree(Tombstone(e)) && !IsEnd(Tombstone(e))
  {
    hide Listing, FindListed, Inserted, GoodSlots, WellEnded, GoodEntry;
    var slots, name, k := Inserted(into, e, per), DisplayName(e.name), First(into, FreeSlot);
    NamesApart(e.name);
    InsertedGood(into, e, per);
    if Found(slots, Listed(name)) {
      FoundName(slots, name);
      assert false;
    }
    GoodSlotsArePlain(into);
    assert PlainVolumeBits(into[..k]);
    FindAgrees(into[..k], name);
    if Found(into[..k], Listed(name)) {
      FoundName(into[..k], name);
      assert false;
    }
  }

  /** No live name is listed as one that begins with the mark of a deleted entry. */
  lemma NamesApart(name: RawName)
    requires name[0] == DELETED
    ensures forall other: RawName :: other[0] != DELETED ==> DisplayName(other) != DisplayName(name)
  {
    forall other: RawName | other[0] != DELETED ensures DisplayName(other) != DisplayName(name) {
      DisplayBegins(name);
      DisplayBegins(other);
    }
  }

  lemma DisplayBegins(name: RawName)
    ensures name[0] == DELETED ==> DisplayName(name) != [] && DisplayName(name)[0] == DELETED
    ensures name[0] != DELETED && DisplayName(name) != [] ==> DisplayName(name)[0] != DELETED
  {
  }

  lemma LiveBeforeFree(into: Directory)
    ensures forall j :: 0 <= j < First(into, FreeSlot) ==> !IsFree(into[j])
  {
  }

  lemma InsertedLost(into: Directory, e: DirEntry, per: Positive)
    ensures var k := First(into, FreeSlot);
            && k < |Inserted(into, e, per)|
            && Inserted(into, e, per)[k := Tombstone(e)] == Inserted(into, Tombstone(e), per)
  {
    hide First;
  }

  lemma DotEntryShown(e: DirEntry, newLeaf: Bytes)
    requires IsShown(e) && GoodEntry(e) && IsDotName(DisplayName(e.name)) && Accepted(newLeaf) && IsText(newLeaf)
    ensures var e' := e.(name := ShortName(newLeaf)); IsShown(e') && GoodEntry(e')
  {
    ShortNameFacts(newLeaf);
  }

  lemma DotMoveBreaks(fat0: Fat, data0: seq<Bytes>, cat: Catalogue, source: nat, destination: nat, oldLeaf: Bytes,
                      e: DirEntry, per: Positive, fat: Fat, data: seq<Bytes>, cat1: Catalogue, cat': Catalogue)
    requires Consistent(fat0, data0, cat) && source in cat.ns.tree && destination in cat.ns.tree
    requires source != destination
    requires var slots := SlotsAt(data0, cat.chains, source);
             && Found(slots, Listed(oldLeaf)) && LinkOf(slots[First(slots, Listed(oldLeaf))]) == Nothing
             && IsShown(slots[First(slots, Listed(oldLeaf))])
    requires LinkOf(e).OwnsDirectory? && IsShown(e) && GoodEntry(e)
    requires EntryTransferred(fat0, data0, cat, source, destination, oldLeaf, e, per, fat, data, cat1)
    requires SameShape(cat1, cat')
    ensures !Consistent(fat, data, cat')
  {
    hide *;
    if Consistent(fat, data, cat') {
      SameShapeParts(cat1, cat');
      TransferSlots(fat0, data0, cat, source, destination, oldLeaf, e, per, fat, data, cat1);
      var slots, into := SlotsAt(data0, cat.chains, source), SlotsAt(data0, cat.chains, destination);
      var k, k2, x := First(slots, Listed(oldLeaf)), First(into, FreeSlot), LinkOf(e).cluster;
      InsertedSlots(into, e, per);
      SlotKnown(fat, data, cat', destination, k2);
      OwnersKnown(fat0, data0, cat);
      OwnersKnown(fat, data, cat');
      OwnerSlot(fat0, data0, cat, x);
      var home := cat.ns.owner[x];
      OwnsCluster(LinkOf(SlotsAt(data0, cat.chains, home.dir)[home.slot]), x);
      FoundInside(slots, oldLeaf);
      if k2 < |into| {
        FreeIsGood(into[k2]);
      }
      SlotKnown(fat, data, cat', home.dir, home.slot);
      assert false;
    }
  }

  /** The slots of all directories after a transfer. */
  lemma TransferSlots(fat0: Fat, data0: seq<Bytes>, cat: Catalogue, source: nat, destination: nat, oldLeaf: Bytes,
                      e: DirEntry, per: Positive, fat: Fat, data: seq<Bytes>, cat1: Catalogue)
    requires Consistent(fat0, data0, cat) && source in cat.ns.tree && destination in cat.ns.tree
    requires source != destination
    requires EntryTransferred(fat0, data0, cat, source, destination, oldLeaf, e, per, fat, data, cat1)
    ensures cat1.chains.Keys == cat.chains.Keys && cat1.ns.tree.Keys == cat.ns.tree.Keys && cat1.ns.root == cat.ns.root
    ensures Kept(data0, cat.chains, data, cat1.chains, {source, destination})
    ensures SlotsAt(data, cat1.chains, source) == Unlisted(SlotsAt(data0, cat.chains, source), oldLeaf)
    ensures SlotsAt(data, cat1.chains, destination) == Inserted(SlotsAt(data0, cat.chains, destination), e, per)
    ensures forall d :: d in cat.ns.tree && d != source && d != destination ==>
              SlotsAt(data, cat1.chains, d) == SlotsAt(data0, cat.chains, d)
  {
    hide *;
    TransferredParts(fat0, data0, cat, source, destination, oldLeaf, e, per, fat, data, cat1);
    ConsistentParts(fat0, data0, cat);
    DirectoryKnown(fat0, data0, cat, source);
    DirectoryKnown(fat0, data0, cat, destination);
    var slots, into := SlotsAt(data0, cat.chains, source), SlotsAt(data0, cat.chains, destination);
    var d' := ChainAfterCreate(fat0, into, cat.chains[destination]);
    MovedShape(fat0, data0, cat.chains[source], cat.chains[destination], e, per, fat, data, d');
    TransferredIs(cat, source, Unlisted(slots, oldLeaf), destination, d', Inserted(into, e, per), LinkOf(e),
                  First(into, FreeSlot));
    KeptOutside(fat0, data0, cat.chains, destination, d', fat, data, source);
    assert {destination, source} == {source, destination};
    SlotsAre(data, cat1.chains, source);
    SlotsAre(data, cat1.chains, destination);
    forall d | d in cat.ns.tree && d != source && d != destination
      ensures SlotsAt(data, cat1.chains, d) == SlotsAt(data0, cat.chains, d)
    {
      KeptSlots(fat0, data0, cat, data, cat1.chains, {source, destination}, d);
    }
  }

  lemma TwoDirectories(fat: Fat, data: seq<Bytes>, cat: Catalogue, d: nat, d2: nat)
    requires Consistent(fat, data, cat) && d in cat.ns.tree && d2 in cat.ns.tree && d != d2
    ensures d in cat.chains && d2 in cat.chains && Disjoint(cat.chains[d], cat.chains[d2])
    ensures IsChain(fat, cat.chains[d]) && IsChain(fat, cat.chains[d2])
    ensures cat.chains[d][0] == d && cat.chains[d2][0] == d2
    ensures InData(data, cat.chains[d]) && InData(data, cat.chains[d2])
    ensures SlotsAt(data, cat.chains, d) == ChainSlots(data, cat.chains[d])
    ensures SlotsAt(data, cat.chains, d2) == ChainSlots(data, cat.chains[d2])
  {
    DirectoryKnown(fat, data, cat, d);
    DirectoryKnown(fat, data, cat, d2);
  }

  // ----- taking back -----

  lemma TakenBackParts(fat0: Fat, data0: seq<Bytes>, cat: Catalogue, source: nat, destination: nat, e: DirEntry,
                       per: Positive, fat: Fat, data: seq<Bytes>, cat1: Catalogue)
    requires EntryTakenBack(fat0, data0, cat, source, destination, e, per, fat, data, cat1)
    ensures destination in cat.chains && source in cat.chains && |data0| == |fat0| == |data| == |fat|
    ensures var into := SlotsAt(data0, cat.chains, destination);
            var d' := ChainAfterCreate(fat0, into, cat.chains[destination]);
            var filled := Unlisted(Inserted(into, e, per), DisplayName(e.name));
            && HasRoom(fat0, into) && IsChain(fat, d') && InData(data, d') && d' != [] && cat.chains[destination] != []
            && d'[0] == cat.chains[destination][0]
            && (d' == cat.chains[destination] ==> fat == fat0)
            && (d' != cat.chains[destination] ==>
                  fat == fat0[cat.chains[destination][|cat.chains[destination]| - 1] := LowestFree(fat0)]
                             [LowestFree(fat0) := CLUSTER_EOC])
            && ChainSlots(data, d') == filled && InData(data, cat.chains[source])
            && ChainSlots(data, cat.chains[source]) == SlotsAt(data0, cat.chains, source)
            && (forall c: nat :: c < |data| && c !in d' && c !in cat.chains[source] ==> data[c] == data0[c])
            && cat1 == Catalogue(cat.chains[destination := d'],
                                 cat.ns.(tree := cat.ns.tree[destination := LinksOf(filled)]))
  {
    hide ChainSlots, LinksOf, Inserted, Unlisted, DisplayName, First, Judge, IsChain, LowestFree, HasRoom,
         ChainAfterCreate;
  }

  /** The directories of a volume in which an entry was put in and one taken out. */
  lemma TakenBackSlots(fat0: Fat, data0: seq<Bytes>, cat: Catalogue, destination: nat, e: DirEntry, per: Positive,
                       fat: Fat, data: seq<Bytes>, cat1: Catalogue)
    requires Consistent(fat0, data0, cat) && destination in cat.ns.tree && destination != cat.ns.root
    requires EntryTakenBack(fat0, data0, cat, cat.ns.root, destination, e, per, fat, data, cat1)
    ensures var into := SlotsAt(data0, cat.chains, destination);
            var d' := ChainAfterCreate(fat0, into, cat.chains[destination]);
            var filled := Unlisted(Inserted(into, e, per), DisplayName(e.name));
            && |fat| == |data| == |data0| && d' != [] && d'[0] == destination && destination in cat.chains
            && Grown(fat0, cat.chains[destination], fat, d') && InData(data, d')
            && cat.ns.root in cat.chains && InData(data, cat.chains[cat.ns.root])
            && ChainSlots(data, d') == filled
            && ChainSlots(data, cat.chains[cat.ns.root]) == SlotsAt(data0, cat.chains, cat.ns.root)
            && (forall c: nat :: c < |data| && c !in d' && c !in cat.chains[cat.ns.root] ==> data[c] == data0[c])
            && cat1 == Catalogue(cat.chains[destination := d'],
                                 cat.ns.(tree := cat.ns.tree[destination := LinksOf(filled)]))
            && SlotsAt(data, cat1.chains, destination) == filled
  {
    hide *;
    TakenBackParts(fat0, data0, cat, cat.ns.root, destination, e, per, fat, data, cat1);
    DirectoryKnown(fat0, data0, cat, destination);
    ConsistentParts(fat0, data0, cat);
    CreateGrows(fat0, SlotsAt(data0, cat.chains, destination), cat.chains[destination], fat);
    SlotsAre(data, cat1.chains, destination);
  }

  lemma TakenBackKeeps(fat0: Fat, data0: seq<Bytes>, cat: Catalogue, destination: nat, e: DirEntry, lost: DirEntry,
                       per: Positive, fat: Fat, data: seq<Bytes>, cat1: Catalogue)
    requires Consistent(fat0, data0, cat) && destination in cat.ns.tree && destination != cat.ns.root
    requires EntryTakenBack(fat0, data0, cat, cat.ns.root, destination, e, per, fat, data, cat1)
    requires Unlisted(Inserted(SlotsAt(data0, cat.chains, destination), e, per), DisplayName(e.name))
             == Inserted(SlotsAt(data0, cat.chains, destination), lost, per)
    requires IsFree(lost) && !IsEnd(lost)
    ensures Consistent(fat, data, cat1)
  {
    hide *;
    TakenBackSlots(fat0, data0, cat, destination, e, per, fat, data, cat1);
    ConsistentParts(fat0, data0, cat);
    DirectoryKnown(fat0, data0, cat, destination);
    DirectoryKnown(fat0, data0, cat, cat.ns.root);
    var into, slots := SlotsAt(data0, cat.chains, destination), SlotsAt(data0, cat.chains, cat.ns.root);
    var filled := Inserted(into, lost, per);
    FreeIsGood(lost);
    InsertedGood(into, lost, per);
    SlotStaysUnowned(cat.ns, destination, First(into, FreeSlot), LinksOf(filled), cat1.ns);
    assert cat1.ns.tree == cat.ns.tree[destination := LinksOf(filled)][cat.ns.root := LinksOf(slots)];
    TransferRebuilt(fat0, data0, cat, cat.ns.root, destination, fat, data,
                    ChainAfterCreate(fat0, into, cat.chains[destination]), slots, filled, cat1);
  }

  lemma TombstoneIsFree(e: DirEntry)
    ensures IsFree(Tombstone(e)) && !IsEnd(Tombstone(e))
  {
  }

  lemma RootOwnedBreaks(fat0: Fat, data0: seq<Bytes>, cat: Catalogue, destination: nat, e: DirEntry, per: Positive,
                        fat: Fat, data: seq<Bytes>, cat1: Catalogue, cat': Catalogue)
    requires Consistent(fat0, data0, cat) && destination in cat.ns.tree && destination != cat.ns.root
    requires EntryTakenBack(fat0, data0, cat, cat.ns.root, destination, e, per, fat, data, cat1)
    requires LinkOf(e) == OwnsDirectory(cat.ns.root) && SameShape(cat1, cat')
    requires var slots := Unlisted(Inserted(SlotsAt(data0, cat.chains, destination), e, per), DisplayName(e.name));
             var k := First(SlotsAt(data0, cat.chains, destination), FreeSlot);
             k < |slots| && slots[k] == e
    ensures !Consistent(fat, data, cat')
  {
    hide *;
    if Consistent(fat, data, cat') {
      SameShapeParts(cat1, cat');
      TakenBackSlots(fat0, data0, cat, destination, e, per, fat, data, cat1);
      SlotKnown(fat, data, cat', destination, First(SlotsAt(data0, cat.chains, destination), FreeSlot));
      assert false;
    }
  }
}
