/** The volume as a whole: creating, deleting, writing, renaming and moving files and directories, each in the
    directory its path has been resolved to. The ghost argument `cat` records which chains there are and who
    owns them; every routine returns the record of the changed volume. */
module FileSystems {
  import opened Options
  import opened Words
  import opened Chains
  import opened Fat32
  import opened Entries
  import opened Slots
  import opened Listings
  import opened Directories
  import opened Iterators
  import opened Namespaces
  import opened Catalogues

  /** Every routine below starts from a consistent volume. */
  ghost predicate IsVolume(vol: Volume, cat: Catalogue)
    reads vol
  {
    vol.Valid() && cat.ns.root == vol.geometry.rootCluster && Consistent(vol.fat, vol.data, cat)
  }

  /** The slots of the directory at `d`. */
  ghost function DirSlots(vol: Volume, cat: Catalogue, d: nat): Directory
    reads vol
  {
    SlotsAt(vol.data, cat.chains, d)
  }

  // ----- entries as the routines make them -----

  /** Names as typed: no NUL ends them early, and the first byte is not the mark of a deleted entry. */
  predicate IsText(name: Bytes) {
    0 !in name && (name == [] || name[0] != DELETED)
  }

  /** A fresh entry: everything zero but the name and the attributes. */
  function NewEntry(name: RawName, attributes: Byte, cluster: nat): DirEntry
    requires cluster < TWO_32
  {
    DirEntry(name, attributes, Zeros(8), 0, Zeros(4), 0, 0).WithCluster(cluster)
  }

  /** An accepted name is stored so that the entry is live and not listed as a dot name. */
  lemma ShortNameFacts(name: Bytes)
    requires Accepted(name) && IsText(name)
    ensures ShortName(name)[0] != 0 && ShortName(name)[0] != DELETED && !IsDotName(DisplayName(ShortName(name)))
  {
    var short := ShortName(name);
    assert short[0] == UpperAll(Base(name))[0] == Upper(name[0]);
    assert name[0] != PERIOD;
    assert short[8] == Padded(UpperAll(Extension(name)), 3)[0];
    if Extension(name) != [] {
      assert short[8] == Upper(Extension(name)[0]) && Extension(name)[0] in Extension(name);
      assert Extension(name)[0] == name[IndexOf(name, PERIOD) + 1];
    }
    NotDotListed(short);
  }

  lemma NewEntryFacts(name: Bytes, attributes: Byte, cluster: nat)
    requires Accepted(name) && IsText(name) && cluster < TWO_32
    requires attributes == ATTR_ARCHIVE || attributes == ATTR_DIRECTORY
    ensures var e := NewEntry(ShortName(name), attributes, cluster);
            && IsShown(e) && e.Cluster() == cluster
            && !IsDotName(DisplayName(e.name))
            && e.IsDirectory() == (attributes == ATTR_DIRECTORY)
            && (attributes == ATTR_ARCHIVE || cluster != 0 ==> GoodEntry(e))
            && LinkOf(e) == if cluster == 0 then Nothing
                            else if attributes == ATTR_DIRECTORY then OwnsDirectory(cluster) else OwnsFile(cluster)
  {
    AttributeBits();
    ClusterRoundTrip(DirEntry(ShortName(name), attributes, Zeros(8), 0, Zeros(4), 0, 0), cluster);
    ShortNameFacts(name);
  }

  /** A name that starts with a dot neither in its base nor in its extension is not listed as a dot name. */
  lemma NotDotListed(name: RawName)
    requires name[0] != PERIOD && name[8] != PERIOD && name[0] != 0 && name[8] != 0
    ensures !IsDotName(DisplayName(name))
  {
    var base, extension := Before(name[..8], SPACE), Before(name[8..], SPACE);
    if base != [] {
      assert base[0] == name[..8][0] == name[0];
      assert DisplayName(name) != [] ==> DisplayName(name)[0] == name[0];
    } else if name[8] != SPACE {
      assert extension[0] == name[8..][0] == name[8];
      var shown := base + [PERIOD] + extension;
      assert shown[1] == name[8];
      assert |DisplayName(name)| >= 2 ==> DisplayName(name)[1] == shown[1];
      assert IndexOf(shown, 0) >= 2;
    }
  }

  /** Creating an entry grows the chain of its directory by at most one free cluster. */
  lemma CreateGrows(fat0: Fat, slots: Directory, s: seq<nat>, fat: Fat)
    requires 2 <= |fat0| < CLUSTER_LAST && IsChain(fat0, s) && HasRoom(fat0, slots)
    requires var s' := ChainAfterCreate(fat0, slots, s);
             && IsChain(fat, s')
             && (s' == s ==> fat == fat0)
             && (s' != s ==> fat == fat0[s[|s| - 1] := LowestFree(fat0)][LowestFree(fat0) := CLUSTER_EOC])
    ensures Grown(fat0, s, fat, ChainAfterCreate(fat0, slots, s))
  {
    GrownStart(fat0, s);
    if !Found(slots, FreeSlot) {
      var c := LowestFree(fat0);
      ChainNotFree(fat0, s);
      assert (s + [c])[|s|] == c;
      GrownStep(fat0, s, fat0, s, c, fat);
    }
  }

  lemma FreeIsGood(e: DirEntry)
    requires IsFree(e)
    ensures GoodEntry(e) && LinkOf(e) == Nothing
  {
  }

  lemma InsertedSlots(slots: Directory, e: DirEntry, per: Positive)
    ensures var k, slots' := First(slots, FreeSlot), Inserted(slots, e, per);
            && k < |slots'| && slots'[k] == e && |slots| <= |slots'|
            && (k < |slots| ==> IsFree(slots[k]))
            && (forall j :: 0 <= j < |slots| && j != k ==> slots'[j] == slots[j])
            && (forall j :: |slots| <= j < |slots'| && j != k ==> slots'[j] == EMPTY_SLOT)
    ensures IsFree(EMPTY_SLOT)
  {
    EmptySlotIsEnd();
    var slots' := Inserted(slots, e, per);
    forall j | |slots| <= j < |slots'| && j != First(slots, FreeSlot) ensures slots'[j] == EMPTY_SLOT {
      assert slots'[j] == FreshCluster(e, per)[1..][j - |slots| - 1];
    }
  }

  lemma ShownIsLive(e: DirEntry)
    requires IsShown(e)
    ensures !IsEnd(e)
  {
  }

  /** The slots and the links after an insertion. */
  lemma InsertedGood(slots: Directory, e: DirEntry, per: Positive)
    requires GoodSlots(slots) && GoodEntry(e) && !IsEnd(e)
    ensures var k, slots' := First(slots, FreeSlot), Inserted(slots, e, per);
            && GoodSlots(slots') && k < |slots'| && slots'[k] == e
            && SameBut(LinksOf(slots), LinksOf(slots'), k)
            && Unowned(LinksOf(slots), k)
            && k < |LinksOf(slots')| && LinksOf(slots')[k] == LinkOf(e)
  {
    var k, slots' := First(slots, FreeSlot), Inserted(slots, e, per);
    var before, after := InsertListing(slots, e, per);
    InsertedSlots(slots, e, per);
    FreeIsGood(EMPTY_SLOT);
    forall j | 0 <= j < |slots'| ensures GoodEntry(slots'[j]) {
    }
    if k < |slots| {
      FreeIsGood(slots[k]);
    }
  }

  // ----- creating a file -----

  /** An entry that owns nothing has been created in the directory at `d`. */
  ghost predicate EntryAdded(fat0: Fat, data0: seq<Bytes>, cat: Catalogue, d: nat, entry: DirEntry, per: Positive,
                             fat: Fat, data: seq<Bytes>, cat': Catalogue) {
    && d in cat.chains && InData(data0, cat.chains[d]) && |data0| == |fat0| && cat.chains[d] != []
    && var s, slots := cat.chains[d], SlotsAt(data0, cat.chains, d);
       var s' := ChainAfterCreate(fat0, slots, s);
       && HasRoom(fat0, slots) && EntryCreated(fat0, data0, s, entry, per, fat, data, s')
       && cat' == WithSlots(cat, d, s', Inserted(slots, entry, per))
  }

  lemma AddedParts(fat0: Fat, data0: seq<Bytes>, cat: Catalogue, d: nat, entry: DirEntry, per: Positive,
                   fat: Fat, data: seq<Bytes>, cat': Catalogue)
    requires EntryAdded(fat0, data0, cat, d, entry, per, fat, data, cat')
    ensures d in cat.chains && InData(data0, cat.chains[d]) && |data0| == |fat0| && cat.chains[d] != []
    ensures var s, slots := cat.chains[d], SlotsAt(data0, cat.chains, d);
            var s' := ChainAfterCreate(fat0, slots, s);
            && HasRoom(fat0, slots) && EntryCreated(fat0, data0, s, entry, per, fat, data, s')
            && slots == ChainSlots(data0, s)
            && cat' == Catalogue(cat.chains[d := s'],
                                 cat.ns.(tree := cat.ns.tree[d := LinksOf(Inserted(slots, entry, per))]))
  {
  }

  lemma AddedKeeps(fat0: Fat, data0: seq<Bytes>, cat: Catalogue, d: nat, entry: DirEntry, per: Positive,
                   fat: Fat, data: seq<Bytes>, cat': Catalogue)
    requires Consistent(fat0, data0, cat) && d in cat.ns.tree
    requires LinkOf(entry) == Nothing && GoodEntry(entry) && !IsEnd(entry)
    requires EntryAdded(fat0, data0, cat, d, entry, per, fat, data, cat')
    ensures Consistent(fat, data, cat') && Kept(data0, cat.chains, data, cat'.chains, {d})
    ensures cat'.ns.owner == cat.ns.owner && cat'.ns.root == cat.ns.root && cat'.ns.tree.Keys == cat.ns.tree.Keys
    ensures SlotsAt(data, cat'.chains, d) == Inserted(SlotsAt(data0, cat.chains, d), entry, per)
  {
    hide *;
    AddedParts(fat0, data0, cat, d, entry, per, fat, data, cat');
    var s' := ChainAfterCreate(fat0, SlotsAt(data0, cat.chains, d), cat.chains[d]);
    var _ := InsertedUnowned(fat0, data0, cat, d, entry, per, fat, data, s');
  }

  lemma InsertedUnowned(fat0: Fat, data0: seq<Bytes>, cat: Catalogue, d: nat, entry: DirEntry, per: Positive,
                        fat: Fat, data: seq<Bytes>, s': seq<nat>) returns (cat': Catalogue)
    requires Consistent(fat0, data0, cat) && d in cat.ns.tree
    requires LinkOf(entry) == Nothing && GoodEntry(entry) && !IsEnd(entry)
    requires InData(data0, cat.chains[d]) && cat.chains[d] != []
    requires HasRoom(fat0, ChainSlots(data0, cat.chains[d]))
    requires EntryCreated(fat0, data0, cat.chains[d], entry, per, fat, data, s')
    ensures Consistent(fat, data, cat') && Kept(data0, cat.chains, data, cat'.chains, {d})
    ensures cat'.ns.owner == cat.ns.owner && cat'.ns.root == cat.ns.root && cat'.ns.tree.Keys == cat.ns.tree.Keys
    ensures SlotsAt(data, cat'.chains, d) == Inserted(SlotsAt(data0, cat.chains, d), entry, per)
    ensures var slots := SlotsAt(data0, cat.chains, d);
            cat' == Catalogue(cat.chains[d := s'],
                              cat.ns.(tree := cat.ns.tree[d := LinksOf(Inserted(slots, entry, per))]))
  {
    hide *;
    ConsistentParts(fat0, data0, cat);
    DirectoryKnown(fat0, data0, cat, d);
    var s, slots := cat.chains[d], ChainSlots(data0, cat.chains[d]);
    CreatedGrows(fat0, data0, s, entry, per, fat, data, s');
    KeptOutside(fat0, data0, cat.chains, d, s', fat, data, d);
    assert {d, d} == {d};
    InsertedGood(slots, entry, per);
    InsertedDirectory(data, s', slots, entry, per);
    var links := LinksOf(Inserted(slots, entry, per));
    var ns' := cat.ns.(tree := cat.ns.tree[d := links]);
    SlotStaysUnowned(cat.ns, d, First(slots, FreeSlot), links, ns');
    cat' := Catalogue(cat.chains[d := s'], ns');
    Rebuilt(fat0, data0, cat, fat, data, cat', {d});
  }

  lemma CreatedGrows(fat0: Fat, data0: seq<Bytes>, s: seq<nat>, entry: DirEntry, per: Positive,
                     fat: Fat, data: seq<Bytes>, s': seq<nat>)
    requires 2 <= |fat0| < CLUSTER_LAST && |fat0| == |data0| && IsChain(fat0, s) && InData(data0, s)
    requires HasRoom(fat0, ChainSlots(data0, s)) && EntryCreated(fat0, data0, s, entry, per, fat, data, s')
    ensures |fat| == |data| == |data0| && Grown(fat0, s, fat, s') && s' != [] && s'[0] == s[0] && InData(data, s')
    ensures ChainSlots(data, s') == Inserted(ChainSlots(data0, s), entry, per)
    ensures forall c: nat :: c < |data| && c !in s' ==> data[c] == data0[c]
  {
    CreateGrows(fat0, ChainSlots(data0, s), s, fat);
  }

  lemma InsertedDirectory(data: seq<Bytes>, s': seq<nat>, slots: Directory, e: DirEntry, per: Positive)
    requires InData(data, s') && ChainSlots(data, s') == Inserted(slots, e, per) && GoodSlots(Inserted(slots, e, per))
    ensures DirectoryOk(data, s', LinksOf(Inserted(slots, e, per)))
    ensures forall chains: ChainMap, d :: d in chains && chains[d] == s' ==>
              SlotsAt(data, chains, d) == Inserted(slots, e, per)
  {
  }

  /** Adds an entry that owns nothing to the directory at `parent`. */
  method AddUnowned(vol: Volume, parent: nat, entry: DirEntry, ghost cat: Catalogue)
    returns (ok: bool, ghost cat': Catalogue)
    requires IsVolume(vol, cat) && parent in cat.ns.tree
    requires LinkOf(entry) == Nothing && GoodEntry(entry) && !IsEnd(entry)
    modifies vol`sectors, vol`fat, vol`data
    ensures IsVolume(vol, cat') && Kept(old(vol.data), cat.chains, vol.data, cat'.chains, {parent})
    ensures cat'.ns.owner == cat.ns.owner && cat'.ns.tree.Keys == cat.ns.tree.Keys
    ensures ok == HasRoom(old(vol.fat), old(DirSlots(vol, cat, parent)))
    ensures !ok ==> vol.fat == old(vol.fat) && vol.data == old(vol.data) && cat' == cat
    ensures ok ==> DirSlots(vol, cat', parent) == Inserted(old(DirSlots(vol, cat, parent)), entry,
                                                           vol.geometry.SlotsPerCluster())
    ensures ok ==> EntryAdded(old(vol.fat), old(vol.data), cat, parent, entry, vol.geometry.SlotsPerCluster(),
                              vol.fat, vol.data, cat')
  {
    hide Consistent, Kept, DirectoryOk, FatRefines, DataRefines;
    DirectoryKnown(vol.fat, vol.data, cat, parent);
    KeptAll(vol.fat, vol.data, cat, {parent});
    ghost var fat0, data0, s := vol.fat, vol.data, cat.chains[parent];
    ok := CreateEntryInCluster(vol, parent, entry, s);
    cat' := cat;
    if ok {
      ghost var per := vol.geometry.SlotsPerCluster();
      cat' := WithSlots(cat, parent, ChainAfterCreate(fat0, ChainSlots(data0, s), s),
                        Inserted(ChainSlots(data0, s), entry, per));
      AddedKeeps(fat0, data0, cat, parent, entry, per, vol.fat, vol.data, cat');
    }
  }

  /** The entry of a new file is shown, unless its name begins with the mark of a deleted one: then it is lost at
      once. */
  lemma FileEntryFacts(name: Bytes)
    requires Accepted(name) && 0 !in name
    ensures var e := NewEntry(ShortName(name), ATTR_ARCHIVE, 0);
            && LinkOf(e) == Nothing && GoodEntry(e)
            && !IsEnd(e) && IsShown(e) == IsText(name)
  {
    if IsText(name) {
      NewEntryFacts(name, ATTR_ARCHIVE, 0);
    } else {
      assert ShortName(name)[0] == UpperAll(Base(name))[0] == Upper(name[0]);
      FreeIsGood(NewEntry(ShortName(name), ATTR_ARCHIVE, 0));
    }
  }

  /** A file just created is found under the name as typed exactly if that name has no space, no lower-case letter and
      does not begin with the mark of a deleted entry: lookup takes names as they are, creation changes them. */
  lemma CreatedIsFoundIff(slots: Directory, leaf: Bytes, per: Positive)
    requires WellEnded(slots) && Accepted(leaf) && 0 !in leaf && FindListed(Listing(slots), leaf) == None
    ensures var e := NewEntry(ShortName(leaf), ATTR_ARCHIVE, 0);
            FindListed(Listing(Inserted(slots, e, per)), leaf)
            == if SPACE !in leaf && UpperAll(leaf) == leaf && IsText(leaf) then Some(e) else None
  {
    hide Listing, FindListed, Inserted, ShortName, NewEntry, Accepted, UpperAll, IsText, DisplayName;
    FileEntryFacts(leaf);
    ListedUnderOwnName(leaf);
    InsertedFinds(slots, NewEntry(ShortName(leaf), ATTR_ARCHIVE, 0), per, leaf);
    FoundInPart(slots, leaf);
    NewEntryName(ShortName(leaf), ATTR_ARCHIVE, 0);
  }

  lemma NewEntryName(name: RawName, attributes: Byte, cluster: nat)
    requires cluster < TWO_32
    ensures NewEntry(name, attributes, cluster).name == name
  {
  }

  /** No two entries that are shown hold the same eleven bytes of name. */
  ghost predicate RawDistinct(slots: Directory) {
    forall i, j :: 0 <= i < j < |slots| && IsShown(slots[i]) && IsShown(slots[j]) ==> slots[i].name != slots[j].name
  }

  /** A search passes no shown entry that matches. */
  lemma MatchIsFound(slots: Directory, want: Wanted, i: nat)
    requires WellEnded(slots) && !want.FreeSlot? && i < |slots| && IsShown(slots[i]) && Matches(slots[i], want)
    ensures Found(slots, want)
  {
    hide Matches, DirEntry.HasVolumeBit;
    ShownIsJudged(slots[i], want);
    assert First(slots, want) <= i;
    assert !IsEnd(slots[First(slots, want)]);
  }

  lemma ShownIsJudged(e: DirEntry, want: Wanted)
    requires !want.FreeSlot? && IsShown(e) && Matches(e, want)
    ensures Judge(e, want) == Hit && !IsFree(e)
  {
    AttributeBits();
  }

  /** A search by the eleven bytes finds a shown entry that holds them, if there is one. */
  lemma RawFoundIff(slots: Directory, name: RawName)
    requires GoodSlots(slots)
    ensures Found(slots, Raw(name)) <==> exists i :: 0 <= i < |slots| && IsShown(slots[i]) && slots[i].name == name
  {
    hide DirEntry.HasVolumeBit, WellEnded;
    var k := First(slots, Raw(name));
    if Found(slots, Raw(name)) {
      assert GoodEntry(slots[k]);
      assert IsShown(slots[k]) && slots[k].name == name;
    }
    if i :| 0 <= i < |slots| && IsShown(slots[i]) && slots[i].name == name {
      MatchIsFound(slots, Raw(name), i);
    }
  }

  /** An entry put into a directory, created or moved there, keeps the names apart exactly if it is not shown or no
      entry holds its name. */
  lemma InsertedApartIff(slots: Directory, e: DirEntry, per: Positive)
    requires GoodSlots(slots) && RawDistinct(slots)
    ensures RawDistinct(Inserted(slots, e, per)) <==> !(IsShown(e) && Found(slots, Raw(e.name)))
  {
    hide GoodSlots, Inserted, IsShown, Found, First;
    var k, slots' := First(slots, FreeSlot), Inserted(slots, e, per);
    InsertedSlots(slots, e, per);
    FreeIsLost();
    RawFoundIff(slots, e.name);
    if i :| 0 <= i < |slots| && IsShown(slots[i]) && slots[i].name == e.name && IsShown(e) {
      assert slots'[i] == slots[i] && slots'[k] == e;
    }
  }

  /** For a file created that is: if no entry holds the name as it will be stored. The name as typed is all that is
      looked for. */
  lemma CreatedApartIff(slots: Directory, leaf: Bytes, per: Positive)
    requires GoodSlots(slots) && RawDistinct(slots) && Accepted(leaf) && 0 !in leaf
    ensures RawDistinct(Inserted(slots, NewEntry(ShortName(leaf), ATTR_ARCHIVE, 0), per))
            <==> !(IsText(leaf) && Found(slots, Raw(ShortName(leaf))))
  {
    hide ShortName, NewEntry, Accepted, GoodSlots, Inserted, IsShown, Found, IsText, RawDistinct;
    FileEntryFacts(leaf);
    NewEntryName(ShortName(leaf), ATTR_ARCHIVE, 0);
    InsertedApartIff(slots, NewEntry(ShortName(leaf), ATTR_ARCHIVE, 0), per);
  }

  lemma FreeIsLost()
    ensures forall e: DirEntry :: IsFree(e) ==> !IsShown(e)
  {
  }

  /** A name without a space or a lower-case letter, looked for before it is created, is kept apart. */
  lemma CreatedApart(slots: Directory, leaf: Bytes, per: Positive)
    requires GoodSlots(slots) && RawDistinct(slots) && Accepted(leaf) && 0 !in leaf
    requires FindListed(Listing(slots), leaf) == None && SPACE !in leaf && UpperAll(leaf) == leaf
    ensures RawDistinct(Inserted(slots, NewEntry(ShortName(leaf), ATTR_ARCHIVE, 0), per))
  {
    hide ShortName, NewEntry, Accepted, Inserted, Listing, FindListed, RawDistinct, DisplayName, IsShown, WellEnded,
         First, GoodEntry;
    CreatedApartIff(slots, leaf, per);
    RawFoundIff(slots, ShortName(leaf));
    ListedUnderOwnName(leaf);
    GoodSlotsArePlain(slots);
    FindAgrees(slots, leaf);
    if i :| 0 <= i < |slots| && IsShown(slots[i]) && slots[i].name == ShortName(leaf) {
      MatchIsFound(slots, Listed(leaf), i);
      assert false;
    }
  }

  /** So a file can be created twice, and then two slots hold the same eleven bytes of name. */
  lemma CreatedTwice(slots: Directory, leaf: Bytes, per: Positive) returns (i: nat, j: nat)
    requires WellEnded(slots) && Accepted(leaf) && IsText(leaf) && FindListed(Listing(slots), leaf) == None
    requires SPACE in leaf || UpperAll(leaf) != leaf
    ensures var e := NewEntry(ShortName(leaf), ATTR_ARCHIVE, 0);
            var once := Inserted(slots, e, per);
            var twice := Inserted(once, e, per);
            && FindListed(Listing(once), leaf) == None && FindListed(Listing(twice), leaf) == None
            && i < j < |twice| && twice[i] == twice[j] == e && IsShown(e)
  {
    hide ShortName, NewEntry, Listing, FindListed, Accepted;
    var e := NewEntry(ShortName(leaf), ATTR_ARCHIVE, 0);
    var once := Inserted(slots, e, per);
    FileEntryFacts(leaf);
    CreatedIsFoundIff(slots, leaf, per);
    var before, after := InsertListing(slots, e, per);
    CreatedIsFoundIff(once, leaf, per);
    InsertedSlots(slots, e, per);
    InsertedSlots(once, e, per);
    i, j := First(slots, FreeSlot), First(once, FreeSlot);
    SlotsInOrder(slots, e, per);
  }

  /** Entries created one after the other go to later and later slots. */
  lemma SlotsInOrder(slots: Directory, e: DirEntry, per: Positive)
    requires IsShown(e)
    ensures First(slots, FreeSlot) < First(Inserted(slots, e, per), FreeSlot)
  {
    hide Inserted, First, Judge, IsShown;
    InsertedSlots(slots, e, per);
    var k, once := First(slots, FreeSlot), Inserted(slots, e, per);
    ShownIsSkipped(e);
  }

  lemma ShownIsSkipped(e: DirEntry)
    requires IsShown(e)
    ensures Judge(e, FreeSlot) == Skip
  {
  }

  /** `file_create`, once the path has been resolved to the directory at `parent`: a new, empty file. */
  method CreateFile(vol: Volume, parent: nat, leaf: Bytes, ghost cat: Catalogue)
    returns (ok: bool, ghost cat': Catalogue)
    requires IsVolume(vol, cat) && parent in cat.ns.tree && 0 !in leaf
    modifies vol`sectors, vol`fat, vol`data
    ensures IsVolume(vol, cat') && Kept(old(vol.data), cat.chains, vol.data, cat'.chains, {parent})
    ensures cat'.ns.owner == cat.ns.owner && cat'.ns.tree.Keys == cat.ns.tree.Keys
    ensures var slots := old(DirSlots(vol, cat, parent));
            ok == (FindListed(Listing(slots), leaf) == None && Accepted(leaf) && HasRoom(old(vol.fat), slots))
    ensures !ok ==> vol.fat == old(vol.fat) && vol.data == old(vol.data) && cat' == cat
    ensures ok ==> DirSlots(vol, cat', parent) == Inserted(old(DirSlots(vol, cat, parent)),
                                                           NewEntry(ShortName(leaf), ATTR_ARCHIVE, 0),
                                                           vol.geometry.SlotsPerCluster())
    ensures ok ==> EntryAdded(old(vol.fat), old(vol.data), cat, parent, NewEntry(ShortName(leaf), ATTR_ARCHIVE, 0),
                              vol.geometry.SlotsPerCluster(), vol.fat, vol.data, cat')
  {
    hide Consistent, Kept, DirectoryOk, FatRefines, DataRefines;
    cat' := cat;
    DirectoryKnown(vol.fat, vol.data, cat, parent);
    KeptAll(vol.fat, vol.data, cat, {parent});
    var existing := FindInCluster(vol, parent, leaf, cat.chains[parent]);
    if existing.Some? {
      return false, cat';
    }
    var entry := NewEntry(Zeros(11), ATTR_ARCHIVE, 0);
    ok, entry := SetName(entry, leaf);
    if ok {
      FileEntryFacts(leaf);
      ok, cat' := AddUnowned(vol, parent, entry, cat);
    }
  }

  // ----- deleting files and directories -----

  lemma TombstoneFacts(slots: Directory, k: nat)
    requires GoodSlots(slots) && k < |slots| && IsShown(slots[k])
    ensures var slots' := slots[k := Tombstone(slots[k])];
            && GoodSlots(slots') && LinkOf(slots'[k]) == Nothing
            && SameBut(LinksOf(slots), LinksOf(slots'), k)
            && k < |LinksOf(slots')| && LinksOf(slots')[k] == Nothing
  {
    DeleteListing(slots, k);
    FreeIsGood(Tombstone(slots[k]));
  }

  /** What the catalogue says about slot `k` of the directory at `d`. */
  lemma SlotKnown(fat: Fat, data: seq<Bytes>, cat: Catalogue, d: nat, k: nat)
    requires Consistent(fat, data, cat) && d in cat.ns.tree && k < |SlotsAt(data, cat.chains, d)|
    ensures k < |cat.ns.tree[d]| && cat.ns.tree[d][k] == LinkOf(SlotsAt(data, cat.chains, d)[k])
    ensures GoodEntry(SlotsAt(data, cat.chains, d)[k])
    ensures var link := cat.ns.tree[d][k];
            !link.Nothing? ==>
              && link.cluster in cat.ns.owner && cat.ns.owner[link.cluster] == Home(d, k)
              && link.cluster in cat.chains && link.cluster != cat.ns.root
              && ChainOk(fat, cat.chains, link.cluster)
              && (link.OwnsDirectory? <==> link.cluster in cat.ns.tree)
  {
    DirectoryKnown(fat, data, cat, d);
    assert cat.ns.LinkOk(d, k);
    if !cat.ns.tree[d][k].Nothing? {
      assert cat.ns.OwnerOk(cat.ns.tree[d][k].cluster);
    }
  }

  /** The volume after the chain `c` owned by slot `k` of `d` has been freed and the slot tombstoned. */
  lemma Removed(fat0: Fat, data0: seq<Bytes>, cat: Catalogue, d: nat, k: nat, c: nat, fat: Fat, data: seq<Bytes>)
    returns (cat': Catalogue)
    requires Consistent(fat0, data0, cat) && d in cat.ns.tree && k < |SlotsAt(data0, cat.chains, d)|
    requires IsShown(SlotsAt(data0, cat.chains, d)[k]) && LinkOf(SlotsAt(data0, cat.chains, d)[k]).Owns(c)
    requires c in cat.ns.tree ==> OwnsNothing(cat.ns.tree[c])
    requires c in cat.chains && fat == Cleared(fat0, cat.chains[c])
    requires InData(data, cat.chains[d]) && |data| == |data0|
    requires ChainSlots(data, cat.chains[d])
             == SlotsAt(data0, cat.chains, d)[k := Tombstone(SlotsAt(data0, cat.chains, d)[k])]
    requires forall x: nat :: x < |data| && x !in cat.chains[d] ==> data[x] == data0[x]
    ensures Consistent(fat, data, cat') && Kept(data0, cat.chains, data, cat'.chains, {c, d})
    ensures cat'.ns.root == cat.ns.root
    ensures cat'.ns.owner == cat.ns.owner - {c} && cat'.ns.tree.Keys == cat.ns.tree.Keys - {c}
    ensures var slots := SlotsAt(data0, cat.chains, d); cat' == WithoutChain(cat, d, c, slots[k := Tombstone(slots[k])])
    ensures d != c && SlotsAt(data, cat'.chains, d) == ChainSlots(data, cat.chains[d])
  {
    hide *;
    ConsistentParts(fat0, data0, cat);
    DirectoryKnown(fat0, data0, cat, d);
    SlotKnown(fat0, data0, cat, d, k);
    var slots := SlotsAt(data0, cat.chains, d);
    TombstoneFacts(slots, k);
    var slots' := slots[k := Tombstone(slots[k])];
    var ns' := Namespace(cat.ns.root, cat.ns.tree[d := LinksOf(slots')] - {c}, cat.ns.owner - {c});
    SlotLosesOwner(cat.ns, d, k, LinksOf(slots'), c, ns');
    ChainsFree(fat0, cat.chains, c, fat);
    cat' := Catalogue(cat.chains - {c}, ns');
    WithoutChainIs(cat, d, c, slots');
    SlotsMakeDirectory(data, cat'.chains, d, slots');
    KeptOffDirectory(fat0, data0, cat, d, data, cat'.chains, {c, d});
    Rebuilt(fat0, data0, cat, fat, data, cat', {c, d});
  }

  lemma WithoutChainIs(cat: Catalogue, d: nat, c: nat, slots': Directory)
    ensures WithoutChain(cat, d, c, slots')
            == Catalogue(cat.chains - {c},
                         Namespace(cat.ns.root, cat.ns.tree[d := LinksOf(slots')] - {c}, cat.ns.owner - {c}))
    ensures 0 !in cat.chains && 0 !in cat.ns.owner && 0 !in cat.ns.tree && d != 0 ==>
              WithoutChain(cat, d, 0, slots')
              == Catalogue(cat.chains, cat.ns.(tree := cat.ns.tree[d := LinksOf(slots')]))
  {
    assert 0 !in cat.chains ==> cat.chains - {0} == cat.chains;
    assert 0 !in cat.ns.owner ==> cat.ns.owner - {0} == cat.ns.owner;
    assert 0 !in cat.ns.tree && d != 0 ==> cat.ns.tree[d := LinksOf(slots')] - {0} == cat.ns.tree[d := LinksOf(slots')];
  }

  /** The same for an entry without clusters. */
  lemma RemovedUnowned(fat: Fat, data0: seq<Bytes>, cat: Catalogue, d: nat, k: nat, e: DirEntry, data: seq<Bytes>)
    returns (cat': Catalogue)
    requires Consistent(fat, data0, cat) && d in cat.ns.tree && k < |SlotsAt(data0, cat.chains, d)|
    requires LinkOf(SlotsAt(data0, cat.chains, d)[k]) == Nothing == LinkOf(e)
    requires GoodSlots(SlotsAt(data0, cat.chains, d)[k := e])
    requires InData(data, cat.chains[d]) && |data| == |data0|
    requires ChainSlots(data, cat.chains[d]) == SlotsAt(data0, cat.chains, d)[k := e]
    requires forall x: nat :: x < |data| && x !in cat.chains[d] ==> data[x] == data0[x]
    ensures Consistent(fat, data, cat') && Kept(data0, cat.chains, data, cat'.chains, {d})
    ensures cat'.ns.root == cat.ns.root
    ensures cat'.ns.owner == cat.ns.owner && cat'.ns.tree.Keys == cat.ns.tree.Keys && cat'.chains == cat.chains
    ensures var slots' := SlotsAt(data0, cat.chains, d)[k := e];
            cat' == Catalogue(cat.chains, cat.ns.(tree := cat.ns.tree[d := LinksOf(slots')]))
    ensures SlotsAt(data, cat'.chains, d) == ChainSlots(data, cat.chains[d])
  {
    hide *;
    ConsistentParts(fat, data0, cat);
    DirectoryKnown(fat, data0, cat, d);
    SlotKnown(fat, data0, cat, d, k);
    var slots' := SlotsAt(data0, cat.chains, d)[k := e];
    LinksAfter(SlotsAt(data0, cat.chains, d), k, e);
    var ns' := cat.ns.(tree := cat.ns.tree[d := LinksOf(slots')]);
    SlotStaysUnowned(cat.ns, d, k, LinksOf(slots'), ns');
    cat' := Catalogue(cat.chains, ns');
    SlotsMakeDirectory(data, cat'.chains, d, slots');
    KeptOffDirectory(fat, data0, cat, d, data, cat'.chains, {d});
    Rebuilt(fat, data0, cat, fat, data, cat', {d});
  }

  /** One slot of the directory at `d` has been rewritten and owns what it owned before. */
  lemma Resaved(fat: Fat, data0: seq<Bytes>, cat: Catalogue, d: nat, k: nat, e: DirEntry, data: seq<Bytes>)
    requires Consistent(fat, data0, cat) && d in cat.ns.tree && k < |SlotsAt(data0, cat.chains, d)|
    requires LinkOf(SlotsAt(data0, cat.chains, d)[k]) == LinkOf(e)
    requires GoodSlots(SlotsAt(data0, cat.chains, d)[k := e])
    requires InData(data, cat.chains[d]) && |data| == |data0|
    requires ChainSlots(data, cat.chains[d]) == SlotsAt(data0, cat.chains, d)[k := e]
    requires forall x: nat :: x < |data| && x !in cat.chains[d] ==> data[x] == data0[x]
    ensures Consistent(fat, data, cat) && Kept(data0, cat.chains, data, cat.chains, {d})
    ensures SlotsAt(data, cat.chains, d) == ChainSlots(data, cat.chains[d])
  {
    hide *;
    ConsistentParts(fat, data0, cat);
    DirectoryKnown(fat, data0, cat, d);
    LinksAfter(SlotsAt(data0, cat.chains, d), k, e);
    SlotsMakeDirectory(data, cat.chains, d, SlotsAt(data0, cat.chains, d)[k := e]);
    KeptOffDirectory(fat, data0, cat, d, data, cat.chains, {d});
    Rebuilt(fat, data0, cat, fat, data, cat, {d});
  }

  lemma LinksAfter(slots: Directory, k: nat, e: DirEntry)
    requires k < |slots|
    ensures SameBut(LinksOf(slots), LinksOf(slots[k := e]), k)
    ensures LinksOf(slots[k := e])[k] == LinkOf(e) && |LinksOf(slots[k := e])| == |slots|
    ensures LinkOf(slots[k]) == Nothing ==> Unowned(LinksOf(slots), k)
    ensures LinkOf(e) == LinkOf(slots[k]) ==> LinksOf(slots[k := e]) == LinksOf(slots)
  {
  }

  lemma SlotsMakeDirectory(data: seq<Bytes>, chains: ChainMap, d: nat, slots: Directory)
    requires d in chains && InData(data, chains[d]) && ChainSlots(data, chains[d]) == slots && GoodSlots(slots)
    ensures DirectoryOk(data, chains[d], LinksOf(slots)) && SlotsAt(data, chains, d) == slots
  {
  }

  /** When only the directory at `d` has changed, every chain outside `touched` is kept. */
  lemma KeptOffDirectory(fat: Fat, data0: seq<Bytes>, cat: Catalogue, d: nat, data: seq<Bytes>, chains': ChainMap,
                         touched: set<nat>)
    requires Consistent(fat, data0, cat) && d in cat.chains && d in touched && |data| == |data0|
    requires forall x: nat :: x < |data| && x !in cat.chains[d] ==> data[x] == data0[x]
    requires forall x :: x in cat.chains && x !in touched ==> x in chains' && chains'[x] == cat.chains[x]
    ensures Kept(data0, cat.chains, data, chains', touched)
  {
    hide Namespace.Ok, DirectoryOk;
    forall x | x in cat.chains && x !in touched ensures SameOn(data0, data, cat.chains[x]) {
      assert ChainOk(fat, cat.chains, x) && Disjoint(cat.chains[x], cat.chains[d]);
    }
  }

  /** The entry the directory at `parent` lists under `leaf`, and its slot. */
  method Lookup(vol: Volume, parent: nat, leaf: Bytes, ghost cat: Catalogue)
    returns (found: Option<DirEntry>, ghost k: nat)
    requires IsVolume(vol, cat) && parent in cat.ns.tree
    ensures found == FindListed(Listing(DirSlots(vol, cat, parent)), leaf)
    ensures k == First(DirSlots(vol, cat, parent), Listed(leaf))
    ensures found.Some? == Found(DirSlots(vol, cat, parent), Listed(leaf))
    ensures found.Some? ==> k < |DirSlots(vol, cat, parent)| && found.value == DirSlots(vol, cat, parent)[k]
                            && IsShown(found.value) && DisplayName(found.value.name) == leaf
  {
    hide Consistent, DirectoryOk, FatRefines, DataRefines;
    DirectoryKnown(vol.fat, vol.data, cat, parent);
    k := First(DirSlots(vol, cat, parent), Listed(leaf));
    FindAgrees(DirSlots(vol, cat, parent), leaf);
    found := FindInCluster(vol, parent, leaf, cat.chains[parent]);
  }

  /** The entry listed under `leaf` is gone and its chain, at `c`, is free; everything else is as before. */
  ghost predicate Deleted(fat0: Fat, data0: seq<Bytes>, cat: Catalogue, fat: Fat, data: seq<Bytes>, cat': Catalogue,
                          parent: nat, leaf: Bytes, c: nat) {
    var slots := SlotsAt(data0, cat.chains, parent);
    && Kept(data0, cat.chains, data, cat'.chains, {c, parent})
    && (c != 0 ==> c in cat.chains)
    && fat == (if c == 0 then fat0 else Cleared(fat0, cat.chains[c]))
    && cat'.ns.owner == cat.ns.owner - {c}
    && First(slots, Listed(leaf)) < |slots|
    && var slots' := slots[First(slots, Listed(leaf)) := Tombstone(slots[First(slots, Listed(leaf))])];
       && SlotsAt(data, cat'.chains, parent) == slots'
       && parent in cat.chains && SlotsRewritten(data0, data, cat.chains[parent], slots')
       && cat' == WithoutChain(cat, parent, c, slots')
  }

  /** Frees the chain an entry owns and tombstones the entry: the common end of the two delete routines. */
  method FreeAndDelete(vol: Volume, parent: nat, leaf: Bytes, c: nat, ghost cat: Catalogue)
    returns (ok: bool, ghost cat': Catalogue)
    requires IsVolume(vol, cat) && parent in cat.ns.tree
    requires Found(DirSlots(vol, cat, parent), Listed(leaf))
    requires var e := DirSlots(vol, cat, parent)[First(DirSlots(vol, cat, parent), Listed(leaf))];
             IsShown(e) && c == e.Cluster() && (if c == 0 then LinkOf(e) == Nothing else LinkOf(e).Owns(c))
    requires c in cat.ns.tree ==> c != 0 && OwnsNothing(cat.ns.tree[c])
    modifies vol`sectors, vol`fat, vol`data
    ensures ok && IsVolume(vol, cat')
    ensures Deleted(old(vol.fat), old(vol.data), cat, vol.fat, vol.data, cat', parent, leaf, c)
  {
    hide Consistent, Kept, DirectoryOk, FatRefines, DataRefines, LinksOf, GoodSlots, Trail, ChainsOk, ChainSlots,
         First, Judge;
    if c == 0 {
      ok, cat' := DeleteUnowned(vol, parent, leaf, cat);
    } else {
      ok, cat' := DeleteOwned(vol, parent, leaf, c, cat);
    }
  }

  method DeleteOwned(vol: Volume, parent: nat, leaf: Bytes, c: nat, ghost cat: Catalogue)
    returns (ok: bool, ghost cat': Catalogue)
    requires IsVolume(vol, cat) && parent in cat.ns.tree && c != 0
    requires Found(DirSlots(vol, cat, parent), Listed(leaf))
    requires var e := DirSlots(vol, cat, parent)[First(DirSlots(vol, cat, parent), Listed(leaf))];
             IsShown(e) && LinkOf(e).Owns(c)
    requires c in cat.ns.tree ==> OwnsNothing(cat.ns.tree[c])
    modifies vol`sectors, vol`fat, vol`data
    ensures ok && IsVolume(vol, cat')
    ensures Deleted(old(vol.fat), old(vol.data), cat, vol.fat, vol.data, cat', parent, leaf, c)
  {
    hide Consistent, Kept, DirectoryOk, FatRefines, DataRefines, LinksOf, GoodSlots, Trail, ChainsOk, ChainSlots,
         First, Judge, Tombstone, WithoutChain, IsChain, IsShown, Cleared, LoopsThroughAll, ClustersOfSize, Entries28;
    ghost var fat0, data0 := vol.fat, vol.data;
    ghost var slots, k := DirSlots(vol, cat, parent), First(DirSlots(vol, cat, parent), Listed(leaf));
    ConsistentParts(fat0, data0, cat);
    DirectoryKnown(fat0, data0, cat, parent);
    SlotKnown(fat0, data0, cat, parent, k);
    TombstoneFacts(slots, k);
    FreeingAChain(fat0, cat.chains[c]);
    ok := vol.FreeClusterChain(c);
    RemovedKeepsParent(fat0, cat, parent, k, c, vol.fat);
    ok := DeleteInCluster(vol, parent, leaf, cat.chains[parent]);
    cat' := Removed(fat0, data0, cat, parent, k, c, vol.fat, vol.data);
  }

  method DeleteUnowned(vol: Volume, parent: nat, leaf: Bytes, ghost cat: Catalogue)
    returns (ok: bool, ghost cat': Catalogue)
    requires IsVolume(vol, cat) && parent in cat.ns.tree
    requires Found(DirSlots(vol, cat, parent), Listed(leaf))
    requires var e := DirSlots(vol, cat, parent)[First(DirSlots(vol, cat, parent), Listed(leaf))];
             IsShown(e) && LinkOf(e) == Nothing
    modifies vol`sectors, vol`fat, vol`data
    ensures ok && IsVolume(vol, cat')
    ensures Deleted(old(vol.fat), old(vol.data), cat, vol.fat, vol.data, cat', parent, leaf, 0)
  {
    hide Consistent, Kept, DirectoryOk, FatRefines, DataRefines, LinksOf, GoodSlots, Trail, ChainsOk, ChainSlots,
         First, Judge;
    ghost var data0 := vol.data;
    ghost var slots, k := DirSlots(vol, cat, parent), First(DirSlots(vol, cat, parent), Listed(leaf));
    NoChainAtZero(vol.fat, data0, cat);
    DirectoryKnown(vol.fat, data0, cat, parent);
    TombstoneFacts(slots, k);
    ok := DeleteInCluster(vol, parent, leaf, cat.chains[parent]);
    cat' := RemovedUnowned(vol.fat, data0, cat, parent, k, Tombstone(slots[k]), vol.data);
    KeptMore(data0, cat.chains, vol.data, cat'.chains, {parent}, {0, parent});
    WithoutChainIs(cat, parent, 0, slots[k := Tombstone(slots[k])]);
  }

  lemma KeptMore(data: seq<Bytes>, chains: ChainMap, data': seq<Bytes>, chains': ChainMap, some: set<nat>,
                 more: set<nat>)
    requires Kept(data, chains, data', chains', some) && some <= more
    ensures Kept(data, chains, data', chains', more)
  {
  }

  lemma NoChainAtZero(fat: Fat, data: seq<Bytes>, cat: Catalogue)
    requires Consistent(fat, data, cat)
    ensures 0 !in cat.chains && 0 !in cat.ns.owner && 0 !in cat.ns.tree
  {
    ConsistentParts(fat, data, cat);
    forall c | c in cat.chains ensures c != 0 {
      assert ChainOk(fat, cat.chains, c);
      assert InRange(fat, cat.chains[c][0]);
    }
  }

  /** Freeing the chain a slot owns does not touch the directory of the slot. */
  lemma RemovedKeepsParent(fat0: Fat, cat: Catalogue, d: nat, k: nat, c: nat, fat: Fat)
    requires ChainsOk(fat0, cat.chains) && cat.ns.Ok() && cat.chains.Keys == cat.ns.owner.Keys + {cat.ns.root}
    requires d in cat.ns.tree && k < |cat.ns.tree[d]| && cat.ns.tree[d][k].Owns(c)
    requires c in cat.ns.tree ==> OwnsNothing(cat.ns.tree[c])
    requires c in cat.chains && fat == Cleared(fat0, cat.chains[c])
    ensures d != c && d in cat.chains && IsChain(fat, cat.chains[d])
  {
    hide IsChain, Disjoint, Cleared, Namespace.OwnerOk, Namespace.LinkOk;
    ChainsFree(fat0, cat.chains, c, fat);
    assert d != c;
    assert ChainOk(fat, cat.chains - {c}, d);
  }

  /** `file_delete`, once the path has been resolved. */
  method DeleteFile(vol: Volume, parent: nat, leaf: Bytes, ghost cat: Catalogue)
    returns (ok: bool, ghost cat': Catalogue)
    requires IsVolume(vol, cat) && parent in cat.ns.tree
    modifies vol`sectors, vol`fat, vol`data
    ensures IsVolume(vol, cat')
    ensures var found := FindListed(Listing(old(DirSlots(vol, cat, parent))), leaf);
            && ok == (found.Some? && !found.value.IsDirectory())
            && (ok ==> Deleted(old(vol.fat), old(vol.data), cat, vol.fat, vol.data, cat', parent, leaf,
                               found.value.Cluster()))
    ensures !ok ==> vol.fat == old(vol.fat) && vol.data == old(vol.data) && cat' == cat
  {
    hide Consistent, Kept, DirectoryOk, FatRefines, DataRefines, Listing, FindListed;
    cat' := cat;
    var entry;
    ghost var k;
    entry, k := Lookup(vol, parent, leaf, cat);
    if entry.None? || entry.value.IsDirectory() {
      return false, cat';
    }
    SlotKnown(vol.fat, vol.data, cat, parent, k);
    NoChainAtZero(vol.fat, vol.data, cat);
    ok, cat' := FreeAndDelete(vol, parent, leaf, entry.value.Cluster(), cat);
  }

  /** A directory that owns another one is not empty. */
  lemma OwnerIsNotEmpty(fat: Fat, data: seq<Bytes>, cat: Catalogue, d: nat)
    requires Consistent(fat, data, cat) && d in cat.ns.owner
    ensures cat.ns.owner[d].dir in cat.ns.tree && Found(SlotsAt(data, cat.chains, cat.ns.owner[d].dir), NotDot)
  {
    hide ChainsOk, ChainSlots, DisplayName;
    assert cat.ns.OwnerOk(d);
    var home := cat.ns.owner[d];
    DirectoryKnown(fat, data, cat, home.dir);
    ShownIsFound(SlotsAt(data, cat.chains, home.dir), home.slot);
  }

  lemma ShownIsFound(slots: Directory, k: nat)
    requires WellEnded(slots) && k < |slots| && IsShown(slots[k]) && !IsDotName(DisplayName(slots[k].name))
    ensures Found(slots, NotDot)
  {
    MatchIsFound(slots, NotDot, k);
  }

  // ----- what a path has been resolved to -----

  /** The made-up entry for the root directory. */
  function RootEntry(root: nat): DirEntry
    requires root < TWO_32
  {
    NewEntry(Zeros(11), ATTR_DIRECTORY, root)
  }

  /** What `path_lookup` reports: the directory the last component is looked up in (0 if it was not reached), the
      last component, and the entry. */
  datatype Located = Located(parent: nat, leaf: Bytes, entry: Option<DirEntry>)

  /** The answer the root directory gets, which no directory lists: for "/", and for ".." in the root itself. */
  ghost predicate IsRootAnswer(cat: Catalogue, at: Located) {
    && cat.ns.root < TWO_32 && at.parent == cat.ns.root && (at.leaf == [] || at.leaf == DOTDOT)
    && at.entry == Some(RootEntry(cat.ns.root))
  }

  /** An entry is listed where it was looked up, or is the one made up for the root. */
  ghost predicate IsLocated(data: seq<Bytes>, cat: Catalogue, at: Located) {
    at.entry.Some? ==>
      at.parent in cat.ns.tree && (at.entry == EntryIn(data, cat, at.parent, at.leaf) || IsRootAnswer(cat, at))
  }

  lemma RootEntryFacts(root: nat)
    requires root < TWO_32
    ensures RootEntry(root).Cluster() == root && RootEntry(root).IsDirectory()
  {
    AttributeBits();
    ClusterRoundTrip(DirEntry(Zeros(11), ATTR_DIRECTORY, Zeros(8), 0, Zeros(4), 0, 0), root);
  }

  // ----- directory_delete -----

  /** `directory_delete` goes as far as freeing the chain: the entry is a directory that lists nothing but dot
      entries. */
  ghost predicate FreesDirectory(data: seq<Bytes>, cat: Catalogue, entry: Option<DirEntry>) {
    && entry.Some? && entry.value.IsDirectory()
    && !Found(SlotsAt(data, cat.chains, entry.value.Cluster()), NotDot)
  }

  /** The root directory has lost its chain; only its first cluster may have changed. */
  ghost predicate RootFreed(fat0: Fat, data0: seq<Bytes>, cat: Catalogue, fat: Fat, data: seq<Bytes>) {
    && cat.ns.root in cat.chains && fat == Cleared(fat0, cat.chains[cat.ns.root])
    && |data| == |data0| && forall c: nat :: c < |data| && c != cat.ns.root ==> data[c] == data0[c]
  }

  /** What a listed, empty directory at `c` under a name other than a dot name is known to be. */
  lemma ListedDirectory(fat: Fat, data: seq<Bytes>, cat: Catalogue, d: nat, leaf: Bytes)
    requires Consistent(fat, data, cat) && d in cat.ns.tree && !IsDotName(leaf)
    requires EntryIn(data, cat, d, leaf).Some? && EntryIn(data, cat, d, leaf).value.IsDirectory()
    ensures var e, slots := EntryIn(data, cat, d, leaf).value, SlotsAt(data, cat.chains, d);
            && Found(slots, Listed(leaf)) && slots[First(slots, Listed(leaf))] == e && IsShown(e)
            && LinkOf(e) == OwnsDirectory(e.Cluster()) && e.Cluster() != 0 && e.Cluster() != cat.ns.root
            && e.Cluster() in cat.ns.tree
  {
    hide Consistent, Listing, FindListed, ChainSlots, DirectoryOk, ChainsOk, ChainOk, IsChain, LinksOf, Judge;
    DirectoryKnown(fat, data, cat, d);
    var slots := SlotsAt(data, cat.chains, d);
    FindAgrees(slots, leaf);
    FoundName(slots, leaf);
    SlotKnown(fat, data, cat, d, First(slots, Listed(leaf)));
  }

  lemma FoundName(slots: Directory, name: Bytes)
    requires Found(slots, Listed(name))
    ensures First(slots, Listed(name)) < |slots| && DisplayName(slots[First(slots, Listed(name))].name) == name
  {
  }

  /** On a tree whose `..` entries lead to the owners, the directory above this one lists it and is not empty. */
  lemma ParentIsNotEmpty(fat: Fat, data: seq<Bytes>, cat: Catalogue, d: nat)
    requires Consistent(fat, data, cat) && ParentsOk(data, cat) && d in cat.ns.tree
    ensures !FreesDirectory(data, cat, EntryIn(data, cat, d, DOTDOT))
  {
    hide Consistent, Listing, FindListed, SlotsAt;
    assert ParentOk(data, cat, d);
    if d in cat.ns.owner {
      OwnerIsNotEmpty(fat, data, cat, d);
    }
  }

  /** `directory_delete`, once the path has been resolved. The directory must list nothing but dot entries. If it is the
      root, which is then empty, its chain is freed although no entry is found to delete. */
  method RemoveDirectory(vol: Volume, at: Located, ghost cat: Catalogue) returns (ok: bool, ghost cat': Catalogue)
    requires IsVolume(vol, cat) && IsLocated(vol.data, cat, at)
    requires IsDotName(at.leaf) && !IsRootAnswer(cat, at) ==> at.leaf == DOTDOT && ParentsOk(vol.data, cat)
    requires IsRootAnswer(cat, at) && FreesDirectory(vol.data, cat, at.entry) ==>
               vol.geometry.sectorsPerCluster <= vol.geometry.fatStart
    modifies vol`sectors, vol`fat, vol`data
    ensures vol.Valid()
    ensures ok ==> FreesDirectory(old(vol.data), cat, at.entry)
    ensures if !FreesDirectory(old(vol.data), cat, at.entry) then
              !ok && vol.fat == old(vol.fat) && vol.data == old(vol.data) && cat' == cat
            else if at.entry.value.Cluster() == cat.ns.root then
              RootFreed(old(vol.fat), old(vol.data), cat, vol.fat, vol.data) && cat' == cat
            else
              ok && Deleted(old(vol.fat), old(vol.data), cat, vol.fat, vol.data, cat', at.parent, at.leaf,
                            at.entry.value.Cluster())
    ensures FreesDirectory(old(vol.data), cat, at.entry) && at.entry.value.Cluster() == cat.ns.root ==>
              IsRootAnswer(cat, at)
    ensures !(IsRootAnswer(cat, at) && FreesDirectory(old(vol.data), cat, at.entry)) ==> IsVolume(vol, cat')
  {
    hide Consistent, Kept, DirectoryOk, FatRefines, DataRefines, Listing, FindListed, ParentsOk, RootEntry, IsChain,
         ChainsOk, First, Judge, LinkOf, IsShown, ChainSlots, Deleted, LinksOf, OwnsNothing, GoodSlots;
    cat' := cat;
    if at.entry.None? || !at.entry.value.IsDirectory() {
      return false, cat';
    }
    if IsRootAnswer(cat, at) {
      RootEntryFacts(cat.ns.root);
    } else if at.leaf == DOTDOT {
      ParentIsNotEmpty(vol.fat, vol.data, cat, at.parent);
    } else {
      ListedDirectory(vol.fat, vol.data, cat, at.parent, at.leaf);
    }
    var cluster := at.entry.value.Cluster();
    TargetKnown(vol.fat, vol.data, cat, at);
    DirectoryKnown(vol.fat, vol.data, cat, cluster);
    var empty := IsEmpty(vol, cluster, cat.chains[cluster]);
    if !empty {
      return false, cat';
    }
    if cluster == vol.geometry.rootCluster {
      ok := FreeRoot(vol, at.leaf, cat);
    } else {
      EmptyOwnsNothing(DirSlots(vol, cat, cluster));
      ok, cat' := FreeAndDelete(vol, at.parent, at.leaf, cluster, cat);
    }
  }

  /** A directory that has been located is one of the tree. */
  lemma TargetKnown(fat: Fat, data: seq<Bytes>, cat: Catalogue, at: Located)
    requires Consistent(fat, data, cat) && IsLocated(data, cat, at) && at.entry.Some? && at.entry.value.IsDirectory()
    requires IsDotName(at.leaf) && !IsRootAnswer(cat, at) ==> at.leaf == DOTDOT && ParentsOk(data, cat)
    ensures at.entry.value.Cluster() in cat.ns.tree
  {
    hide Consistent, Listing, FindListed, SlotsAt, DirectoryOk, ChainsOk, ChainOk, LinkOf, IsShown, First, Judge;
    ConsistentParts(fat, data, cat);
    if IsRootAnswer(cat, at) {
      RootEntryFacts(cat.ns.root);
    } else if at.leaf == DOTDOT {
      assert ParentOk(data, cat, at.parent);
      OwnerIsNotEmpty(fat, data, cat, at.parent);
    } else {
      ListedDirectory(fat, data, cat, at.parent, at.leaf);
    }
  }

  /** The end of `directory_delete` when the directory is the root: its chain is freed, and then it is searched for an
      entry that is its own. */
  method FreeRoot(vol: Volume, leaf: Bytes, ghost cat: Catalogue) returns (ok: bool)
    requires IsVolume(vol, cat) && vol.geometry.sectorsPerCluster <= vol.geometry.fatStart
    modifies vol`sectors, vol`fat, vol`data
    ensures vol.Valid() && RootFreed(old(vol.fat), old(vol.data), cat, vol.fat, vol.data)
  {
    hide Consistent, DirectoryOk, FatRefines, DataRefines, Trail, ChainsOk, First, Judge;
    ConsistentParts(vol.fat, vol.data, cat);
    DirectoryKnown(vol.fat, vol.data, cat, cat.ns.root);
    ghost var s := cat.chains[cat.ns.root];
    FreeingAChain(vol.fat, s);
    ClearedFirst(vol.fat, s);
    var freed := vol.FreeClusterChain(vol.geometry.rootCluster);
    ok := DeleteInFreed(vol, vol.geometry.rootCluster, leaf);
  }

  lemma ClearedFirst(fat: Fat, s: seq<nat>)
    requires IsChain(fat, s)
    ensures s[0] < |fat| && s[0] >= 2 && |Cleared(fat, s)| == |fat| && Cleared(fat, s)[s[0]] == CLUSTER_FREE
  {
  }

  /** Without its chain the root is no directory: no catalogue makes the volume consistent. */
  lemma RootFreedBreaks(fat0: Fat, data0: seq<Bytes>, cat: Catalogue, fat: Fat, data: seq<Bytes>, cat': Catalogue)
    requires Consistent(fat0, data0, cat) && RootFreed(fat0, data0, cat, fat, data) && cat'.ns.root == cat.ns.root
    ensures !Consistent(fat, data, cat')
  {
    hide Consistent, Namespace.Ok, DirectoryOk, ChainsOk, IsChain;
    ConsistentParts(fat0, data0, cat);
    DirectoryKnown(fat0, data0, cat, cat.ns.root);
    ClearedFirst(fat0, cat.chains[cat.ns.root]);
    if Consistent(fat, data, cat') {
      ConsistentParts(fat, data, cat');
      DirectoryKnown(fat, data, cat', cat.ns.root);
      ChainNotFree(fat, cat'.chains[cat.ns.root]);
      assert false;
    }
  }

  /** Removing what was located leaves a volume with this root consistent, under some catalogue, if and only if it is
      not the root itself with nothing but dot entries listed in it. */
  lemma RemovalKeepsIff(fat0: Fat, data0: seq<Bytes>, cat: Catalogue, at: Located, fat: Fat, data: seq<Bytes>)
    requires Consistent(fat0, data0, cat) && IsRootAnswer(cat, at)
    requires if FreesDirectory(data0, cat, at.entry) then RootFreed(fat0, data0, cat, fat, data)
             else fat == fat0 && data == data0
    ensures (exists cat': Catalogue :: cat'.ns.root == cat.ns.root && Consistent(fat, data, cat'))
            <==> Found(SlotsAt(data0, cat.chains, cat.ns.root), NotDot)
  {
    hide Consistent, RootFreed, SlotsAt, Found, RootEntry;
    RootEntryFacts(cat.ns.root);
    if FreesDirectory(data0, cat, at.entry) {
      forall cat': Catalogue | cat'.ns.root == cat.ns.root ensures !Consistent(fat, data, cat') {
        RootFreedBreaks(fat0, data0, cat, fat, data, cat');
      }
    }
  }
}
