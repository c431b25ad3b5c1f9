/** Address spaces: created from and given back to the frame allocator, mapped and unmapped page by page. */
module AddressSpaces {
  import opened Options
  import opened Frames
  import opened PageTables

  predicate IsUserAddress(address: nat) {
    USER_START <= address < KERNEL_START
  }

  /** What the processor finds for an address in the space `t`. */
  ghost function WalkIn(st: State, t: nat, address: nat): Option<Grant>
    requires t in st.spaces
  {
    Walk(st.memory, st.spaces[t].directory, address)
  }

  ghost predicate SameWalk(st: State, st': State, t: nat, address: nat)
    requires t in st.spaces
  {
    t in st'.spaces && WalkIn(st', t, address) == WalkIn(st, t, address)
  }

  /** Every space of `st` but `s` is still there and translates every address as before. */
  ghost predicate Isolated(st: State, st': State, s: nat) {
    forall t: nat, address: nat :: t in st.spaces && t != s && address < 0x1_0000_0000 ==> SameWalk(st, st', t, address)
  }

  /** Every space of `st` is still there and translates every address as before. */
  ghost predicate SameWalks(st: State, st': State) {
    forall t: nat, address: nat :: t in st.spaces && address < 0x1_0000_0000 ==> SameWalk(st, st', t, address)
  }

  /** What a change of the page of `v` in the space `s` does to one address of one space. */
  ghost predicate ChangesPageAt(st: State, st': State, s: nat, v: nat, page: Option<Grant>, t: nat, address: nat)
    requires t in st.spaces
  {
    && t in st'.spaces
    && WalkIn(st', t, address)
       == if SamePage(address, v) && (t == s || DirectoryIndex(v) == 0) then page else WalkIn(st, t, address)
  }

  /** Exactly the page of `v` changes, to `page`: in the space `s`, and in all spaces if `v` is in the shared first
      table. */
  ghost predicate ChangesPage(st: State, st': State, s: nat, v: nat, page: Option<Grant>) {
    forall t: nat, address: nat :: t in st.spaces && address < 0x1_0000_0000 ==>
              ChangesPageAt(st, st', s, v, page, t, address)
  }

  // ----- frames are neither lost nor gained -----

  /** The frames that are free or in use. */
  ghost function Pool(st: State): set<nat> {
    st.free + st.owner.Keys
  }

  lemma CreatedPool(st: State, s: nat, directory: nat)
    requires s in st.free && directory in st.free && st.kernelDirectory in st.memory
    ensures Pool(Created(st, s, directory)) == Pool(st)
  {
  }

  lemma WithTablePool(st: State, s: nat, i: nat, table: nat)
    requires s in st.spaces && st.spaces[s].directory in st.memory && i < 1024 == |st.spaces[s].tables|
    requires table in st.free
    ensures Pool(WithTable(st, s, i, table)) == Pool(st)
  {
  }

  lemma DestroyedPool(st: State, s: nat)
    ensures Pool(Destroyed(st, s)) == Pool(st)
  {
    assert OwnedBy(st, s) <= st.owner.Keys;
  }

  // ----- what each change does to the translations -----

  /** The processor's view of a space whose directory, and the tables it points to, are the same pages as before. */
  lemma OldSpaceWalk(st: State, s: nat, directory: nat, t: nat, address: nat)
    requires Sound(st) && s in st.free && directory in st.free && s != directory && st.kernelDirectory in st.memory
    requires t in st.spaces && address < 0x1_0000_0000 && s !in st.spaces
    ensures t in Created(st, s, directory).spaces
    ensures WalkIn(Created(st, s, directory), t, address) == WalkIn(st, t, address)
  {
    hide Present, PageBase, TableIndex, Justified;
    InUse(st, t);
    ZeroNotFree(st);
    assert Holds(st, t) && DirectoryIndex(address) < 1024;
    assert MirroredAt(st.memory, st.spaces[t], DirectoryIndex(address));
  }

  lemma NewSpaceWalk(st: State, s: nat, directory: nat, address: nat)
    requires Sound(st) && s in st.free && directory in st.free && s != directory && st.kernelDirectory in st.memory
    requires st.kernel in st.spaces && address < 0x1_0000_0000
    ensures s in Created(st, s, directory).spaces
    ensures WalkIn(Created(st, s, directory), s, address)
            == if DirectoryIndex(address) == 0 then WalkIn(st, st.kernel, address) else None
  {
    hide Present, PageBase, TableIndex, Justified, Holds;
    KernelIsSpace(st);
    assert DirectoryIndex(address) < 1024;
    ZeroAbsent(DirectoryIndex(address));
  }

  /** A new space sees what the kernel sees below 4 MiB and nothing above; the other spaces see what they saw. */
  lemma CreatedWalks(st: State, s: nat, directory: nat)
    requires Sound(st) && s in st.free && directory in st.free && s != directory && st.kernelDirectory in st.memory
    ensures st.kernel in st.spaces && s !in st.spaces && SameWalks(st, Created(st, s, directory))
    ensures forall address: nat :: address < 0x1_0000_0000 ==>
              WalkIn(Created(st, s, directory), s, address)
              == if DirectoryIndex(address) == 0 then WalkIn(st, st.kernel, address) else None
  {
    hide WalkIn, Sound, DirectoryIndex;
    CreatedSound(st, s, directory);
    KernelIsSpace(st);
    var st' := Created(st, s, directory);
    forall address: nat | address < 0x1_0000_0000
      ensures WalkIn(st', s, address) == if DirectoryIndex(address) == 0 then WalkIn(st, st.kernel, address) else None
    {
      NewSpaceWalk(st, s, directory, address);
    }
    forall t: nat, address: nat | t in st.spaces && address < 0x1_0000_0000
      ensures SameWalk(st, st', t, address)
    {
      OldSpaceWalk(st, s, directory, t, address);
    }
  }

  /** A destroyed space takes nothing away from the view of the others. */
  lemma DestroyedWalks(st: State, s: nat)
    ensures Isolated(st, Destroyed(st, s), s)
  {
    hide Walk;
  }

  lemma NewTableWalks(st: State, s: nat, i: nat, table: nat)
    requires Sound(st) && s in st.spaces && 1 <= i < 1024 && table in st.free
    requires |st.spaces[s].tables| == 1024 && st.spaces[s].tables[i] == 0 && st.spaces[s].directory in st.memory
    ensures SameWalks(st, WithTable(st, s, i, table))
  {
    hide Walk, Sound;
    var st' := WithTable(st, s, i, table);
    forall t: nat, address: nat | t in st.spaces && address < 0x1_0000_0000
      ensures SameWalk(st, st', t, address)
    {
      WithTableWalks(st, s, i, table, t, address);
    }
  }

  lemma WrittenChangesPage(st: State, s: nat, v: nat, entry: nat)
    requires Sound(st) && s in st.spaces && v < 0x1_0000_0000 && |st.spaces[s].tables| == 1024
    requires DirectoryIndex(v) < 1024 && st.spaces[s].tables[DirectoryIndex(v)] != 0
    requires st.spaces[s].tables[DirectoryIndex(v)] in st.memory
    ensures ChangesPage(st, Written(st, s, DirectoryIndex(v), TableIndex(v), entry), s, v,
                        Translation(entry, DirectoryIndex(v) == 0))
  {
    hide Walk, Sound, Present, PageBase, TableIndex, DirectoryIndex, Translation;
    var st' := Written(st, s, DirectoryIndex(v), TableIndex(v), entry);
    var grant := Translation(entry, DirectoryIndex(v) == 0);
    forall t: nat, address: nat | t in st.spaces && address < 0x1_0000_0000
      ensures ChangesPageAt(st, st', s, v, grant, t, address)
    {
      WrittenWalks(st, s, DirectoryIndex(v), TableIndex(v), entry, t, address);
    }
  }

  /** Where a space has no table, it has no page. */
  lemma NoTableNoPage(st: State, s: nat, v: nat)
    requires Sound(st) && s in st.spaces && v < 0x1_0000_0000 && |st.spaces[s].tables| == 1024
    requires DirectoryIndex(v) < 1024 && st.spaces[s].tables[DirectoryIndex(v)] == 0
    ensures ChangesPage(st, st, s, v, None) && DirectoryIndex(v) != 0
  {
    hide Present, PageBase, TableIndex, Justified;
    assert Holds(st, s);
    ZeroNotFree(st);
    assert MirroredAt(st.memory, st.spaces[s], DirectoryIndex(v));
  }

  lemma ThenChangesPage(st: State, st1: State, st2: State, s: nat, v: nat, page: Option<Grant>)
    requires SameWalks(st, st1) && ChangesPage(st1, st2, s, v, page)
    ensures ChangesPage(st, st2, s, v, page)
  {
    forall t: nat, address: nat | t in st.spaces && address < 0x1_0000_0000
      ensures ChangesPageAt(st, st2, s, v, page, t, address)
    {
      assert SameWalk(st, st1, t, address);
      assert t in st1.spaces && ChangesPageAt(st1, st2, s, v, page, t, address);
    }
  }

  /** Removing the page of `v` leaves the other spaces alone exactly when `v` is above the shared first table, or they
      had no page there. */
  lemma UnmapIsolatesIff(st: State, st': State, s: nat, v: nat)
    requires Sound(st) && s in st.spaces && v < 0x1_0000_0000 && ChangesPage(st, st', s, v, None)
    ensures Isolated(st, st', s) <==> v >= USER_START || st.spaces.Keys == {s} || WalkIn(st, s, v) == None
  {
    hide Walk, TableIndex, Sound;
    forall t: nat, address: nat | t in st.spaces && address < 0x1_0000_0000 && SamePage(address, v)
      ensures v < USER_START ==> WalkIn(st, t, address) == WalkIn(st, s, v)
    {
      if v < USER_START {
        FirstTableSame(st, s, t, v, address);
      }
    }
    assert v >= USER_START <==> DirectoryIndex(v) != 0;
    if v < USER_START && st.spaces.Keys != {s} && WalkIn(st, s, v) != None {
      var t :| t in st.spaces && t != s;
      assert ChangesPageAt(st, st', s, v, None, t, v);
      assert Isolated(st, st', s) ==> SameWalk(st, st', t, v);
    } else {
      forall t: nat, address: nat | t in st.spaces && t != s && address < 0x1_0000_0000
        ensures SameWalk(st, st', t, address)
      {
        assert ChangesPageAt(st, st', s, v, None, t, address);
      }
    }
  }

  /** All spaces have the same pages in the first 4 MiB. */
  lemma FirstTableSame(st: State, s: nat, t: nat, v: nat, address: nat)
    requires Sound(st) && s in st.spaces && t in st.spaces && SamePage(address, v) && v < USER_START
    ensures WalkIn(st, t, address) == WalkIn(st, s, v)
  {
    hide Present, Writable, ForUsers, PageBase, TableIndex, Justified;
    assert Holds(st, s) && Holds(st, t);
    FirstTableShared(st, s, t);
    ZeroNotFree(st);
    assert DirectoryIndex(v) == 0 && DirectoryIndex(address) == 0;
    assert MirroredAt(st.memory, st.spaces[s], 0) && MirroredAt(st.memory, st.spaces[t], 0);
    DirectoryRights(st.memory, st.spaces[s], 0);
    DirectoryRights(st.memory, st.spaces[t], 0);
  }

  /** No space lets users into the first 4 MiB. */
  lemma NoUsersBelow(st: State, s: nat, address: nat)
    requires Sound(st) && s in st.spaces && address < USER_START
    ensures WalkIn(st, s, address).Some? ==> !WalkIn(st, s, address).value.user
  {
    hide Present, Writable, ForUsers, PageBase, TableIndex, Justified;
    assert Holds(st, s);
    ZeroNotFree(st);
    assert DirectoryIndex(address) == 0;
    assert MirroredAt(st.memory, st.spaces[s], 0);
    DirectoryRights(st.memory, st.spaces[s], 0);
  }

  // ----- giving frames back -----

  /** The tables of entries 1 up to `n`. */
  ghost function TablesUpTo(tables: seq<nat>, n: nat): set<nat>
    requires n <= |tables|
  {
    set k | 1 <= k < n && tables[k] != 0 :: tables[k]
  }

  lemma TablesStep(tables: seq<nat>, n: nat)
    requires 1 <= n < |tables|
    ensures TablesUpTo(tables, n + 1) == TablesUpTo(tables, n) + (if tables[n] != 0 then {tables[n]} else {})
  {
  }

  /** The frames the record of a space mentions: its tables but for the shared one, and, unless it is the kernel's, its
      directory and the record itself. */
  ghost function FramesOf(st: State, s: nat): set<nat>
    requires s in st.spaces && |st.spaces[s].tables| == 1024
  {
    TablesUpTo(st.spaces[s].tables, 1024) + if s == st.kernel then {} else {st.spaces[s].directory, s}
  }

  /** They are the frames recorded as its own. */
  lemma OwnedFrames(st: State, s: nat)
    requires Sound(st) && s in st.spaces
    ensures |st.spaces[s].tables| == 1024 && OwnedBy(st, s) == FramesOf(st, s)
  {
    hide Mirrored;
    InUse(st, s);
    assert Holds(st, s);
    forall a | a in OwnedBy(st, s) ensures a in FramesOf(st, s) {
      assert Justified(st, a);
    }
  }

  /** The frames all the spaces mention. */
  ghost function FramesInUse(st: State): set<nat>
    requires forall s :: s in st.spaces ==> |st.spaces[s].tables| == 1024
  {
    set s, a | s in st.spaces && a in FramesOf(st, s) :: a
  }

  /** No frame stands in the arrays, directories or records of two spaces, or at two places of one, and none of them is
      free; what is not free is in use by a space, so no frame is lost. */
  lemma FramesPartition(st: State)
    requires Sound(st)
    ensures forall s :: s in st.spaces ==> |st.spaces[s].tables| == 1024
    ensures forall s, t :: s in st.spaces && t in st.spaces && s != t ==> FramesOf(st, s) !! FramesOf(st, t)
    ensures forall s :: s in st.spaces ==> FramesOf(st, s) !! st.free
    ensures forall s :: s in st.spaces && s != st.kernel ==>
              s != st.spaces[s].directory && {st.spaces[s].directory, s} !! TablesUpTo(st.spaces[s].tables, 1024)
    ensures forall s, i, j :: s in st.spaces && 1 <= i < j < 1024 && st.spaces[s].tables[i] != 0 ==>
              st.spaces[s].tables[i] != st.spaces[s].tables[j]
    ensures Pool(st) == st.free + FramesInUse(st)
  {
    hide *;
    forall s | s in st.spaces ensures |st.spaces[s].tables| == 1024 && FramesOf(st, s) !! st.free {
      OwnedFrames(st, s);
      OwnedNotFree(st, s);
    }
    forall s, t | s in st.spaces && t in st.spaces && s != t ensures FramesOf(st, s) !! FramesOf(st, t) {
      OwnedFrames(st, s);
      OwnedFrames(st, t);
      OwnedApart(st, s, t);
    }
    forall s, i, j | s in st.spaces && 1 <= i < j < 1024 && st.spaces[s].tables[i] != 0
      ensures st.spaces[s].tables[i] != st.spaces[s].tables[j]
    {
      if st.spaces[s].tables[i] == st.spaces[s].tables[j] {
        TablesDiffer(st, s, i, s, j);
      }
    }
    forall s | s in st.spaces && s != st.kernel
      ensures s != st.spaces[s].directory && {st.spaces[s].directory, s} !! TablesUpTo(st.spaces[s].tables, 1024)
    {
      RecordApart(st, s);
    }
    PoolInUse(st);
  }

  lemma RecordApart(st: State, s: nat)
    requires Sound(st) && s in st.spaces && s != st.kernel && |st.spaces[s].tables| == 1024
    ensures s != st.spaces[s].directory && {st.spaces[s].directory, s} !! TablesUpTo(st.spaces[s].tables, 1024)
  {
    hide Mirrored;
    assert Holds(st, s);
  }

  lemma OwnedNotFree(st: State, s: nat)
    requires Sound(st)
    ensures OwnedBy(st, s) !! st.free
  {
    hide Holds, Justified;
  }

  lemma OwnedApart(st: State, s: nat, t: nat)
    requires s != t
    ensures OwnedBy(st, s) !! OwnedBy(st, t)
  {
  }

  lemma PoolInUse(st: State)
    requires Sound(st) && forall s :: s in st.spaces ==> |st.spaces[s].tables| == 1024
    ensures Pool(st) == st.free + FramesInUse(st)
  {
    hide Sound, FramesOf, Mirrored;
    forall a | a in st.owner ensures a in FramesInUse(st) {
      OwnerExists(st, a);
      OwnedFrames(st, st.owner[a].space);
      assert a in OwnedBy(st, st.owner[a].space);
    }
    forall a | a in FramesInUse(st) ensures a in st.owner {
      var s :| s in st.spaces && a in FramesOf(st, s);
      OwnedFrames(st, s);
    }
  }

  lemma OwnerExists(st: State, a: nat)
    requires Sound(st) && a in st.owner
    ensures st.owner[a].space in st.spaces
  {
    assert Justified(st, a);
  }

  // ----- at boot -----

  /** The table for the first 4 MiB: every page but the first maps to itself, those of the kernel image read-only. */
  ghost predicate IsFirstTable(page: Page, imageStart: nat, imageEnd: nat) {
    forall k :: 0 <= k < 1024 ==>
      page[k] == if k == 0 then 0 else if imageStart <= k < imageEnd then 4096 * k + 1 else 4096 * k + 3
  }

  ghost function Booted(kernel: nat, kernelDirectory: nat, firstTable: nat, page: Page, free: set<nat>): State {
    State(map[kernelDirectory := ZeroPage()[0 := Entry(firstTable, 3)]][firstTable := page],
          map[kernel := Space(kernelDirectory, FreshTables(firstTable))], map[], free,
          kernel, kernelDirectory, firstTable)
  }

  /** What the boot code relies on: the kernel's own record, directory and table lie outside the free frames. */
  ghost predicate Apart(kernel: nat, kernelDirectory: nat, firstTable: nat, free: set<nat>) {
    && kernel != 0 && Aligned(kernelDirectory) && Aligned(firstTable) && kernelDirectory != firstTable
    && kernel !in free && kernelDirectory !in free && firstTable !in free
  }

  lemma BootedSound(kernel: nat, kernelDirectory: nat, firstTable: nat, page: Page, free: set<nat>)
    requires Apart(kernel, kernelDirectory, firstTable, free) && forall a :: a in free ==> Aligned(a)
    ensures Sound(Booted(kernel, kernelDirectory, firstTable, page, free))
  {
    hide Present, PageBase;
    var st := Booted(kernel, kernelDirectory, firstTable, page, free);
    FirstEntry(firstTable);
    forall i | 0 <= i < 1024 ensures MirroredAt(st.memory, st.spaces[kernel], i) {
      ZeroAbsent(i);
    }
    assert Holds(st, kernel);
  }

  lemma FirstEntry(table: nat)
    requires Aligned(table)
    ensures Entry(table, 3) % 4096 == 3 && PageBase(Entry(table, 3)) == table
  {
    EntryParts(table, 3);
  }

  /** The kernel sees its first 4 MiB where they are, but for page 0, and nothing else. */
  lemma BootedWalks(kernel: nat, kernelDirectory: nat, firstTable: nat, page: Page, free: set<nat>, imageStart: nat,
                    imageEnd: nat, address: nat)
    requires Apart(kernel, kernelDirectory, firstTable, free) && IsFirstTable(page, imageStart, imageEnd)
    requires address < 0x1_0000_0000
    ensures WalkIn(Booted(kernel, kernelDirectory, firstTable, page, free), kernel, address)
            == if 4096 <= address < USER_START
               then Some(Grant(PageBase(address), !(imageStart <= address / 4096 < imageEnd), false)) else None
  {
    hide Present, Writable, ForUsers, PageBase, Entry;
    FirstEntry(firstTable);
    FlagBits(Entry(firstTable, 3), 3);
    SmallFlags();
    assert DirectoryIndex(address) < 1024;
    if DirectoryIndex(address) == 0 {
      IdentityEntry(page, imageStart, imageEnd, address);
    } else {
      ZeroAbsent(DirectoryIndex(address));
    }
  }

  lemma IdentityEntry(page: Page, imageStart: nat, imageEnd: nat, address: nat)
    requires IsFirstTable(page, imageStart, imageEnd) && address < USER_START
    ensures Present(page[TableIndex(address)]) <==> address >= 4096
    ensures address >= 4096 ==> PageBase(page[TableIndex(address)]) == PageBase(address)
                                && (Writable(page[TableIndex(address)]) <==> !(imageStart <= address / 4096 < imageEnd))
  {
    hide Present, Writable, ForUsers;
    var k := address / 4096;
    assert TableIndex(address) == k;
    assert PageBase(address) == 4096 * k;
    PageAndFlags(k);
    FlagBits(4096 * k + 1, 1);
    FlagBits(4096 * k + 3, 3);
    SmallFlags();
  }

  lemma PageAndFlags(k: nat)
    ensures (4096 * k + 1) % 4096 == 1 && (4096 * k + 3) % 4096 == 3
    ensures PageBase(4096 * k + 1) == PageBase(4096 * k + 3) == 4096 * k
  {
  }

  /** The space has a table for the address. */
  ghost predicate HasTable(st: State, s: nat, v: nat) {
    s in st.spaces && DirectoryIndex(v) < |st.spaces[s].tables| && st.spaces[s].tables[DirectoryIndex(v)] != 0
  }

  /** The entry for the address in the table of the space. */
  ghost function EntryOf(st: State, s: nat, v: nat): nat {
    if HasTable(st, s, v) && st.spaces[s].tables[DirectoryIndex(v)] in st.memory
    then st.memory[st.spaces[s].tables[DirectoryIndex(v)]][TableIndex(v)] else 0
  }

  /** Every address has an entry in the directory, and a user address one that is not shared. */
  lemma DirectoryRange(v: nat)
    requires v < 0x1_0000_0000
    ensures DirectoryIndex(v) < 1024
    ensures IsUserAddress(v) ==> DirectoryIndex(v) != 0
  {
  }

  /** After a new table, or none, one entry is written. */
  lemma MapEffect(st: State, st1: State, s: nat, v: nat, entry: nat)
    requires Conserves(st, st1, s) && SameWalks(st, st1) && s in st1.spaces && v < 0x1_0000_0000
    requires HasTable(st1, s, v)
    ensures DirectoryIndex(v) < 1024 == |st1.spaces[s].tables| && st1.spaces[s].tables[DirectoryIndex(v)] in st1.memory
    ensures var st2 := Written(st1, s, DirectoryIndex(v), TableIndex(v), entry);
            && Conserves(st, st2, s) && ChangesPage(st, st2, s, v, Translation(entry, DirectoryIndex(v) == 0))
            && EntryOf(st2, s, v) == entry
  {
    hide Walk, Sound, Present, PageBase, TableIndex, DirectoryIndex, SameWalks, ChangesPage, Translation;
    DirectoryRange(v);
    InUse(st1, s);
    var st2 := Written(st1, s, DirectoryIndex(v), TableIndex(v), entry);
    WrittenConserves(st1, s, s, DirectoryIndex(v), TableIndex(v), entry);
    ConservesTransitive(st, st1, st2, s);
    WrittenChangesPage(st1, s, v, entry);
    ThenChangesPage(st, st1, st2, s, v, Translation(entry, DirectoryIndex(v) == 0));
  }

  lemma NothingHappens(st: State, s: nat)
    requires Sound(st)
    ensures Conserves(st, st, s) && SameWalks(st, st)
  {
    hide Sound, Walk;
  }

  /** The page the flags ask for, with the rights they ask for. */
  ghost function Mapped(physical: nat, flags: nat): Option<Grant> {
    if Present(flags) then Some(Grant(MappedPage(physical, flags), Writable(flags), ForUsers(flags))) else None
  }

  /** With flags made of the three constants the page asked for is granted, for exactly what they say. */
  lemma FlagsGrant(physical: nat, writable: bool, user: bool)
    ensures var rights := (if writable then PAGE_WRITABLE else 0) + (if user then PAGE_USER else 0);
            && Mapped(physical, PAGE_PRESENT + rights) == Some(Grant(PageBase(physical), writable, user))
            && Mapped(physical, rights) == None
  {
  }

  lemma TranslationOf(physical: nat, flags: nat)
    ensures Translation(Entry(physical, flags), false) == Mapped(physical, flags)
  {
    hide Entry, PageBase, MappedPage, Present, Writable, ForUsers;
    EntryParts(physical, flags);
    FlagBits(Entry(physical, flags), flags);
  }

  /** An address of a frame the allocator manages. */
  ghost predicate Managed(a: nat, total: nat) {
    a != 0 && a % 4096 == 0 && FrameOf(a) < total
  }

  ghost predicate AllManaged(pool: set<nat>, total: nat) {
    forall a :: a in pool ==> Managed(a, total)
  }

  /** The address spaces that exist, the active one, and the frames they share with the allocator. */
  class Mapper {
    const frames: FrameAllocator
    const kernel: nat
    const kernelDirectory: nat
    const firstTable: nat
    var memory: map<nat, Page>
    var spaces: map<nat, Space>
    var current: nat
    ghost var owner: map<nat, Role>
    /** The frames this class and the allocator share out. */
    ghost const pool: set<nat>

    ghost function State(): State
      reads this, frames
    {
      PageTables.State(memory, spaces, owner, frames.free, kernel, kernelDirectory, firstTable)
    }

    /** Every frame of the pool is free or used for one thing; the active space is one that exists. */
    ghost predicate Valid()
      reads this, frames, frames.bitmap
    {
      && frames.Valid()
      && Sound(State())
      && Pool(State()) == pool && AllManaged(pool, frames.totalFrames)
      && current in spaces
    }

    /** An array of table addresses with the shared table alone. */
    static method NewTables(firstTable: nat) returns (tables: seq<nat>)
      ensures tables == FreshTables(firstTable)
    {
      tables := [];
      while |tables| < 1024
        invariant |tables| <= 1024 && forall k :: 0 <= k < |tables| ==> tables[k] == 0
      {
        tables := tables + [0];
      }
      tables := tables[0 := firstTable];
      assert tables == FreshTables(firstTable);
    }

    /** A page of zeros. */
    static method ZeroedPage() returns (page: Page)
      ensures page == ZeroPage()
    {
      var entries: seq<nat> := [];
      while |entries| < 1024
        invariant |entries| <= 1024 && forall k :: 0 <= k < |entries| ==> entries[k] == 0
      {
        entries := entries + [0];
      }
      page := entries;
      assert page == ZeroPage();
    }

    /** Two frames, or none: the lowest two that are free. */
    method AllocTwo(heapAvailable: bool) returns (s: nat, directory: nat)
      requires frames.Valid()
      modifies frames`free, frames.bitmap
      ensures frames.Valid()
      ensures s == 0 ==> frames.free == old(frames.free)
      ensures s == 0 <==> !heapAvailable || forall a, b :: a in old(frames.free) && b in old(frames.free) ==> a == b
      ensures s != 0 ==> s in old(frames.free) && directory in old(frames.free) && s < directory
                         && frames.free == old(frames.free) - {s, directory}
                         && forall a :: a in frames.free ==> directory < a
    {
      directory := 0;
      s := frames.AllocFrame();
      if s == 0 {
        return;
      }
      if !heapAvailable {
        frames.FreeFrame(s);
        s := 0;
        return;
      }
      directory := frames.AllocFrame();
      if directory == 0 {
        frames.FreeFrame(s);
        s := 0;
        return;
      }
    }

    /** `paging_init` and `address_space_init`: the kernel's space is the only one, and active. */
    constructor (frames: FrameAllocator, kernel: nat, kernelDirectory: nat, firstTable: nat, page: Page)
      requires frames.Valid() && Apart(kernel, kernelDirectory, firstTable, frames.free)
      ensures Valid() && this.frames == frames && pool == frames.free && current == kernel
      ensures State() == Booted(kernel, kernelDirectory, firstTable, page, frames.free)
    {
      hide Frames.Used, Sound;
      this.frames, this.kernel, this.kernelDirectory, this.firstTable := frames, kernel, kernelDirectory, firstTable;
      var directory := ZeroedPage();
      var tables := NewTables(firstTable);
      memory := map[kernelDirectory := directory[0 := Entry(firstTable, 3)]][firstTable := page];
      spaces := map[kernel := Space(kernelDirectory, tables)];
      current, owner, pool := kernel, map[], frames.free;
      BootedSound(kernel, kernelDirectory, firstTable, page, frames.free);
    }

    /** `address_space_create`: a space sharing the first table, or nothing at all when a frame or the heap runs out. */
    method Create(heapAvailable: bool) returns (s: nat)
      requires Valid()
      modifies this`memory, this`spaces, this`owner, frames`free, frames.bitmap
      ensures Valid()
      ensures s == 0 <==> !heapAvailable || forall a, b :: a in old(frames.free) && b in old(frames.free) ==> a == b
      ensures s == 0 ==> State() == old(State())
      ensures s != 0 ==> s in old(frames.free) && s in spaces
                         && var directory := spaces[s].directory;
                            && directory in old(frames.free) && s < directory
                            && kernelDirectory in old(memory) && State() == Created(old(State()), s, directory)
                            && forall a :: a in frames.free ==> directory < a
    {
      hide Sound;
      KernelIsSpace(State());
      var directory;
      s, directory := AllocTwo(heapAvailable);
      if s == 0 {
        return;
      }
      assert frames.free + {s, directory} == old(frames.free);
      assert State().(free := frames.free + {s, directory}) == old(State());
      Adopt(s, directory);
    }

    /** Fills in the record and the directory of a new space. */
    method Adopt(s: nat, directory: nat)
      requires frames.Valid() && current in spaces && s !in frames.free && directory !in frames.free && s != directory
      requires kernelDirectory in memory && AllManaged(pool, frames.totalFrames)
      requires Sound(State().(free := frames.free + {s, directory}))
      requires Pool(State().(free := frames.free + {s, directory})) == pool
      modifies this`memory, this`spaces, this`owner
      ensures Valid() && State() == Created(old(State()).(free := frames.free + {s, directory}), s, directory)
    {
      hide Sound;
      ghost var st := State().(free := frames.free + {s, directory});
      CreatedSound(st, s, directory);
      CreatedPool(st, s, directory);
      var page := ZeroedPage();
      memory := memory[directory := page[0 := memory[kernelDirectory][0]]];
      var tables := NewTables(firstTable);
      spaces := spaces[s := Space(directory, tables)];
      owner := owner[s := Head(s)][directory := Directory(s)];
      assert State() == Created(st, s, directory);
    }

    /** `address_space_activate`. */
    method Activate(s: nat)
      requires Valid() && (s == 0 || s in spaces)
      modifies this`current
      ensures Valid() && current == if s == 0 then old(current) else s
    {
      hide Sound;
      if s != 0 {
        current := s;
      }
    }

    /** `address_space_destroy`: the frames of the space are free again; nothing happens to the kernel's space and the
        active one. */
    method Destroy(s: nat)
      requires Valid() && (s == 0 || s in spaces)
      modifies this`spaces, this`owner, frames`free, frames.bitmap
      ensures Valid()
      ensures State() == if s == 0 || s == kernel || s == current then old(State()) else Destroyed(old(State()), s)
      ensures Isolated(old(State()), State(), s)
    {
      hide Sound, WalkIn;
      if s == 0 || s == kernel || s == current {
        return;
      }
      ghost var st := State();
      DestroyedSound(st, s);
      DestroyedPool(st, s);
      OwnedFrames(st, s);
      OwnedManaged(st, s, frames.totalFrames);
      FreeFramesOf(s, spaces[s]);
      Forget(s);
      assert State() == Destroyed(st, s);
      DestroyedWalks(st, s);
    }

    /** Frees the tables, the directory and the record. */
    method FreeFramesOf(s: nat, space: Space)
      requires frames.Valid() && |space.tables| == 1024
      requires AllManaged(TablesUpTo(space.tables, 1024) + {space.directory, s}, frames.totalFrames)
      modifies frames`free, frames.bitmap
      ensures frames.Valid()
      ensures frames.free == old(frames.free) + (TablesUpTo(space.tables, 1024) + {space.directory, s})
    {
      FreeTables(space.tables);
      frames.FreeFrame(space.directory);
      frames.FreeFrame(s);
    }

    method FreeTables(tables: seq<nat>)
      requires frames.Valid() && |tables| == 1024 && AllManaged(TablesUpTo(tables, 1024), frames.totalFrames)
      modifies frames`free, frames.bitmap
      ensures frames.Valid() && frames.free == old(frames.free) + TablesUpTo(tables, 1024)
    {
      hide TablesUpTo;
      var i := 1;
      NoTablesYet(tables);
      while i < 1024
        invariant 1 <= i <= 1024 && frames.Valid()
        invariant frames.free == old(frames.free) + TablesUpTo(tables, i)
      {
        TablesStep(tables, i);
        TableIsManaged(tables, i, frames.totalFrames);
        if tables[i] != 0 {
          frames.FreeFrame(tables[i]);
        }
        i := i + 1;
      }
    }

    /** `vmm_create_page_table` for the active space. */
    method CreateTable(i: nat) returns (table: nat)
      requires Valid() && 1 <= i < 1024 == |spaces[current].tables| && spaces[current].tables[i] == 0
      modifies this`memory, this`spaces, this`owner, frames`free, frames.bitmap
      ensures Valid()
      ensures table == 0 <==> old(frames.free) == {}
      ensures table == 0 ==> State() == old(State())
      ensures table != 0 ==> table in old(frames.free) && old(spaces[current].directory) in old(memory)
                             && State() == WithTable(old(State()), current, i, table)
                             && forall a :: a in frames.free ==> table < a
    {
      hide Sound;
      InUse(State(), current);
      table := frames.AllocFrame();
      if table != 0 {
        assert frames.free + {table} == old(frames.free);
        assert State().(free := frames.free + {table}) == old(State());
        Attach(i, table);
      } else {
        assert State() == old(State());
      }
    }

    /** Fills in a new table and enters it in the directory and the array. */
    method Attach(i: nat, table: nat)
      requires frames.Valid() && current in spaces && AllManaged(pool, frames.totalFrames) && table !in frames.free
      requires 1 <= i < 1024 == |spaces[current].tables| && spaces[current].tables[i] == 0
      requires spaces[current].directory in memory
      requires Sound(State().(free := frames.free + {table})) && Pool(State().(free := frames.free + {table})) == pool
      modifies this`memory, this`spaces, this`owner
      ensures Valid() && State() == WithTable(old(State()).(free := frames.free + {table}), current, i, table)
    {
      hide Sound;
      ghost var st := State().(free := frames.free + {table});
      WithTableSound(st, current, i, table);
      WithTablePool(st, current, i, table);
      var page := ZeroedPage();
      var space := spaces[current];
      memory := memory[table := page][space.directory := memory[space.directory][i := Entry(table, 7)]];
      spaces := spaces[current := space.(tables := space.tables[i := table])];
      owner := owner[table := Table(current, i)];
      assert State() == WithTable(st, current, i, table);
    }

    /** Writes one entry of a table of the active space. */
    method WriteEntry(i: nat, j: nat, entry: nat)
      requires Valid() && i < 1024 == |spaces[current].tables| && j < 1024 && spaces[current].tables[i] != 0
      requires spaces[current].tables[i] in memory
      modifies this`memory
      ensures Valid() && State() == Written(old(State()), current, i, j, entry)
    {
      hide Sound;
      WrittenSound(State(), current, i, j, entry);
      var table := spaces[current].tables[i];
      memory := memory[table := memory[table][j := entry]];
    }

    /** Finds or creates the table for a user address in the active space. */
    method TableFor(v: nat) returns (ok: bool)
      requires Valid() && v < 0x1_0000_0000 && IsUserAddress(v)
      modifies this`memory, this`spaces, this`owner, frames`free, frames.bitmap
      ensures Valid() && Conserves(old(State()), State(), current) && SameWalks(old(State()), State())
      ensures ok == HasTable(State(), current, v)
      ensures ok <==> HasTable(old(State()), current, v) || old(frames.free) != {}
      ensures !ok || HasTable(old(State()), current, v) ==> State() == old(State())
      ensures ok && !HasTable(old(State()), current, v) ==>
                exists table :: table in old(frames.free) && frames.free == old(frames.free) - {table}
                                && forall a :: a in frames.free ==> table < a
    {
      hide Sound, Walk, SameWalks, DirectoryIndex, OwnedBy;
      DirectoryRange(v);
      InUse(State(), current);
      NothingHappens(State(), current);
      var i := DirectoryIndex(v);
      ok := spaces[current].tables[i] != 0;
      if !ok {
        ghost var st := State();
        var table := CreateTable(i);
        ok := table != 0;
        if ok {
          NewTableWalks(st, current, i, table);
          WithTableConserves(st, current, i, table);
        }
      }
    }

    /** `vmm_map_page`: outside the user range, or without a frame for a table it needs, nothing happens; otherwise the
        page of `v` in the active space is the page of `physical`, as long as the flags stay below 4096, and no other
        page of any space changes. */
    method MapPage(v: nat, physical: nat, flags: nat)
      requires Valid() && v < 0x1_0000_0000
      modifies this`memory, this`spaces, this`owner, frames`free, frames.bitmap
      ensures Valid() && Conserves(old(State()), State(), current) && frames.free <= old(frames.free)
      ensures if IsUserAddress(v) && (HasTable(old(State()), current, v) || old(frames.free) != {})
              then && ChangesPage(old(State()), State(), current, v, Mapped(physical, flags))
                   && EntryOf(State(), current, v) == MappedPage(physical, flags) + flags % 4096
              else State() == old(State())
      ensures HasTable(old(State()), current, v) ==> frames.free == old(frames.free)
      ensures HasTable(State(), current, v) && !HasTable(old(State()), current, v) ==>
                exists table :: table in old(frames.free) && frames.free == old(frames.free) - {table}
                                && forall a :: a in frames.free ==> table < a
    {
      hide Sound, Walk, SameWalks, ChangesPage, DirectoryIndex, TableIndex, Conserves, Translation, Entry, PageBase;
      NothingHappens(State(), current);
      if !IsUserAddress(v) {
        return;
      }
      var ok := TableFor(v);
      if !ok {
        return;
      }
      DirectoryRange(v);
      TranslationOf(physical, flags);
      EntryIs(physical, flags);
      MapEffect(old(State()), State(), current, v, Entry(physical, flags));
      WriteEntry(DirectoryIndex(v), TableIndex(v), Entry(physical, flags));
    }

    /** `vmm_unmap_page`, which does not look at the range: the page of `v` is gone, from every space if it lies in the
        shared first table. */
    method UnmapPage(v: nat)
      requires Valid() && v < 0x1_0000_0000
      modifies this`memory
      ensures Valid() && ChangesPage(old(State()), State(), current, v, None)
      ensures Conserves(old(State()), State(), current) && spaces == old(spaces) && owner == old(owner)
    {
      hide Sound, Walk, SameWalks, ChangesPage, DirectoryIndex, TableIndex, Conserves, Translation;
      DirectoryRange(v);
      InUse(State(), current);
      NothingHappens(State(), current);
      if spaces[current].tables[DirectoryIndex(v)] == 0 {
        NoTableNoPage(State(), current, v);
        return;
      }
      MapEffect(State(), State(), current, v, 0);
      NothingTranslated();
      WriteEntry(DirectoryIndex(v), TableIndex(v), 0);
    }

    /** `vmm_get_physical_address`: the page the processor finds, 0 if none. */
    method Translate(v: nat) returns (physical: nat)
      requires Valid() && v < 0x1_0000_0000
      ensures physical == match WalkIn(State(), current, v) case None => 0 case Some(grant) => grant.page
    {
      hide Sound, Walk, DirectoryIndex, TableIndex, PageBase, Present;
      DirectoryRange(v);
      InUse(State(), current);
      TranslationsAgree(State(), current, v);
      ZeroNoPage(State());
      var table := spaces[current].tables[DirectoryIndex(v)];
      if table == 0 {
        return 0;
      }
      var entry := memory[table][TableIndex(v)];
      if !Present(entry) {
        return 0;
      }
      physical := PageBase(entry);
    }

    method Forget(s: nat)
      modifies this`spaces, this`owner
      ensures spaces == old(spaces) - {s} && owner == old(owner) - OwnedBy(old(State()), s)
    {
      ghost var frames' := OwnedBy(State(), s);
      spaces, owner := spaces - {s}, owner - frames';
    }
  }

  lemma NothingTranslated()
    ensures Translation(0, true) == Translation(0, false) == None
  {
  }

  lemma ZeroNoPage(st: State)
    requires Sound(st)
    ensures 0 !in st.memory
  {
    hide Holds, Justified;
  }

  lemma NoTablesYet(tables: seq<nat>)
    requires |tables| == 1024
    ensures TablesUpTo(tables, 1) == {}
  {
  }

  lemma TableIsManaged(tables: seq<nat>, i: nat, total: nat)
    requires 1 <= i < 1024 == |tables| && AllManaged(TablesUpTo(tables, 1024), total)
    ensures tables[i] != 0 ==> Managed(tables[i], total)
  {
    assert tables[i] != 0 ==> tables[i] in TablesUpTo(tables, 1024);
  }

  lemma OwnedManaged(st: State, s: nat, total: nat)
    requires AllManaged(Pool(st), total)
    ensures AllManaged(OwnedBy(st, s), total)
  {
    hide Managed;
  }
}
