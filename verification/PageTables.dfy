/** Two-level page tables, kept twice: as the directory the processor walks and as an array of table addresses. */
module PageTables {
  import opened Options

  const USER_START: nat := 0x0040_0000
  const KERNEL_START: nat := 0xC000_0000
  const PAGE_PRESENT: nat := 1
  const PAGE_WRITABLE: nat := 2
  const PAGE_USER: nat := 4

  type Page = p: seq<nat> | |p| == 1024 witness seq(1024, _ => 0)

  function ZeroPage(): Page {
    seq<nat>(1024, _ => 0)
  }

  // ----- entries and addresses -----

  predicate Present(entry: nat) {
    entry % 2 == 1
  }

  predicate Writable(entry: nat) {
    entry / 2 % 2 == 1
  }

  /** Programs outside the kernel may use what the entry points to. */
  predicate ForUsers(entry: nat) {
    entry / 4 % 2 == 1
  }

  /** The page an entry or an address points into. */
  function PageBase(entry: nat): nat {
    entry / 4096 * 4096
  }

  function DirectoryIndex(address: nat): nat {
    address / 0x40_0000
  }

  function TableIndex(address: nat): (i: nat)
    ensures i < 1024
  {
    address / 4096 % 1024
  }

  predicate SamePage(a: nat, b: nat) {
    DirectoryIndex(a) == DirectoryIndex(b) && TableIndex(a) == TableIndex(b)
  }

  /** Two addresses with the same indices lie in the same 4 KiB. */
  lemma SamePageIff(a: nat, b: nat)
    ensures SamePage(a, b) <==> a / 4096 == b / 4096
  {
    IndexParts(a);
    IndexParts(b);
  }

  lemma IndexParts(a: nat)
    ensures a / 4096 == 1024 * DirectoryIndex(a) + TableIndex(a)
  {
  }

  function Half(a: nat): nat {
    a / 2
  }

  function Bit(a: nat): (b: nat)
    ensures b < 2
  {
    a % 2
  }

  lemma HalfOfSum(a: nat, b: nat)
    requires b < 2
    ensures Half(2 * a + b) == a && Bit(2 * a + b) == b
  {
  }

  /** `a | b`. */
  function BitOr(a: nat, b: nat): nat
    decreases a
  {
    if a == 0 then b
    else if b == 0 then a
    else 2 * BitOr(Half(a), Half(b)) + if Bit(a) == 1 || Bit(b) == 1 then 1 else 0
  }

  lemma OrHalves(a: nat, b: nat)
    ensures Half(BitOr(a, b)) == BitOr(Half(a), Half(b))
    ensures Bit(BitOr(a, b)) == 1 <==> Bit(a) == 1 || Bit(b) == 1
  {
    if a == 0 {
      assert Half(a) == 0 && Bit(a) == 0;
    } else if b == 0 {
      assert Half(b) == 0 && Bit(b) == 0 && BitOr(Half(a), 0) == Half(a);
    } else {
      HalfOfSum(BitOr(Half(a), Half(b)), if Bit(a) == 1 || Bit(b) == 1 then 1 else 0);
    }
  }

  /** `a >> k`. */
  function ShiftedRight(a: nat, k: nat): nat {
    if k == 0 then a else ShiftedRight(Half(a), k - 1)
  }

  /** `a << k`. */
  function ShiftedLeft(a: nat, k: nat): nat {
    if k == 0 then a else 2 * ShiftedLeft(a, k - 1)
  }

  /** The lowest `k` bits. */
  function LowBits(a: nat, k: nat): nat {
    if k == 0 then 0 else 2 * LowBits(Half(a), k - 1) + Bit(a)
  }

  /** What is or-ed to a number whose lowest `k` bits are zero shows in these bits as it is. */
  lemma {:induction false} OrBelow(a: nat, b: nat, k: nat)
    ensures BitOr(ShiftedLeft(a, k), b) == ShiftedLeft(BitOr(a, ShiftedRight(b, k)), k) + LowBits(b, k)
    decreases k
  {
    hide BitOr, Half, Bit;
    if k > 0 {
      var c := ShiftedLeft(a, k - 1);
      HalfOfSum(c, 0);
      OrHalves(2 * c, b);
      OrBelow(a, Half(b), k - 1);
      TwoHalves(BitOr(2 * c, b));
    }
  }

  lemma TwoHalves(a: nat)
    ensures a == 2 * Half(a) + Bit(a)
  {
  }

  lemma FourBits(a: nat)
    ensures ShiftedRight(a, 4) == a / 16 && ShiftedLeft(a, 4) == 16 * a && LowBits(a, 4) == a % 16
  {
    var b := Half(a);
    var c := Half(b);
    var d := Half(c);
    assert ShiftedRight(a, 4) == ShiftedRight(b, 3) == ShiftedRight(c, 2) == ShiftedRight(d, 1);
    assert ShiftedRight(d, 1) == ShiftedRight(Half(d), 0) == Half(d);
    assert ShiftedLeft(a, 2) == 2 * ShiftedLeft(a, 1) == 4 * a;
    assert ShiftedLeft(a, 4) == 2 * ShiftedLeft(a, 3) == 4 * ShiftedLeft(a, 2);
    assert LowBits(d, 1) == Bit(d) && LowBits(c, 2) == 2 * Bit(d) + Bit(c);
    assert LowBits(b, 3) == 2 * LowBits(c, 2) + Bit(b) && LowBits(a, 4) == 2 * LowBits(b, 3) + Bit(a);
  }

  lemma TwelveBits(a: nat)
    ensures ShiftedRight(a, 12) == a / 4096 && ShiftedLeft(a, 12) == 4096 * a && LowBits(a, 12) == a % 4096
  {
    hide ShiftedRight, ShiftedLeft, LowBits, Half;
    ShiftTwice(a, 4, 8);
    ShiftTwice(a, 4, 4);
    ShiftTwice(a / 16, 4, 4);
    FourBits(a);
    FourBits(a / 16);
    FourBits(a / 16 / 16);
    FourBits(16 * a);
    FourBits(16 * (16 * a));
    FourBits(a / 16 / 16 % 16);
    FourBits(LowBits(a / 16, 8));
  }

  lemma {:induction false} ShiftTwice(a: nat, j: nat, k: nat)
    ensures ShiftedRight(a, j + k) == ShiftedRight(ShiftedRight(a, j), k)
    ensures ShiftedLeft(a, j + k) == ShiftedLeft(ShiftedLeft(a, k), j)
    ensures LowBits(a, j + k) == ShiftedLeft(LowBits(ShiftedRight(a, j), k), j) + LowBits(a, j)
    decreases j
  {
    if j > 0 {
      ShiftTwice(Half(a), j - 1, k);
      ShiftTwice(a, j - 1, k);
    }
  }

  /** The entry for a frame or table: `(address & 0xFFFFF000) | flags`. */
  function Entry(address: nat, flags: nat): nat {
    BitOr(PageBase(address), flags)
  }

  /** The page an entry points to. Flags of 4096 and above reach into it. */
  function MappedPage(address: nat, flags: nat): (page: nat)
    ensures flags < 4096 ==> page == PageBase(address)
  {
    4096 * BitOr(address / 4096, flags / 4096)
  }

  /** The low bits of an entry are the flags, the others its page. */
  lemma EntryIs(address: nat, flags: nat)
    ensures Entry(address, flags) == MappedPage(address, flags) + flags % 4096
  {
    hide BitOr, ShiftedRight, ShiftedLeft, LowBits;
    OrBelow(address / 4096, flags, 12);
    TwelveBits(address / 4096);
    TwelveBits(flags);
    TwelveBits(BitOr(address / 4096, flags / 4096));
  }

  lemma EntryParts(address: nat, flags: nat)
    ensures PageBase(Entry(address, flags)) == MappedPage(address, flags)
    ensures Entry(address, flags) % 4096 == flags % 4096
  {
    hide BitOr, Entry;
    EntryIs(address, flags);
  }

  /** What the three lowest bits say depends on the lowest twelve alone. */
  lemma FlagBits(entry: nat, flags: nat)
    requires entry % 4096 == flags % 4096
    ensures Present(entry) == Present(flags) && Writable(entry) == Writable(flags) && ForUsers(entry) == ForUsers(flags)
  {
    hide Present, Writable, ForUsers;
    BitsBelow(entry / 4096, entry % 4096);
    BitsBelow(flags / 4096, flags % 4096);
    assert entry == 4096 * (entry / 4096) + entry % 4096 && flags == 4096 * (flags / 4096) + flags % 4096;
  }

  lemma BitsBelow(page: nat, low: nat)
    ensures var entry := 4096 * page + low;
            Present(entry) == Present(low) && Writable(entry) == Writable(low) && ForUsers(entry) == ForUsers(low)
  {
    var entry := 4096 * page + low;
    assert entry / 2 == 2048 * page + low / 2 && entry / 4 == 1024 * page + low / 4;
  }

  // ----- the state -----

  /** `page_tables` is the array of table addresses, 0 for none. */
  datatype Space = Space(directory: nat, tables: seq<nat>)

  /** What a frame that is not free is used for. */
  datatype Role = Head(space: nat) | Directory(space: nat) | Table(space: nat, index: nat)

  /** The pages in memory by address, the address spaces by address, and the roles of the frames in use. `kernel` is the
      kernel's own address space; its directory and the table for the first 4 MiB are part of the kernel image. */
  datatype State = State(memory: map<nat, Page>, spaces: map<nat, Space>, owner: map<nat, Role>, free: set<nat>,
                         kernel: nat, kernelDirectory: nat, firstTable: nat)

  // ----- translation -----

  /** A page, and what may be done with it. */
  datatype Grant = Grant(page: nat, writable: bool, user: bool)

  /** What the processor finds for an address when `directory` is loaded; a right holds if both levels give it. */
  ghost function Walk(memory: map<nat, Page>, directory: nat, address: nat): Option<Grant> {
    if directory !in memory || DirectoryIndex(address) >= 1024 then None
    else
      var entry := memory[directory][DirectoryIndex(address)];
      if !Present(entry) || PageBase(entry) !in memory then None
      else
        var page := memory[PageBase(entry)][TableIndex(address)];
        if Present(page)
        then Some(Grant(PageBase(page), Writable(entry) && Writable(page), ForUsers(entry) && ForUsers(page)))
        else None
  }

  /** What `vmm_get_physical_address` finds through the array of table addresses; 0 if there is no page. */
  ghost function Lookup(memory: map<nat, Page>, tables: seq<nat>, address: nat): nat {
    if DirectoryIndex(address) >= |tables| || tables[DirectoryIndex(address)] !in memory then 0
    else
      var page := memory[tables[DirectoryIndex(address)]][TableIndex(address)];
      if Present(page) then PageBase(page) else 0
  }

  // ----- the invariant -----

  /** The directory has an entry for exactly the tables in the array: for the first 4 MiB with the rights 3, which keep
      users out, and for all others with the rights 7, which leave everything to the tables. */
  ghost predicate Mirrored(memory: map<nat, Page>, space: Space) {
    && |space.tables| == 1024 && space.directory in memory
    && forall i :: 0 <= i < 1024 ==> MirroredAt(memory, space, i)
  }

  ghost predicate MirroredAt(memory: map<nat, Page>, space: Space, i: nat)
    requires i < |space.tables| && i < 1024 && space.directory in memory
  {
    var entry := memory[space.directory][i];
    if space.tables[i] == 0 then !Present(entry)
    else PageBase(entry) == space.tables[i] && space.tables[i] in memory && entry % 4096 == if i == 0 then 3 else 7
  }

  /** An entry of the directory restricts nothing but access by users to the first 4 MiB. */
  lemma DirectoryRights(memory: map<nat, Page>, space: Space, i: nat)
    requires i < 1024 == |space.tables| && space.directory in memory && MirroredAt(memory, space, i)
    requires space.tables[i] != 0
    ensures var entry := memory[space.directory][i]; Present(entry) && Writable(entry) && (ForUsers(entry) <==> i != 0)
  {
    hide Present, Writable, ForUsers;
    FlagBits(memory[space.directory][i], if i == 0 then 3 else 7);
    SmallFlags();
  }

  lemma SmallFlags()
    ensures !Present(0) && Present(1) && !Writable(1)
    ensures Present(3) && Writable(3) && !ForUsers(3) && Present(7) && Writable(7) && ForUsers(7)
  {
  }

  /** The frames of a space are recorded as its own. */
  ghost predicate Holds(st: State, s: nat)
    requires s in st.spaces
  {
    var space := st.spaces[s];
    && Mirrored(st.memory, space)
    && space.tables[0] == st.firstTable
    && (if s == st.kernel then space.directory == st.kernelDirectory
        else s in st.owner && st.owner[s] == Head(s)
             && space.directory in st.owner && st.owner[space.directory] == Directory(s))
    && forall i :: 1 <= i < 1024 && space.tables[i] != 0 ==>
         space.tables[i] in st.owner && st.owner[space.tables[i]] == Table(s, i)
  }

  /** A recorded frame is in use for what it is recorded for. */
  ghost predicate Justified(st: State, a: nat)
    requires a in st.owner
  {
    match st.owner[a]
    case Head(s) => s == a && s in st.spaces && s != st.kernel
    case Directory(s) => s in st.spaces && s != st.kernel && st.spaces[s].directory == a
    case Table(s, i) => s in st.spaces && 1 <= i < 1024 && i < |st.spaces[s].tables| && st.spaces[s].tables[i] == a
  }

  ghost predicate Aligned(a: nat) {
    a % 4096 == 0 && a != 0
  }

  /** Every frame in use is used for one thing only, and is not free. */
  ghost predicate Sound(st: State) {
    && st.kernel in st.spaces && st.kernel != 0 && 0 !in st.memory
    && (forall s :: s in st.spaces ==> Holds(st, s))
    && (forall a :: a in st.owner ==> Justified(st, a) && a !in st.free && Aligned(a))
    && (forall a :: a in st.free ==> Aligned(a))
    && Aligned(st.kernelDirectory) && Aligned(st.firstTable) && st.kernelDirectory != st.firstTable
    && st.kernelDirectory !in st.owner && st.kernelDirectory !in st.free
    && st.firstTable !in st.owner && st.firstTable !in st.free
    && st.kernel !in st.owner && st.kernel !in st.free
  }

  // ----- the two translations agree -----

  /** The processor finds the page the kernel finds, for every address and every space. */
  lemma TranslationsAgree(st: State, s: nat, address: nat)
    requires Sound(st) && s in st.spaces && address < 0x1_0000_0000
    ensures Lookup(st.memory, st.spaces[s].tables, address)
            == match Walk(st.memory, st.spaces[s].directory, address) case None => 0 case Some(grant) => grant.page
  {
    hide Present, Writable, ForUsers, PageBase, TableIndex, Justified;
    assert Holds(st, s);
    var i := DirectoryIndex(address);
    assert i < 1024;
    assert MirroredAt(st.memory, st.spaces[s], i);
    if st.spaces[s].tables[i] != 0 {
      DirectoryRights(st.memory, st.spaces[s], i);
    }
  }

  // ----- creating a space -----

  ghost function FreshTables(firstTable: nat): (tables: seq<nat>)
    ensures |tables| == 1024 && tables[0] == firstTable && forall i :: 1 <= i < 1024 ==> tables[i] == 0
  {
    seq<nat>(1024, i => if i == 0 then firstTable else 0)
  }

  /** The new space shares the table for the first 4 MiB and has no other. */
  ghost function Created(st: State, s: nat, directory: nat): State
    requires st.kernelDirectory in st.memory
  {
    st.(memory := st.memory[directory := ZeroPage()[0 := st.memory[st.kernelDirectory][0]]],
        spaces := st.spaces[s := Space(directory, FreshTables(st.firstTable))],
        owner := st.owner[s := Head(s)][directory := Directory(s)],
        free := st.free - {s, directory})
  }

  /** A space in use is the kernel's or has its own frame; its directory and tables are pages in use. */
  lemma InUse(st: State, s: nat)
    requires Sound(st) && s in st.spaces
    ensures Holds(st, s) && s !in st.free
    ensures st.spaces[s].directory !in st.free && st.spaces[s].directory in st.memory
    ensures |st.spaces[s].tables| == 1024
    ensures forall i :: 0 <= i < 1024 ==> st.spaces[s].tables[i] !in st.free
    ensures forall i :: 0 <= i < 1024 && st.spaces[s].tables[i] != 0 ==> st.spaces[s].tables[i] in st.memory
  {
    hide Present, PageBase, Aligned;
    assert Holds(st, s);
    forall i | 0 <= i < 1024
      ensures st.spaces[s].tables[i] !in st.free
      ensures (st.spaces[s].tables[i] != 0 ==> st.spaces[s].tables[i] in st.memory)
    {
      assert MirroredAt(st.memory, st.spaces[s], i);
      ZeroNotFree(st);
    }
  }

  lemma ZeroNotFree(st: State)
    requires Sound(st)
    ensures 0 !in st.free && 0 !in st.owner && st.firstTable != 0
  {
    hide Holds;
  }

  lemma KernelIsSpace(st: State)
    requires Sound(st)
    ensures st.kernel in st.spaces && st.spaces[st.kernel].directory == st.kernelDirectory
    ensures st.kernelDirectory in st.memory
    ensures st.memory[st.kernelDirectory][0] % 4096 == 3 && PageBase(st.memory[st.kernelDirectory][0]) == st.firstTable
    ensures st.firstTable in st.memory && st.kernelDirectory !in st.free && st.firstTable !in st.free
  {
    hide Present, PageBase;
    assert Holds(st, st.kernel);
    ZeroNotFree(st);
    assert MirroredAt(st.memory, st.spaces[st.kernel], 0);
  }

  /** A space none of whose pages change stays as it is. */
  lemma HoldsFrame(st: State, st': State, s: nat)
    requires s in st.spaces && s in st'.spaces && st'.spaces[s] == st.spaces[s] && Holds(st, s)
    requires st'.kernel == st.kernel && st'.kernelDirectory == st.kernelDirectory && st'.firstTable == st.firstTable
    requires st.spaces[s].directory in st'.memory
             && st'.memory[st.spaces[s].directory] == st.memory[st.spaces[s].directory]
    requires forall a :: a in st.memory ==> a in st'.memory
    requires forall a :: a in st.owner && st.owner[a].space == s ==> a in st'.owner && st'.owner[a] == st.owner[a]
    ensures Holds(st', s)
  {
    hide Present, PageBase;
    forall i | 0 <= i < 1024 ensures MirroredAt(st'.memory, st'.spaces[s], i) {
      assert MirroredAt(st.memory, st.spaces[s], i);
    }
  }

  lemma CreatedHolds(st: State, s: nat, directory: nat, t: nat)
    requires Sound(st) && s in st.free && directory in st.free && s != directory
    requires st.kernelDirectory in st.memory && (t in st.spaces || t == s)
    ensures t in st.spaces ==> t != s
    ensures Holds(Created(st, s, directory), t)
  {
    hide Present, PageBase, Justified;
    KernelIsSpace(st);
    ZeroNotFree(st);
    var st' := Created(st, s, directory);
    if t in st.spaces {
      InUse(st, t);
      HoldsFrame(st, st', t);
    } else {
      forall i | 0 <= i < 1024 ensures MirroredAt(st'.memory, st'.spaces[s], i) {
        ZeroAbsent(i);
      }
    }
  }

  lemma CreatedJustified(st: State, s: nat, directory: nat, a: nat)
    requires Sound(st) && s in st.free && directory in st.free && s != directory && st.kernelDirectory in st.memory
    requires a in Created(st, s, directory).owner && s !in st.spaces
    ensures Justified(Created(st, s, directory), a)
  {
    hide Holds;
    assert a in st.owner ==> Justified(st, a);
  }

  lemma CreatedSound(st: State, s: nat, directory: nat)
    requires Sound(st) && s in st.free && directory in st.free && s != directory
    ensures st.kernelDirectory in st.memory && Sound(Created(st, s, directory)) && s !in st.spaces
  {
    hide Holds, Justified;
    KernelIsSpace(st);
    ZeroNotFree(st);
    CreatedHolds(st, s, directory, s);
    var st' := Created(st, s, directory);
    forall t | t in st'.spaces ensures Holds(st', t) {
      CreatedHolds(st, s, directory, t);
    }
    forall a | a in st'.owner ensures Justified(st', a) {
      CreatedJustified(st, s, directory, a);
    }
  }

  lemma ZeroAbsent(i: nat)
    requires i < 1024
    ensures !Present(ZeroPage()[i])
  {
  }

  // ----- a new table -----

  /** `vmm_create_page_table`: an empty table for directory entry `i` of the space `s`. */
  ghost function WithTable(st: State, s: nat, i: nat, table: nat): State
    requires s in st.spaces && st.spaces[s].directory in st.memory && i < 1024 == |st.spaces[s].tables|
  {
    var space := st.spaces[s];
    st.(memory := st.memory[table := ZeroPage()]
                  [space.directory := st.memory[space.directory][i := Entry(table, 7)]],
        spaces := st.spaces[s := space.(tables := space.tables[i := table])],
        owner := st.owner[table := Table(s, i)],
        free := st.free - {table})
  }

  lemma WithTableHolds(st: State, s: nat, i: nat, table: nat, t: nat)
    requires Sound(st) && s in st.spaces && 1 <= i < 1024 && table in st.free
    requires |st.spaces[s].tables| == 1024 && st.spaces[s].tables[i] == 0 && st.spaces[s].directory in st.memory
    requires t in st.spaces
    ensures Holds(WithTable(st, s, i, table), t)
  {
    hide Present, PageBase, Entry, Justified;
    ZeroNotFree(st);
    InUse(st, s);
    InUse(st, t);
    var st' := WithTable(st, s, i, table);
    if t != s {
      DirectoriesDiffer(st, s, t);
      HoldsFrame(st, st', t);
    } else {
      assert Aligned(table);
      NewEntry(table);
      forall j | 0 <= j < 1024 ensures MirroredAt(st'.memory, st'.spaces[s], j) {
        assert MirroredAt(st.memory, st.spaces[s], j);
      }
    }
  }

  lemma WithTableJustified(st: State, s: nat, i: nat, table: nat, a: nat)
    requires Sound(st) && s in st.spaces && 1 <= i < 1024 && table in st.free
    requires |st.spaces[s].tables| == 1024 && st.spaces[s].tables[i] == 0 && st.spaces[s].directory in st.memory
    requires a in WithTable(st, s, i, table).owner
    ensures Justified(WithTable(st, s, i, table), a)
  {
    hide Holds, Present, PageBase, Entry;
    ZeroNotFree(st);
    assert a in st.owner ==> Justified(st, a) && Aligned(a);
  }

  lemma WithTableSound(st: State, s: nat, i: nat, table: nat)
    requires Sound(st) && s in st.spaces && 1 <= i < 1024 && table in st.free
    requires |st.spaces[s].tables| == 1024 && st.spaces[s].tables[i] == 0
    ensures st.spaces[s].directory in st.memory && Sound(WithTable(st, s, i, table))
  {
    hide Holds, Justified, Present, PageBase, Entry;
    ZeroNotFree(st);
    InUse(st, s);
    var st' := WithTable(st, s, i, table);
    forall t | t in st'.spaces ensures Holds(st', t) {
      WithTableHolds(st, s, i, table, t);
    }
    forall a | a in st'.owner ensures Justified(st', a) {
      WithTableJustified(st, s, i, table, a);
    }
  }

  lemma NewEntry(table: nat)
    ensures Entry(table, 7) % 4096 == 7 && PageBase(Entry(table, 7)) == PageBase(table)
    ensures Aligned(table) ==> PageBase(table) == table
  {
    EntryParts(table, 7);
  }

  lemma DirectoriesDiffer(st: State, s: nat, t: nat)
    requires Sound(st) && s in st.spaces && t in st.spaces && s != t
    ensures st.spaces[s].directory != st.spaces[t].directory
  {
    hide Mirrored;
    assert Holds(st, s) && Holds(st, t);
  }

  // ----- one entry of a table -----

  /** Entry `j` of table `i` of the space `s` becomes `entry`. */
  ghost function Written(st: State, s: nat, i: nat, j: nat, entry: nat): State
    requires s in st.spaces && i < |st.spaces[s].tables| && st.spaces[s].tables[i] in st.memory && j < 1024
  {
    var table := st.spaces[s].tables[i];
    st.(memory := st.memory[table := st.memory[table][j := entry]])
  }

  lemma WrittenSound(st: State, s: nat, i: nat, j: nat, entry: nat)
    requires Sound(st) && s in st.spaces && i < 1024 == |st.spaces[s].tables| && j < 1024 && st.spaces[s].tables[i] != 0
    ensures st.spaces[s].tables[i] in st.memory && Sound(Written(st, s, i, j, entry))
  {
    hide Present, PageBase;
    InUse(st, s);
    var st' := Written(st, s, i, j, entry);
    forall t | t in st.spaces ensures Holds(st', t) {
      InUse(st, t);
      TableIsNoDirectory(st, s, i, t);
      HoldsFrame(st, st', t);
    }
    forall a | a in st'.owner ensures Justified(st', a) {
      assert Justified(st, a);
    }
  }

  lemma TableIsNoDirectory(st: State, s: nat, i: nat, t: nat)
    requires Sound(st) && s in st.spaces && t in st.spaces && i < 1024 == |st.spaces[s].tables|
    requires st.spaces[s].tables[i] != 0
    ensures st.spaces[s].tables[i] != st.spaces[t].directory
  {
    hide Mirrored;
    assert Holds(st, s) && Holds(st, t);
  }

  /** Two entries share a table only if both are the shared first one, or the same entry of the same space. */
  lemma TablesDiffer(st: State, s: nat, i: nat, t: nat, j: nat)
    requires Sound(st) && s in st.spaces && t in st.spaces && i < 1024 == |st.spaces[s].tables|
    requires j < 1024 == |st.spaces[t].tables|
    requires st.spaces[s].tables[i] != 0 && st.spaces[s].tables[i] == st.spaces[t].tables[j]
    ensures i == j && (i == 0 || s == t)
  {
    hide Mirrored;
    assert Holds(st, s) && Holds(st, t);
  }

  // ----- destroying a space -----

  /** The frames of a space. */
  ghost function OwnedBy(st: State, s: nat): set<nat> {
    set a | a in st.owner && st.owner[a].space == s
  }

  ghost function Destroyed(st: State, s: nat): State {
    st.(spaces := st.spaces - {s}, owner := st.owner - OwnedBy(st, s), free := st.free + OwnedBy(st, s))
  }

  lemma DestroyedHolds(st: State, s: nat, t: nat)
    requires Sound(st) && t in st.spaces && t != s
    ensures Holds(Destroyed(st, s), t)
  {
    hide Present, PageBase, Justified;
    InUse(st, t);
    HoldsFrame(st, Destroyed(st, s), t);
  }

  lemma DestroyedJustified(st: State, s: nat, a: nat)
    requires Sound(st) && a in Destroyed(st, s).owner
    ensures Justified(Destroyed(st, s), a)
  {
    hide Holds;
    assert Justified(st, a);
  }

  lemma DestroyedSound(st: State, s: nat)
    requires Sound(st) && s != st.kernel
    ensures Sound(Destroyed(st, s))
  {
    hide Holds, Justified;
    var st' := Destroyed(st, s);
    forall t | t in st'.spaces ensures Holds(st', t) {
      DestroyedHolds(st, s, t);
    }
    forall a | a in st'.owner ensures Justified(st', a) {
      DestroyedJustified(st, s, a);
    }
  }

  // ----- what is kept -----

  /** Frames are neither lost nor gained by what happens inside the space `s`. */
  ghost predicate Conserves(st: State, st': State, s: nat) {
    && Sound(st') && st'.spaces.Keys == st.spaces.Keys
    && st'.kernel == st.kernel && st'.kernelDirectory == st.kernelDirectory && st'.firstTable == st.firstTable
    && st'.free + OwnedBy(st', s) == st.free + OwnedBy(st, s)
    && forall t :: t != s ==> OwnedBy(st', t) == OwnedBy(st, t)
  }

  lemma ConservesTransitive(st: State, st1: State, st2: State, s: nat)
    requires Conserves(st, st1, s) && Conserves(st1, st2, s)
    ensures Conserves(st, st2, s)
  {
    hide Sound, OwnedBy;
  }

  lemma WithTableConserves(st: State, s: nat, i: nat, table: nat)
    requires Sound(st) && s in st.spaces && 1 <= i < 1024 && table in st.free
    requires |st.spaces[s].tables| == 1024 && st.spaces[s].tables[i] == 0 && st.spaces[s].directory in st.memory
    ensures Conserves(st, WithTable(st, s, i, table), s)
  {
    hide Holds, Justified, Present, PageBase, Entry;
    WithTableSound(st, s, i, table);
    var st' := WithTable(st, s, i, table);
    assert OwnedBy(st', s) == OwnedBy(st, s) + {table};
    forall t | t != s ensures OwnedBy(st', t) == OwnedBy(st, t) {
    }
  }

  lemma WrittenConserves(st: State, s: nat, t: nat, i: nat, j: nat, entry: nat)
    requires Sound(st) && s in st.spaces && i < 1024 == |st.spaces[s].tables| && j < 1024 && st.spaces[s].tables[i] != 0
    requires st.spaces[s].tables[i] in st.memory
    ensures Conserves(st, Written(st, s, i, j, entry), t)
  {
    hide Holds, Justified, Present, PageBase;
    WrittenSound(st, s, i, j, entry);
    var st' := Written(st, s, i, j, entry);
    forall x ensures OwnedBy(st', x) == OwnedBy(st, x) {
    }
  }

  /** Creating a space, letting anything happen inside it and destroying it gives back exactly the frames that were
      free, and leaves every other space's frames alone. */
  lemma CreateThenDestroyRestores(st: State, s: nat, directory: nat, later: State)
    requires Sound(st) && s in st.free && directory in st.free && s != directory && st.kernelDirectory in st.memory
    requires Conserves(Created(st, s, directory), later, s)
    ensures s != later.kernel && Sound(Destroyed(later, s))
    ensures Destroyed(later, s).free == st.free
    ensures forall t :: t != s ==> OwnedBy(Destroyed(later, s), t) == OwnedBy(st, t)
    ensures Destroyed(later, s).spaces.Keys == st.spaces.Keys
  {
    hide Holds, Justified, Present, PageBase;
    CreatedSound(st, s, directory);
    DestroyedSound(later, s);
    var made := Created(st, s, directory);
    UnknownOwnsNothing(st, s);
    assert OwnedBy(made, s) == {s, directory};
    forall t | t != s ensures OwnedBy(Destroyed(later, s), t) == OwnedBy(st, t) {
      assert OwnedBy(made, t) == OwnedBy(st, t);
    }
  }

  lemma UnknownOwnsNothing(st: State, s: nat)
    requires Sound(st) && s !in st.spaces
    ensures OwnedBy(st, s) == {}
  {
    hide Holds;
    forall a | a in st.owner ensures st.owner[a].space != s {
      assert Justified(st, a);
    }
  }

  // ----- what changes, and in which space -----

  /** A new table changes no translation. */
  lemma WithTableWalks(st: State, s: nat, i: nat, table: nat, t: nat, address: nat)
    requires Sound(st) && s in st.spaces && 1 <= i < 1024 && table in st.free && t in st.spaces
    requires address < 0x1_0000_0000
    requires |st.spaces[s].tables| == 1024 && st.spaces[s].tables[i] == 0 && st.spaces[s].directory in st.memory
    ensures var st' := WithTable(st, s, i, table);
            && t in st'.spaces
            && Walk(st'.memory, st'.spaces[t].directory, address) == Walk(st.memory, st.spaces[t].directory, address)
  {
    hide Present, PageBase, Entry, Justified, TableIndex;
    ZeroNotFree(st);
    InUse(st, s);
    InUse(st, t);
    NewEntry(table);
    ZeroAbsent(TableIndex(address));
    var k := DirectoryIndex(address);
    assert k < 1024 && Aligned(table);
    assert MirroredAt(st.memory, st.spaces[t], k);
    if s != t {
      DirectoriesDiffer(st, s, t);
    }
    if st.spaces[t].tables[k] != 0 {
      TableIsNoDirectory(st, t, k, s);
    }
  }

  /** What an entry stands for; in the table for the first 4 MiB it is nothing for users. */
  ghost function Translation(entry: nat, shared: bool): Option<Grant> {
    if Present(entry) then Some(Grant(PageBase(entry), Writable(entry), ForUsers(entry) && !shared)) else None
  }

  /** An entry written into a table of one space's own changes the translation of its page in that space, and nothing
      else anywhere. */
  lemma WrittenWalks(st: State, s: nat, i: nat, j: nat, entry: nat, t: nat, address: nat)
    requires Sound(st) && s in st.spaces && i < 1024 == |st.spaces[s].tables| && j < 1024 && st.spaces[s].tables[i] != 0
    requires st.spaces[s].tables[i] in st.memory && t in st.spaces && address < 0x1_0000_0000
    ensures var st' := Written(st, s, i, j, entry);
            Walk(st'.memory, st'.spaces[t].directory, address)
            == if DirectoryIndex(address) == i && TableIndex(address) == j && (i == 0 || t == s)
               then Translation(entry, i == 0)
               else Walk(st.memory, st.spaces[t].directory, address)
  {
    hide Present, Writable, ForUsers, PageBase, Justified, TableIndex;
    InUse(st, s);
    InUse(st, t);
    var k := DirectoryIndex(address);
    assert k < 1024;
    TableIsNoDirectory(st, s, i, t);
    assert MirroredAt(st.memory, st.spaces[t], k);
    if st.spaces[t].tables[k] != 0 {
      DirectoryRights(st.memory, st.spaces[t], k);
    }
    if st.spaces[t].tables[k] != 0 && st.spaces[t].tables[k] == st.spaces[s].tables[i] {
      TablesDiffer(st, s, i, t, k);
    }
    if k == i && t == s {
      assert st.spaces[t].tables[k] == st.spaces[s].tables[i];
    }
    if k == i == 0 {
      FirstTableShared(st, s, t);
    }
  }

  lemma FirstTableShared(st: State, s: nat, t: nat)
    requires Sound(st) && s in st.spaces && t in st.spaces
    ensures |st.spaces[s].tables| == 1024 && |st.spaces[t].tables| == 1024
    ensures st.spaces[s].tables[0] == st.spaces[t].tables[0] == st.firstTable
  {
    assert Holds(st, s) && Holds(st, t);
  }
}
