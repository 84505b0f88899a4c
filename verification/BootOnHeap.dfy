/** paging_init right after memory_init, on the bytes of the heap and with the pointers that
    kmalloc really returns: page directory and page tables are not 4096-aligned. */
module BootOnHeap {
  import opened Machine
  import opened HeapBlocks
  import opened HeapMemory
  import opened PageBits
  import opened RawMemory
  import PageRequests

  /** The directory, the header of the block behind it, the payload of that block, and the
      address that a directory entry made of the payload gives instead. */
  const DIRECTORY: nat := 0x20_0010
  const SECOND: nat := 0x20_1010
  const TABLE: Word32 := 0x20_1020
  const SEEN: nat := 0x20_1000

  /** The first header, and the first four directory entries: the memory that must survive. */
  const FRONT: nat := 0x20

  const BOOT_FLAGS: Word32 := PRESENT + WRITE + USER

  /** The directory's own block is taken, and the second block comes next. */
  ghost predicate FirstTaken(m: seq<Byte>) {
    HeaderAt(m, HEAP_START) == Header(PAGE_SIZE, 0, SECOND, 0)
  }

  /** What lies at the second header reads as a free block that is large enough, and whose
      back link is not in the front of the heap. */
  ghost predicate SecondFits(m: seq<Byte>) {
    var h := HeaderAt(m, SECOND);
    && h.isFree != 0
    && PAGE_SIZE <= h.size
    && (h.next == 0 || h.next + HEADER <= HEAP_START || HEAP_START + FRONT <= h.next + 12)
  }

  /** Then a page request is answered with the second block, whatever was handed out before. */
  lemma SecondAnswers(m: seq<Byte>)
    requires FirstTaken(m) && SecondFits(m)
    ensures StopsAt(m, PAGE_SIZE, [HEAP_START, SECOND])
    ensures CutSpares(m, SECOND, PAGE_SIZE, HEAP_START, FRONT)
  {
    hide HeaderAt;
  }

  lemma FrontKept(m: seq<Byte>, m': seq<Byte>)
    requires SameBytes(m, m', HEAP_START, FRONT) && FirstTaken(m)
    ensures FirstTaken(m')
    ensures forall q :: 0 <= q < 4 ==> Entry(m', DIRECTORY, q) == Entry(m, DIRECTORY, q)
  {
    hide SameBytes, Load;
    LoadKept(m, m', HEAP_START, FRONT, HEAP_START);
    LoadKept(m, m', HEAP_START, FRONT, HEAP_START + 4);
    LoadKept(m, m', HEAP_START, FRONT, HEAP_START + 8);
    LoadKept(m, m', HEAP_START, FRONT, HEAP_START + 12);
    forall q | 0 <= q < 4
      ensures Entry(m', DIRECTORY, q) == Entry(m, DIRECTORY, q)
    {
      LoadKept(m, m', HEAP_START, FRONT, DIRECTORY + 4 * q);
    }
  }

  lemma EntryStored(m: seq<Byte>, m': seq<Byte>, q: nat, e: Word32)
    requires FirstTaken(m) && q < 4 && SameOutside(m, m', DIRECTORY + 4 * q, 4) && Load(m', DIRECTORY + 4 * q) == e
    ensures FirstTaken(m')
    ensures forall r: nat :: r < 4 ==> Entry(m', DIRECTORY, r) == if r == q then e else Entry(m, DIRECTORY, r)
  {
    hide Load, HeaderAt, SameOutside;
    HeaderApart(m, m', DIRECTORY + 4 * q, 4, HEAP_START);
    EntriesApart(m, m', DIRECTORY, q);
  }

  lemma TableStored(m: seq<Byte>, m': seq<Byte>, a: nat)
    requires FirstTaken(m) && SEEN <= a && SameOutside(m, m', a, 4)
    ensures FirstTaken(m')
    ensures forall q :: 0 <= q < 4 ==> Entry(m', DIRECTORY, q) == Entry(m, DIRECTORY, q)
  {
    hide SameBytes, SameOutside, FirstTaken, Entry;
    KeptApart(m, m', a, 4, HEAP_START, FRONT);
    FrontKept(m, m');
  }

  /** paging_map_page of an identity mapping in the first 16 MB, while every present directory
      entry reads as SEEN. */
  method MapOnHeap(mem: array<Byte>, va: Word32, flags: Word32) returns (ghost table: nat)
    requires mem.Length == HEAP_SIZE && FirstTaken(mem[..]) && DirectoryIndex(va) < 4
    requires var pde := Entry(mem[..], DIRECTORY, DirectoryIndex(va));
             if IsPresent(pde) then GetAddress(pde) == SEEN else SecondFits(mem[..])
    modifies mem
    ensures FirstTaken(mem[..])
    ensures var i, m := DirectoryIndex(va), old(mem[..]);
            if IsPresent(Entry(m, DIRECTORY, i)) then
              && table == 0
              && (forall q :: 0 <= q < 4 ==> Entry(mem[..], DIRECTORY, q) == Entry(m, DIRECTORY, q))
              && SameOutside(m, mem[..], SEEN + 4 * TableIndex(va), 4)
              && Entry(mem[..], SEEN, TableIndex(va)) == CreatePte(va, WithPresent(flags))
            else
              && table == TABLE
              && (forall q :: 0 <= q < 4 ==>
                    Entry(mem[..], DIRECTORY, q) ==
                    if q == i then CreatePde(TABLE, WithPresent(WithWrite(flags))) else Entry(m, DIRECTORY, q))
  {
    hide HeaderAt, Load, Entry, SameBytes, SameOutside, FirstTaken, SecondFits, StopsAt, CutSpares;
    hide IsPresent, GetAddress, CreatePde, CreatePte, DirectoryIndex, TableIndex;
    var dirIndex: nat, tableIndex: nat := DirectoryIndex(va), TableIndex(va);
    ghost var m0 := mem[..];
    EntryIs(m0, DIRECTORY, dirIndex);
    var pde := Entry(mem[..], DIRECTORY, dirIndex);
    var pageTable: nat;
    table := 0;
    if !IsPresent(pde) {
      SecondAnswers(m0);
      pageTable := KmallocAnyway(mem, PAGE_SIZE, [HEAP_START, SECOND], HEAP_START, FRONT);
      table := pageTable;
      ghost var m1 := mem[..];
      ClearPage(mem, pageTable);
      ghost var m2 := mem[..];
      KeptThenApart(m0, m1, m2, pageTable, 4096, HEAP_START, FRONT);
      FrontKept(m0, m2);
      var e := CreatePde(pageTable, WithPresent(WithWrite(flags)));
      Store(mem, DIRECTORY + 4 * dirIndex, e);
      EntryStored(m2, mem[..], dirIndex, e);
    } else {
      pageTable := GetAddress(pde);
    }
    ghost var m3 := mem[..];
    Store(mem, pageTable + 4 * tableIndex, CreatePte(va, WithPresent(flags)));
    TableStored(m3, mem[..], pageTable + 4 * tableIndex);
    EntryIs(mem[..], SEEN, tableIndex);
  }

  // ---------------------------------------------------------------- the boot sequence

  /** The directory entry that every region gets. */
  const NAMED: Word32 := 0x20_1007

  /** The table entry of an identity-mapped page. */
  function Identity(page: nat): nat {
    page * 0x1000 + 7
  }

  /** Words 1 to 7 of SEEN as far as they have been stored through the directory entry of the
      region of page n. */
  ghost predicate Stored(m: seq<Byte>, n: nat) {
    var i, base := n % 1024, n / 1024 * 1024;
    forall j :: 1 <= j < 8 && j <= i ==> Entry(m, SEEN, j) == Identity(base + j)
  }

  /** Memory after pages 0 to n - 1 have been mapped.  Words 1 to 3 of SEEN are directory
      entries 1021 to 1023, words 4 to 7 the four fields of the second header: they hold what
      was last stored through a directory entry. */
  ghost predicate Mapped(m: seq<Byte>, n: nat) {
    && FirstTaken(m)
    && (forall q :: 0 <= q < 4 ==> Entry(m, DIRECTORY, q) == if q * 1024 < n then NAMED else 0)
    && (if n == 0 then SecondFits(m) else Stored(m, n - 1))
  }

  lemma PageFields(n: nat)
    requires n < 4096
    ensures n * 0x1000 < WORD_LIMIT
    ensures DirectoryIndex(n * 0x1000) == n / 1024 < 4 && TableIndex(n * 0x1000) == n % 1024
    ensures CreatePte(n * 0x1000, WithPresent(BOOT_FLAGS)) == Identity(n)
  {
    assert n * 0x1000 / 0x40_0000 == n / 1024;
  }

  lemma EntryFacts()
    ensures CreatePde(TABLE, WithPresent(WithWrite(BOOT_FLAGS))) == NAMED
    ensures IsPresent(NAMED) && GetAddress(NAMED) == SEEN && !IsPresent(0)
  {
  }

  /** When a region is complete, its entries 4 to 7 lie on the second header and make it look
      free and large again. */
  lemma SecondFitsAgain(m: seq<Byte>, n: nat)
    requires Mapped(m, n) && n < 4096 && n % 1024 == 0
    ensures SecondFits(m)
  {
    hide Load;
    if 0 < n {
      var base := (n - 1) / 1024 * 1024;
      assert (n - 1) % 1024 == 1023 && base == n - 1024;
      EntryIs(m, SEEN, 4);
      EntryIs(m, SEEN, 5);
      EntryIs(m, SEEN, 6);
      assert Entry(m, SEEN, 4) == Identity(base + 4) && Entry(m, SEEN, 5) == Identity(base + 5);
      assert Entry(m, SEEN, 6) == Identity(base + 6);
      assert HeaderAt(m, SECOND).next == Identity(base + 6);
      assert base == 0 || base == 1024 || base == 2048;
    }
  }

  lemma NextRegion(m: seq<Byte>, m': seq<Byte>, n: nat)
    requires Mapped(m, n) && n < 4096 && n % 1024 == 0 && FirstTaken(m')
    requires forall q :: 0 <= q < 4 ==>
               Entry(m', DIRECTORY, q) == if q == n / 1024 then NAMED else Entry(m, DIRECTORY, q)
    ensures Mapped(m', n + 1)
  {
    hide FirstTaken, Entry, SecondFits;
    assert (n + 1 - 1) % 1024 == 0;
    forall q | 0 <= q < 4
      ensures Entry(m', DIRECTORY, q) == if q * 1024 < n + 1 then NAMED else 0
    {
    }
  }

  lemma NextPage(m: seq<Byte>, m': seq<Byte>, n: nat)
    requires Mapped(m, n) && n < 4096 && n % 1024 != 0 && FirstTaken(m')
    requires forall q :: 0 <= q < 4 ==> Entry(m', DIRECTORY, q) == Entry(m, DIRECTORY, q)
    requires SameOutside(m, m', SEEN + 4 * (n % 1024), 4) && Entry(m', SEEN, n % 1024) == Identity(n)
    ensures Mapped(m', n + 1)
  {
    hide FirstTaken, Entry, SecondFits, SameOutside;
    EntriesApart(m, m', SEEN, n % 1024);
    var i := n % 1024;
    assert (n - 1) / 1024 == n / 1024 && (n - 1) % 1024 == i - 1;
    forall j | 1 <= j < 8 && j <= i
      ensures Entry(m', SEEN, j) == Identity(n / 1024 * 1024 + j)
    {
      if j != i {
        assert Entry(m, SEEN, j) == Identity((n - 1) / 1024 * 1024 + j);
      }
    }
  }

  lemma WhichRegion(m: seq<Byte>, n: nat)
    requires Mapped(m, n) && n < 4096
    ensures Entry(m, DIRECTORY, n / 1024) == if n % 1024 == 0 then 0 else NAMED
  {
  }

  /** The identity map of [0, 16 MB).  All of its four requests for a table get the same one. */
  method IdentityMapOnHeap(mem: array<Byte>) returns (ghost tables: seq<nat>)
    requires mem.Length == HEAP_SIZE && Mapped(mem[..], 0)
    modifies mem
    ensures Mapped(mem[..], 4096)
    ensures |tables| == 4 && forall k :: 0 <= k < 4 ==> tables[k] == TABLE
  {
    hide Mapped, FirstTaken, SecondFits, SameOutside, Entry, Identity;
    hide IsPresent, GetAddress, CreatePde, CreatePte, DirectoryIndex, TableIndex;
    EntryFacts();
    var addr := 0;
    ghost var n := 0;
    tables := [];
    MappedFirst(mem[..], 0);
    while addr < 0x100_0000
      invariant 0 <= n <= 4096 && addr == n * 0x1000
      invariant Mapped(mem[..], n) && FirstTaken(mem[..])
      invariant |tables| == (n + 1023) / 1024 && forall k :: 0 <= k < |tables| ==> tables[k] == TABLE
    {
      PageFields(n);
      WhichRegion(mem[..], n);
      if n % 1024 == 0 {
        SecondFitsAgain(mem[..], n);
      }
      ghost var m := mem[..];
      ghost var table := MapOnHeap(mem, addr, BOOT_FLAGS);
      if n % 1024 == 0 {
        NextRegion(m, mem[..], n);
        tables := tables + [table];
      } else {
        NextPage(m, mem[..], n);
      }
      addr, n := addr + PAGE_SIZE, n + 1;
    }
  }

  lemma MappedFirst(m: seq<Byte>, n: nat)
    requires Mapped(m, n)
    ensures FirstTaken(m)
  {
  }

  lemma FreshHeap(m: seq<Byte>)
    requires HeaderAt(m, HEAP_START) == Header(HEAP_SIZE - HEADER, 1, 0, 0)
    ensures StopsAt(m, PAGE_SIZE, [HEAP_START]) && CutSpares(m, HEAP_START, PAGE_SIZE, HEAP_LIMIT, 0)
  {
    hide HeaderAt;
  }

  lemma DirectoryCleared(m: seq<Byte>, m': seq<Byte>)
    requires FirstTaken(m) && HeaderAt(m, SECOND) == Header(HEAP_SIZE - PAGE_SIZE - 2 * HEADER, 1, 0, HEAP_START)
    requires SameOutside(m, m', DIRECTORY, 4096) && forall j :: 0 <= j < 1024 ==> Entry(m', DIRECTORY, j) == 0
    ensures Mapped(m', 0)
  {
    hide HeaderAt, SameOutside, Entry;
    HeaderApart(m, m', DIRECTORY, 4096, HEAP_START);
    HeaderApart(m, m', DIRECTORY, 4096, SECOND);
  }

  /** What booting leaves: the four directory entries of the first 16 MB name one and the same
      page, and words 1 to 7 of that page hold entries of the last region. */
  ghost predicate BootResult(m: seq<Byte>) {
    && (forall q :: 0 <= q < 4 ==> Entry(m, DIRECTORY, q) == NAMED)
    && (forall j :: 1 <= j < 8 ==> Entry(m, SEEN, j) == Identity(3 * 1024 + j))
  }

  lemma ScreenMapped(m: seq<Byte>, m': seq<Byte>)
    requires Mapped(m, 4096) && SameOutside(m, m', SEEN + 4 * 0xB8, 4)
    requires forall q :: 0 <= q < 4 ==> Entry(m', DIRECTORY, q) == Entry(m, DIRECTORY, q)
    ensures BootResult(m')
  {
    hide SameOutside, Entry, FirstTaken, Identity;
    EntriesApart(m, m', SEEN, 0xB8);
    assert 4095 % 1024 == 1023 && 4095 / 1024 * 1024 == 3 * 1024;
  }

  lemma ScreenFields()
    ensures DirectoryIndex(0xB_8000) == 0 && TableIndex(0xB_8000) == 0xB8
  {
  }

  /** memory_init, then paging_init. */
  method PagingInitOnHeap(mem: array<Byte>) returns (dir: nat, ghost tables: seq<nat>)
    requires mem.Length == HEAP_SIZE
    modifies mem
    ensures dir == DIRECTORY && BootResult(mem[..])
    ensures |tables| == 4 && forall k :: 0 <= k < 4 ==> tables[k] == TABLE
  {
    hide HeaderAt, Load, Entry, SameBytes, SameOutside, StopsAt, CutSpares, Mapped, BootResult;
    hide IsPresent, GetAddress, CreatePde, CreatePte, DirectoryIndex, TableIndex;
    SetHeader(mem, HEAP_START, HEAP_SIZE - HEADER, 1, 0, 0);
    FreshHeap(mem[..]);
    dir := KmallocAnyway(mem, PAGE_SIZE, [HEAP_START], HEAP_LIMIT, 0);
    ghost var m := mem[..];
    ClearPage(mem, dir);
    DirectoryCleared(m, mem[..]);
    tables := IdentityMapOnHeap(mem);
    m := mem[..];
    MappedFirst(m, 4096);
    EntryFacts();
    ScreenFields();
    FirstRegion(m);
    ghost var none := MapOnHeap(mem, 0xB_8000, PRESENT + WRITE);
    ScreenMapped(m, mem[..]);
  }

  lemma FirstRegion(m: seq<Byte>)
    requires Mapped(m, 4096)
    ensures Entry(m, DIRECTORY, 0) == NAMED
  {
  }

  // ---------------------------------------------------------------- what comes of it

  /** paging_get_physical_address on the bytes of the heap. */
  function LookupOnHeap(m: seq<Byte>, dir: nat, va: Word32): Word32 {
    var pde := Entry(m, dir, DirectoryIndex(va));
    if !IsPresent(pde) then 0
    else
      var pte := Entry(m, GetAddress(pde), TableIndex(va));
      if !IsPresent(pte) then 0 else GetAddress(pte) + PageOffset(va)
  }

  /** Pages 1 to 7 of every region translate to those of the fourth: the translation of such
      an address is the identity exactly in the fourth region. */
  lemma BootMixesRegions(m: seq<Byte>, va: Word32)
    requires BootResult(m) && va < 0x100_0000 && 1 <= TableIndex(va) < 8
    ensures LookupOnHeap(m, DIRECTORY, va) == 0xC0_0000 + va % 0x40_0000
    ensures LookupOnHeap(m, DIRECTORY, va) == va <==> 0xC0_0000 <= va
  {
    hide Entry;
    EntryFacts();
    var j: nat := TableIndex(va);
    assert Entry(m, DIRECTORY, DirectoryIndex(va)) == NAMED;
    assert Entry(m, SEEN, j) == Identity(3 * 1024 + j);
    IdentityFields(3 * 1024 + j);
    FieldsMakeAddress(va);
  }

  lemma IdentityFields(page: nat)
    requires page < 4096
    ensures Identity(page) < WORD_LIMIT && IsPresent(Identity(page)) && GetAddress(Identity(page)) == page * 0x1000
  {
  }

  /** The page that is taken for a table overlaps the directory: three more directory entries
      are present than the four that were made. */
  lemma BootStrayEntries(m: seq<Byte>, j: nat)
    requires BootResult(m) && 1 <= j < 4
    ensures Entry(m, DIRECTORY, 1020 + j) == Identity(3 * 1024 + j) && IsPresent(Entry(m, DIRECTORY, 1020 + j))
  {
    hide Load;
    EntryIs(m, DIRECTORY, 1020 + j);
    EntryIs(m, SEEN, j);
    IdentityFields(3 * 1024 + j);
  }

  /** The first two requests are answered as on a heap left to itself, the others are not:
      there they would get three more pages. */
  lemma TablesRepeat(k: nat)
    requires 2 <= k < 5
    ensures PageRequests.PagePointer(0) == DIRECTORY && PageRequests.PagePointer(1) == TABLE
    ensures PageRequests.PagePointer(k) != TABLE
  {
    hide PageRequests.PagePointer;
    PageRequests.PagePointerIs(0);
    PageRequests.PagePointerIs(1);
    PageRequests.PagePointerIs(k);
  }
}
