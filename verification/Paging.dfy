/** The paging code as it runs: directory and tables written in place. */
module Paging {
  import opened Machine
  import opened PageBits
  import opened PageTables

  class VirtualMemory {
    var frames: Frames
    var kernelDirectory: Word32
    var currentDirectory: Word32
    /** The environment: what the heap will offer, request by request. */
    var offers: seq<Word32>
    /** How often the allocator has returned NULL. */
    ghost var failures: nat

    constructor (offers: seq<Word32>)
      ensures frames == map[] && kernelDirectory == 0 && currentDirectory == 0
    {
      this.offers := offers;
      frames := map[];
      kernelDirectory, currentDirectory := 0, 0;
      failures := 0;
    }

    /** The allocator as this code relies on it: NULL, or a fresh aligned page. */
    method AllocatePage() returns (p: Word32)
      modifies `failures, `offers
      ensures p == Offered(frames, old(offers)) && offers == Remaining(old(offers))
      ensures p == 0 ==> failures == old(failures) + 1
      ensures p != 0 ==> failures == old(failures) && FreshTable(frames, p)
    {
      p := 0;
      if offers != [] {
        if FreshTable(frames, offers[0]) {
          p := offers[0];
        }
        offers := offers[1..];
      }
      if p == 0 {
        failures := failures + 1;
      }
    }

    /** Clear a page entry by entry and put it in use as a table or directory. */
    method InstallCleared(p: Word32)
      requires p !in frames
      modifies `frames
      ensures frames == old(frames)[p := EmptyTable()]
    {
      hide EmptyTable;
      var page := new Word32[PAGE_ENTRIES];
      for i := 0 to PAGE_ENTRIES
        invariant frames == old(frames)
        invariant forall k :: 0 <= k < i ==> page[k] == 0
      {
        page[i] := 0;
      }
      var cleared := page[..];
      ClearedIsEmpty(cleared);
      frames := frames[p := cleared];
    }

    /** Store an entry in a table or directory. */
    method StoreEntry(a: Word32, i: Index, e: Word32)
      requires IsTable(frames, a)
      modifies `frames
      ensures frames == SetWord(old(frames), a, i, e)
    {
      frames := frames[a := Updated(frames[a], i, e)];
    }

    method PagingMapPage(dir: Word32, va: Word32, pa: Word32, flags: Word32) returns (ghost table: Word32)
      requires WellFormed(frames, dir)
      modifies `frames, `failures, `offers
      ensures table == 0 || FreshTable(old(frames), table)
      ensures if IsPresent(Pde(old(frames), dir, DirectoryIndex(va)))
              then table == 0 && offers == old(offers)
              else table == Offered(old(frames), old(offers)) && offers == Remaining(old(offers))
      ensures frames == MapFrames(old(frames), dir, va, pa, flags, table)
      ensures WellFormed(frames, dir)
      ensures old(failures) <= failures
      ensures failures == old(failures) ==> IsPresent(Pde(old(frames), dir, DirectoryIndex(va))) || table != 0
    {
      hide Flat, SetWord, IsPresent, CreatePde, CreatePte, GetAddress, DirectoryIndex;
      hide TableIndex, Word, FreshTable, Offered, Remaining;
      ghost var fr := frames;
      var dirIndex := DirectoryIndex(va);
      var tableIndex := TableIndex(va);
      var pde := Pde(frames, dir, dirIndex);
      var pageTable: Word32;
      table := 0;
      if !IsPresent(pde) {
        pageTable := AllocatePage();
        table := pageTable;
        if pageTable == 0 {
          return;
        }
        MapFlat(fr, dir, va, pa, flags, pageTable);
        FreshFacts(fr, dir, pageTable, dirIndex, CreatePde(pageTable, WithPresent(WithWrite(flags))));
        InstallCleared(pageTable);
        StoreEntry(dir, dirIndex, CreatePde(pageTable, WithPresent(WithWrite(flags))));
      } else {
        MapFlat(fr, dir, va, pa, flags, 0);
        pageTable := GetAddress(pde);
      }
      StoreEntry(pageTable, tableIndex, CreatePte(pa, WithPresent(flags)));
    }

    method PagingUnmapPage(dir: Word32, va: Word32)
      requires WellFormed(frames, dir)
      modifies `frames
      ensures frames == UnmapFrames(old(frames), dir, va)
      ensures WellFormed(frames, dir)
    {
      hide Flat, SetWord, IsPresent, GetAddress, DirectoryIndex, TableIndex, Word;
      UnmapFlat(frames, dir, va);
      var pde := Pde(frames, dir, DirectoryIndex(va));
      if !IsPresent(pde) {
        return;
      }
      StoreEntry(GetAddress(pde), TableIndex(va), 0);
    }

    method PagingGetPhysicalAddress(dir: Word32, va: Word32) returns (pa: Word32)
      requires WellFormed(frames, dir)
      ensures pa == Lookup(frames, dir, va)
      ensures pa == match Flat(frames, dir, PageOf(va))
                    case Unmapped => 0
                    case Mapped(e) => GetAddress(e) + PageOffset(va)
    {
      hide Flat;
      LookupFlat(frames, dir, va);
      var pde := Pde(frames, dir, DirectoryIndex(va));
      if !IsPresent(pde) {
        return 0;
      }
      var pte := Word(frames, GetAddress(pde), TableIndex(va));
      if !IsPresent(pte) {
        return 0;
      }
      pa := GetAddress(pte) + PageOffset(va);
    }

    /** Map every page of [start, end) to itself.  The bounds are 32-bit values; rounding
        the end up may wrap to 0, and then nothing is mapped. */
    method PagingIdentityMap(dir: Word32, start: Word32, end: Word32, flags: Word32)
      requires WellFormed(frames, dir)
      modifies `frames, `failures, `offers
      ensures WellFormed(frames, dir) && old(failures) <= failures
      ensures failures == old(failures) ==>
              IdentityMapped(old(frames), frames, dir, PageDown(start), PageUp(end), flags)
    {
      hide WellFormed, Flat, Pde, CreatePde, CreatePte, IsPresent, PageOf, AddressOf, DirectoryIndex, InRange, Touches;
      hide IdentityMapped, MapFrames, FreshTable;
      ghost var fr := frames;
      var addr := PageDown(start);
      var last := PageUp(end);
      NothingMapped(fr, dir, addr, addr, flags);
      if last <= addr {
        NothingMapped(fr, dir, addr, last, flags);
      }
      while addr < last
        invariant WellFormed(frames, dir) && old(failures) <= failures
        invariant addr % PAGE_SIZE == 0 && PageDown(start) <= addr
        invariant addr <= last || (frames == fr && addr == PageDown(start))
        invariant failures == old(failures) ==> IdentityMapped(fr, frames, dir, PageDown(start), addr, flags)
      {
        ghost var before := frames;
        ghost var table := PagingMapPage(dir, addr, addr, flags);
        if failures == old(failures) {
          OneMorePage(fr, before, frames, dir, PageDown(start), addr, flags, table);
        }
        addr := addr + PAGE_SIZE;
      }
    }

    /** Build the kernel's directory: 16 MB mapped to themselves for everybody, then the VGA
        page without USER. */
    method PagingInit()
      modifies `frames, `failures, `offers, `kernelDirectory, `currentDirectory
      ensures kernelDirectory == 0 ==> frames == old(frames) && currentDirectory == old(currentDirectory)
      ensures kernelDirectory != 0 ==> WellFormed(frames, kernelDirectory) && currentDirectory == kernelDirectory
      ensures failures == old(failures) ==> kernelDirectory != 0 && Booted(frames, kernelDirectory)
    {
      hide WellFormed, FreshTable, IdentityMapped, Booted, MapFrames, IsPresent, Pde, Flat;
      kernelDirectory := AllocatePage();
      if kernelDirectory == 0 {
        return;
      }
      NewDirectory(frames, kernelDirectory);
      InstallCleared(kernelDirectory);
      ghost var empty := frames;
      PagingIdentityMap(kernelDirectory, 0x0, 0x100_0000, PRESENT + WRITE + USER);
      ghost var mapped := frames;
      ghost var table := PagingMapPage(kernelDirectory, 0xB_8000, 0xB_8000, PRESENT + WRITE);
      if failures == old(failures) {
        BootDone(empty, mapped, frames, kernelDirectory, table);
      }
      currentDirectory := kernelDirectory;
    }
  }

  /** The state that booting promises: pages 0 to 0xFFF translate to themselves, page 0xB8
      alone without USER; nothing else is mapped; directory entries 0 to 3 alone are
      present. */
  ghost predicate Booted(fr: Frames, dir: Word32) {
    && (forall page: Page :: Flat(fr, dir, page) ==
          if page < 0x1000
            then Mapped(CreatePte(AddressOf(page), if page == 0xB8 then PRESENT + WRITE else PRESENT + WRITE + USER))
          else Unmapped)
    && (forall j: Index :: IsPresent(Pde(fr, dir, j)) <==> j < 4)
    && (forall j: Index :: j < 4 ==> GetFlags(Pde(fr, dir, j)) == PRESENT + WRITE + USER)
  }

  lemma NewDirectory(fr: Frames, dir: Word32)
    requires FreshTable(fr, dir)
    ensures dir !in fr
    ensures var r := fr[dir := EmptyTable()];
            && WellFormed(r, dir)
            && (forall j: Index :: !IsPresent(Pde(r, dir, j)))
            && (forall page: Page :: Flat(r, dir, page) == Unmapped)
  {
    hide IsPresent, Word;
    AbsentEntry();
    var r := fr[dir := EmptyTable()];
    forall j: Index
      ensures Pde(r, dir, j) == 0
    {
      NewTableAt(fr, dir, dir, j);
    }
    NewTableAt(fr, dir, dir, 0);
  }

  lemma BootRange(page: Page)
    ensures InRange(page, PageDown(0), PageUp(0x100_0000)) <==> page < 0x1000
  {
  }

  lemma BootTouches(j: Index)
    ensures Touches(j, PageDown(0), PageUp(0x100_0000)) <==> j < 4
  {
    hide InRange;
    forall page: Page
      ensures InRange(page, PageDown(0), PageUp(0x100_0000)) <==> page < 0x1000
    {
      BootRange(page);
    }
    if j < 4 {
      var page: Page := j * 1024;
      assert DirectoryOf(page) == j && InRange(page, PageDown(0), PageUp(0x100_0000));
    }
  }

  lemma BootFlags()
    ensures WithPresent(PRESENT + WRITE + USER) == PRESENT + WRITE + USER
    ensures WithPresent(PRESENT + WRITE) == PRESENT + WRITE
    ensures GetFlags(WithPresent(WithWrite(PRESENT + WRITE + USER))) == PRESENT + WRITE + USER
    ensures PageOf(0xB_8000) == 0xB8 && AddressOf(0xB8) == 0xB_8000 && DirectoryIndex(0xB_8000) == 0
  {
  }

  lemma BootDone(empty: Frames, mapped: Frames, fr: Frames, dir: Word32, table: Word32)
    requires forall j: Index :: !IsPresent(Pde(empty, dir, j))
    requires forall page: Page :: Flat(empty, dir, page) == Unmapped
    requires IdentityMapped(empty, mapped, dir, PageDown(0), PageUp(0x100_0000), PRESENT + WRITE + USER)
    requires WellFormed(mapped, dir) && (table == 0 || FreshTable(mapped, table))
    requires fr == MapFrames(mapped, dir, 0xB_8000, 0xB_8000, PRESENT + WRITE, table)
    ensures Booted(fr, dir)
  {
    hide WellFormed, FreshTable, MapFrames, IsPresent, Pde, Flat, InRange, Touches, CreatePte;
    hide CreatePde, GetFlags, PageOf, AddressOf, DirectoryIndex, WithPresent, WithWrite;
    BootFlags();
    forall page: Page
      ensures InRange(page, PageDown(0), PageUp(0x100_0000)) <==> page < 0x1000
    {
      BootRange(page);
    }
    forall j: Index
      ensures Touches(j, PageDown(0), PageUp(0x100_0000)) <==> j < 4
    {
      BootTouches(j);
    }
    MapFlat(mapped, dir, 0xB_8000, 0xB_8000, PRESENT + WRITE, table);
  }

  /** After booting, translation is the identity below 16 MB and absent elsewhere. */
  lemma BootTranslation(fr: Frames, dir: Word32, va: Word32)
    requires Booted(fr, dir)
    ensures Flat(fr, dir, PageOf(va)).Mapped? <==> va < 0x100_0000
    ensures Lookup(fr, dir, va) == if va < 0x100_0000 then va else 0
  {
    hide Flat, Lookup, CreatePte, GetAddress;
    LookupFlat(fr, dir, va);
    IndicesOfPage(va);
    PteFields(AddressOf(PageOf(va)), if PageOf(va) == 0xB8 then PRESENT + WRITE else PRESENT + WRITE + USER);
    AlignedAddress(AddressOf(PageOf(va)));
  }

  /** Among the mapped pages user code may use all but 0xB8, and may write what it may use. */
  lemma BootPermissions(fr: Frames, dir: Word32, page: Page)
    requires Booted(fr, dir)
    ensures Effective(fr, dir, page) ==
            if 0x1000 <= page then 0 else if page == 0xB8 then 3 else 7
  {
    hide Flat, CreatePte, GetFlags, IsPresent, Pde;
    var flags := if page == 0xB8 then PRESENT + WRITE else PRESENT + WRITE + USER;
    PteFields(AddressOf(page), flags);
    SmallFlags();
    AndFlags();
  }

  lemma SmallFlags()
    ensures GetFlags(PRESENT + WRITE) == PRESENT + WRITE && GetFlags(PRESENT + WRITE + USER) == PRESENT + WRITE + USER
  {
  }

  lemma AndFlags()
    ensures And(7, 7, 12) == 7 && And(7, 3, 12) == 3
  {
    AndZero(0, 9);
    AndZero(1, 10);
    var ten, eleven, twelve := 10, 11, 12;
    assert And(1, 1, ten) == 1 + 2 * And(0, 0, 9);
    assert And(3, 3, eleven) == 1 + 2 * And(1, 1, 10);
    assert And(3, 1, eleven) == 1 + 2 * And(1, 0, 10);
    assert And(7, 7, twelve) == 1 + 2 * And(3, 3, 11);
    assert And(7, 3, twelve) == 1 + 2 * And(3, 1, 11);
  }

  lemma {:induction false} AndZero(a: nat, n: nat)
    ensures And(a, 0, n) == 0
  {
    if 0 < n {
      AndZero(a / 2, n - 1);
    }
  }

  function PageDown(a: nat): nat {
    a / PAGE_SIZE * PAGE_SIZE
  }

  /** Rounding up to a page boundary, in 32-bit arithmetic. */
  function PageUp(a: nat): (r: nat)
    ensures r < WORD_LIMIT && r % PAGE_SIZE == 0
  {
    (a + PAGE_SIZE - 1) % WORD_LIMIT / PAGE_SIZE * PAGE_SIZE
  }

  /** Rounding a start down, and an end up, to a page boundary.  An end above 0xFFFFF000 wraps
      to 0. */
  lemma PageRounding(a: Word32)
    ensures PageDown(a) % 4096 == 0 && PageDown(a) <= a < PageDown(a) + 4096
    ensures a <= 0xFFFF_F000 ==> PageUp(a) % 4096 == 0 && a <= PageUp(a) < a + 4096
    ensures 0xFFFF_F000 < a ==> PageUp(a) == 0
  {
  }

  predicate InRange(page: Page, start: nat, end: nat) {
    start <= AddressOf(page) < end
  }

  /** Does some page of the 4 MB region j lie in [start, end)? */
  ghost predicate Touches(j: Index, start: nat, end: nat) {
    exists page: Page :: DirectoryOf(page) == j && InRange(page, start, end)
  }

  /** Memory r is fr with exactly the pages of [start, end) mapped to themselves; directory
      entries are present as before or because their region was touched, and then they carry
      the flags of the map. */
  ghost predicate IdentityMapped(fr: Frames, r: Frames, dir: Word32, start: nat, end: nat, flags: Word32) {
    && (forall page: Page :: Flat(r, dir, page) ==
          if InRange(page, start, end) then Mapped(CreatePte(AddressOf(page), WithPresent(flags)))
            else Flat(fr, dir, page))
    && (forall j: Index :: IsPresent(Pde(r, dir, j)) <==> IsPresent(Pde(fr, dir, j)) || Touches(j, start, end))
    && (forall j: Index :: IsPresent(Pde(r, dir, j)) && !IsPresent(Pde(fr, dir, j)) ==>
          GetFlags(Pde(r, dir, j)) == GetFlags(WithPresent(WithWrite(flags))))
  }

  lemma ClearedIsEmpty(t: seq<Word32>)
    requires |t| == PAGE_ENTRIES && forall k :: 0 <= k < PAGE_ENTRIES ==> t[k] == 0
    ensures t == EmptyTable()
  {
  }

  lemma FreshFacts(fr: Frames, dir: Word32, a: Word32, i: Index, e: Word32)
    requires WellFormed(fr, dir) && FreshTable(fr, a)
    ensures a !in fr && IsTable(fr[a := EmptyTable()], dir)
    ensures IsTable(SetWord(fr[a := EmptyTable()], dir, i, e), a)
  {
    FrameInUse(fr, dir, a);
    HangWord(fr, dir, i, a, e, a, 0);
    NewTableAt(fr, a, dir, 0);
  }

  // ---------------------------------------------------------------- the identity loop

  /** Moving the end of a range past one page adds exactly that page. */
  lemma RangeGrows(page: Page, start: nat, addr: Word32)
    requires addr % PAGE_SIZE == 0 && start <= addr
    ensures InRange(page, start, addr + PAGE_SIZE) <==> InRange(page, start, addr) || page == PageOf(addr)
    ensures AddressOf(PageOf(addr)) == addr
  {
  }

  lemma TouchGrows(j: Index, start: nat, addr: Word32)
    requires addr % PAGE_SIZE == 0 && start <= addr
    ensures Touches(j, start, addr + PAGE_SIZE) <==> Touches(j, start, addr) || j == DirectoryIndex(addr)
  {
    hide InRange, PageOf, DirectoryOf, DirectoryIndex;
    IndicesOfPage(addr);
    forall page: Page
      ensures InRange(page, start, addr + PAGE_SIZE) <==> InRange(page, start, addr) || page == PageOf(addr)
    {
      RangeGrows(page, start, addr);
    }
    RangeGrows(PageOf(addr), start, addr);
    if j == DirectoryIndex(addr) {
      assert DirectoryOf(PageOf(addr)) == j && InRange(PageOf(addr), start, addr + PAGE_SIZE);
    }
    if Touches(j, start, addr) {
      var page: Page :| DirectoryOf(page) == j && InRange(page, start, addr);
      assert InRange(page, start, addr + PAGE_SIZE);
    }
  }

  lemma NothingMapped(fr: Frames, dir: Word32, start: nat, end: nat, flags: Word32)
    requires end <= start
    ensures IdentityMapped(fr, fr, dir, start, end, flags)
  {
    hide Flat, Pde, IsPresent, DirectoryOf;
    assert forall page: Page :: !InRange(page, start, end);
    assert forall j: Index :: !Touches(j, start, end);
  }

  /** One more page mapped to itself. */
  lemma OneMorePage(fr: Frames, before: Frames, r: Frames, dir: Word32, start: nat, addr: Word32, flags: Word32,
                    table: Word32)
    requires addr % PAGE_SIZE == 0 && start <= addr
    requires WellFormed(before, dir) && (table == 0 || FreshTable(before, table))
    requires r == MapFrames(before, dir, addr, addr, flags, table)
             && (IsPresent(Pde(before, dir, DirectoryIndex(addr))) || table != 0)
    requires IdentityMapped(fr, before, dir, start, addr, flags)
    ensures IdentityMapped(fr, r, dir, start, addr + PAGE_SIZE, flags)
  {
    hide WellFormed, Flat, Pde, InRange, Touches, IsPresent, MapFrames;
    hide FreshTable, CreatePde, CreatePte, PageOf, AddressOf, DirectoryIndex;
    hide GetFlags;
    MapFlat(before, dir, addr, addr, flags, table);
    PdePresentWhenSet(table, flags);
    PdeFields(table, WithPresent(WithWrite(flags)));
    forall page: Page
      ensures Flat(r, dir, page) ==
              if InRange(page, start, addr + PAGE_SIZE) then Mapped(CreatePte(AddressOf(page), WithPresent(flags)))
                else Flat(fr, dir, page)
    {
      RangeGrows(page, start, addr);
    }
    forall j: Index
      ensures IsPresent(Pde(r, dir, j)) <==> IsPresent(Pde(fr, dir, j)) || Touches(j, start, addr + PAGE_SIZE)
    {
      TouchGrows(j, start, addr);
    }
  }
}
