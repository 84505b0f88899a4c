/** A page directory and its tables in memory, and the flat map they stand for. */
module PageTables {
  import opened Machine
  import opened PageBits

  /** What a virtual page maps to: nothing, or a page-table entry. */
  datatype Mapping = Unmapped | Mapped(entry: Word32)

  /** The frames that hold directories and tables: 1024 words each, by address. */
  type Frames = map<Word32, seq<Word32>>

  ghost predicate IsTable(fr: Frames, a: Word32) {
    a in fr && |fr[a]| == PAGE_ENTRIES
  }

  function Word(fr: Frames, a: Word32, i: Index): Word32 {
    if a in fr && |fr[a]| == PAGE_ENTRIES then fr[a][i] else 0
  }

  function Pde(fr: Frames, dir: Word32, i: Index): Word32 {
    Word(fr, dir, i)
  }

  function TableOf(fr: Frames, dir: Word32, i: Index): Word32 {
    GetAddress(Pde(fr, dir, i))
  }

  /** Every present directory entry names a table of its own, which is not the directory. */
  ghost predicate WellFormed(fr: Frames, dir: Word32) {
    && IsTable(fr, dir)
    && (forall i: Index :: IsPresent(Pde(fr, dir, i)) ==>
          IsTable(fr, TableOf(fr, dir, i)) && TableOf(fr, dir, i) != dir)
    && (forall i: Index, j: Index :: i != j && IsPresent(Pde(fr, dir, i)) && IsPresent(Pde(fr, dir, j)) ==>
          TableOf(fr, dir, i) != TableOf(fr, dir, j))
  }

  /** The flat map: the present entry of a virtual page, if it has one. */
  function Flat(fr: Frames, dir: Word32, page: Page): Mapping {
    var pde := Pde(fr, dir, DirectoryOf(page));
    var pte := Word(fr, GetAddress(pde), EntryOf(page));
    if IsPresent(pde) && IsPresent(pte) then Mapped(pte) else Unmapped
  }

  function EmptyTable(): (t: seq<Word32>)
    ensures |t| == PAGE_ENTRIES && forall i :: 0 <= i < PAGE_ENTRIES ==> t[i] == 0
  {
    seq(PAGE_ENTRIES, i => 0)
  }

  function Updated(t: seq<Word32>, i: Index, e: Word32): seq<Word32>
    requires i < |t|
  {
    t[i := e]
  }

  function SetWord(fr: Frames, a: Word32, i: Index, e: Word32): Frames {
    if a in fr && |fr[a]| == PAGE_ENTRIES then fr[a := Updated(fr[a], i, e)] else fr
  }

  /** What paging_map_page does to memory, given what the allocator returned for a new table. */
  function MapFrames(fr: Frames, dir: Word32, va: Word32, pa: Word32, flags: Word32, table: Word32): Frames {
    var pde := Pde(fr, dir, DirectoryIndex(va));
    var pte := CreatePte(pa, WithPresent(flags));
    if IsPresent(pde) then SetWord(fr, GetAddress(pde), TableIndex(va), pte)
    else if table == 0 then fr
    else
      var created := CreatePde(table, WithPresent(WithWrite(flags)));
      var fr1 := SetWord(fr[table := EmptyTable()], dir, DirectoryIndex(va), created);
      SetWord(fr1, table, TableIndex(va), pte)
  }

  function UnmapFrames(fr: Frames, dir: Word32, va: Word32): Frames {
    var pde := Pde(fr, dir, DirectoryIndex(va));
    if IsPresent(pde) then SetWord(fr, GetAddress(pde), TableIndex(va), 0) else fr
  }

  /** What the page-table code relies on: a table is fresh, disjoint from every other frame
      in use, and 4096-aligned. */
  predicate FreshTable(fr: Frames, a: Word32) {
    a % 0x1000 == 0 && a !in fr
  }

  /** What the allocator returns next: the page it offers if that is as required, else NULL. */
  function Offered(fr: Frames, offers: seq<Word32>): (p: Word32)
    ensures p == 0 || FreshTable(fr, p)
  {
    if offers != [] && FreshTable(fr, offers[0]) then offers[0] else 0
  }

  function Remaining(offers: seq<Word32>): seq<Word32> {
    if offers == [] then [] else offers[1..]
  }

  // ---------------------------------------------------------------- words

  lemma SetWordAt(fr: Frames, a: Word32, i: Index, e: Word32, b: Word32, j: Index)
    requires IsTable(fr, a)
    ensures Word(SetWord(fr, a, i, e), b, j) == if b == a && j == i then e else Word(fr, b, j)
    ensures IsTable(SetWord(fr, a, i, e), b) <==> IsTable(fr, b)
  {
  }

  lemma NewTableAt(fr: Frames, a: Word32, b: Word32, j: Index)
    requires a !in fr
    ensures Word(fr[a := EmptyTable()], b, j) == if b == a then 0 else Word(fr, b, j)
    ensures IsTable(fr[a := EmptyTable()], b) <==> b == a || IsTable(fr, b)
  {
  }

  // ---------------------------------------------------------------- mapping

  /** A store into the table of a present directory entry. */
  lemma StoreInTable(fr: Frames, dir: Word32, i: Index, t: Index, e: Word32)
    requires WellFormed(fr, dir) && IsPresent(Pde(fr, dir, i))
    ensures var r := SetWord(fr, TableOf(fr, dir, i), t, e);
            && WellFormed(r, dir)
            && (forall j: Index :: Pde(r, dir, j) == Pde(fr, dir, j))
            && (forall page: Page :: Flat(r, dir, page) ==
                  if DirectoryOf(page) == i && EntryOf(page) == t then (if IsPresent(e) then Mapped(e) else Unmapped)
                  else Flat(fr, dir, page))
  {
    hide IsPresent, GetAddress, DirectoryOf, EntryOf, SetWord, Word, IsTable;
    var a := TableOf(fr, dir, i);
    var r := SetWord(fr, a, t, e);
    forall j: Index
      ensures Pde(r, dir, j) == Pde(fr, dir, j)
    {
      SetWordAt(fr, a, t, e, dir, j);
    }
    forall b: Word32
      ensures IsTable(r, b) <==> IsTable(fr, b)
    {
      SetWordAt(fr, a, t, e, b, 0);
    }
    forall page: Page
      ensures Flat(r, dir, page) ==
              if DirectoryOf(page) == i && EntryOf(page) == t then (if IsPresent(e) then Mapped(e) else Unmapped)
              else Flat(fr, dir, page)
    {
      SetWordAt(fr, a, t, e, TableOf(fr, dir, DirectoryOf(page)), EntryOf(page));
    }
  }

  lemma HangWord(fr: Frames, dir: Word32, i: Index, a: Word32, e: Word32, b: Word32, j: Index)
    requires IsTable(fr, dir) && a !in fr && a != dir
    ensures var r := SetWord(fr[a := EmptyTable()], dir, i, e);
            && Word(r, b, j) == (if b == dir && j == i then e else if b == a then 0 else Word(fr, b, j))
            && (IsTable(r, b) <==> b == a || IsTable(fr, b))
  {
    hide SetWord, Word, IsTable;
    var m := fr[a := EmptyTable()];
    NewTableAt(fr, a, dir, j);
    NewTableAt(fr, a, b, j);
    SetWordAt(m, dir, i, e, b, j);
  }

  /** Hanging an empty table into an absent directory entry changes no translation. */
  lemma HangTable(fr: Frames, dir: Word32, i: Index, a: Word32, e: Word32)
    requires WellFormed(fr, dir) && !IsPresent(Pde(fr, dir, i)) && a !in fr && IsPresent(e) && GetAddress(e) == a
    ensures var r := SetWord(fr[a := EmptyTable()], dir, i, e);
            && WellFormed(r, dir)
            && (forall j: Index :: Pde(r, dir, j) == if j == i then e else Pde(fr, dir, j))
            && (forall page: Page :: Flat(r, dir, page) == Flat(fr, dir, page))
  {
    hide IsPresent, GetAddress, DirectoryOf, EntryOf, SetWord, Word, IsTable;
    FrameInUse(fr, dir, a);
    AbsentEntry();
    var r := SetWord(fr[a := EmptyTable()], dir, i, e);
    forall b: Word32, j: Index
      ensures Word(r, b, j) == if b == dir && j == i then e else if b == a then 0 else Word(fr, b, j)
    {
      HangWord(fr, dir, i, a, e, b, j);
    }
    forall b: Word32
      ensures IsTable(r, b) <==> b == a || IsTable(fr, b)
    {
      HangWord(fr, dir, i, a, e, b, 0);
    }
    forall j: Index
      ensures Pde(r, dir, j) == if j == i then e else Pde(fr, dir, j)
    {
    }
    forall j: Index | IsPresent(Pde(r, dir, j))
      ensures IsTable(r, TableOf(r, dir, j)) && TableOf(r, dir, j) != dir && (j != i ==> TableOf(r, dir, j) != a)
    {
      assert j != i ==> TableOf(r, dir, j) == TableOf(fr, dir, j);
    }
  }

  lemma AbsentEntry()
    ensures !IsPresent(0)
  {
  }

  lemma FrameInUse(fr: Frames, dir: Word32, a: Word32)
    requires WellFormed(fr, dir) && a !in fr
    ensures a != dir && !IsTable(fr, a)
    ensures forall i: Index :: IsPresent(Pde(fr, dir, i)) ==> TableOf(fr, dir, i) != a
  {
  }

  /** Mapping sets exactly one page of the flat map; when the table it needs cannot be had
      it changes nothing. */
  lemma MapFlat(fr: Frames, dir: Word32, va: Word32, pa: Word32, flags: Word32, table: Word32)
    requires WellFormed(fr, dir) && (table == 0 || FreshTable(fr, table))
    ensures var r := MapFrames(fr, dir, va, pa, flags, table);
            var done := IsPresent(Pde(fr, dir, DirectoryIndex(va))) || table != 0;
            && WellFormed(r, dir)
            && (!done ==> r == fr)
            && (forall page: Page :: Flat(r, dir, page) ==
                  if done && page == PageOf(va) then Mapped(CreatePte(pa, WithPresent(flags))) else Flat(fr, dir, page))
            && (forall j: Index :: Pde(r, dir, j) ==
                  if done && j == DirectoryIndex(va) && !IsPresent(Pde(fr, dir, j))
                  then CreatePde(table, WithPresent(WithWrite(flags)))
                  else Pde(fr, dir, j))
  {
    hide Flat, Pde, SetWord, IsPresent, CreatePde, CreatePte, GetAddress;
    hide GetFlags, DirectoryIndex, TableIndex, PageOf, DirectoryOf, EntryOf;
    var i, t, e := DirectoryIndex(va), TableIndex(va), CreatePte(pa, WithPresent(flags));
    PresentWhenSet(pa, flags);
    IndicesOfPage(va);
    forall page: Page
      ensures DirectoryOf(page) == i && EntryOf(page) == t <==> page == PageOf(va)
    {
      if DirectoryOf(page) == i && EntryOf(page) == t {
        PageByIndices(page, PageOf(va));
      }
    }
    if IsPresent(Pde(fr, dir, i)) {
      StoreInTable(fr, dir, i, t, e);
    } else if table != 0 {
      var pde := CreatePde(table, WithPresent(WithWrite(flags)));
      PdeFields(table, WithPresent(WithWrite(flags)));
      PdePresentWhenSet(table, flags);
      AlignedAddress(table);
      HangTable(fr, dir, i, table, pde);
      StoreInTable(SetWord(fr[table := EmptyTable()], dir, i, pde), dir, i, t, e);
    }
  }

  /** Unmapping clears exactly one page and no directory entry. */
  lemma UnmapFlat(fr: Frames, dir: Word32, va: Word32)
    requires WellFormed(fr, dir)
    ensures var r := UnmapFrames(fr, dir, va);
            && WellFormed(r, dir)
            && (forall page: Page :: Flat(r, dir, page) == if page == PageOf(va) then Unmapped else Flat(fr, dir, page))
            && (forall j: Index :: Pde(r, dir, j) == Pde(fr, dir, j))
  {
    hide Pde, SetWord, IsPresent, GetAddress, DirectoryIndex, TableIndex, PageOf, DirectoryOf, EntryOf, Word;
    var i, t := DirectoryIndex(va), TableIndex(va);
    AbsentEntry();
    IndicesOfPage(va);
    forall page: Page
      ensures DirectoryOf(page) == i && EntryOf(page) == t <==> page == PageOf(va)
    {
      if DirectoryOf(page) == i && EntryOf(page) == t {
        PageByIndices(page, PageOf(va));
      }
    }
    if IsPresent(Pde(fr, dir, i)) {
      StoreInTable(fr, dir, i, t, 0);
    }
  }

  // ---------------------------------------------------------------- lookup

  /** What paging_get_physical_address computes from the two entries. */
  function Lookup(fr: Frames, dir: Word32, va: Word32): Word32 {
    var pde := Pde(fr, dir, DirectoryIndex(va));
    if !IsPresent(pde) then 0
    else
      var pte := Word(fr, GetAddress(pde), TableIndex(va));
      if !IsPresent(pte) then 0 else GetAddress(pte) + PageOffset(va)
  }

  /** The lookup returns frame and offset of a mapped page and 0 for an unmapped one. */
  lemma LookupFlat(fr: Frames, dir: Word32, va: Word32)
    ensures Lookup(fr, dir, va) ==
            match Flat(fr, dir, PageOf(va))
            case Unmapped => 0
            case Mapped(e) => GetAddress(e) + PageOffset(va)
  {
    hide GetAddress, PageOffset, IsPresent, DirectoryIndex, TableIndex, PageOf, DirectoryOf, EntryOf, Word;
    IndicesOfPage(va);
  }

  /** The result 0 does not tell an unmapped page from one mapped to physical page 0: it
      means unmapped exactly if the page does not map to frame 0 or the offset is not 0. */
  lemma LookupZero(fr: Frames, dir: Word32, va: Word32)
    ensures Lookup(fr, dir, va) == 0 <==>
            Flat(fr, dir, PageOf(va)).Unmapped?
              || (GetAddress(Flat(fr, dir, PageOf(va)).entry) == 0 && PageOffset(va) == 0)
  {
    LookupFlat(fr, dir, va);
    hide Flat, Lookup;
  }

  // ---------------------------------------------------------------- runs

  /** One call: a map, with what the allocator would return, or an unmap. */
  datatype PageOp =
    | MapPage(va: Word32, pa: Word32, flags: Word32, table: Word32)
    | UnmapPage(va: Word32)

  function Apply(fr: Frames, dir: Word32, op: PageOp): Frames {
    match op
    case MapPage(va, pa, flags, table) => MapFrames(fr, dir, va, pa, flags, table)
    case UnmapPage(va) => UnmapFrames(fr, dir, va)
  }

  ghost predicate Allowed(fr: Frames, op: PageOp) {
    op.MapPage? ==> op.table == 0 || FreshTable(fr, op.table)
  }

  /** A run of calls on one directory, empty at first. */
  ghost predicate IsRun(dir: Word32, frs: seq<Frames>, ops: seq<PageOp>) {
    && |frs| == |ops| + 1
    && WellFormed(frs[0], dir)
    && (forall j: Index :: !IsPresent(Pde(frs[0], dir, j)))
    && (forall i, k :: 0 <= i < |ops| && k == i + 1 ==> Allowed(frs[i], ops[i]) && frs[k] == Apply(frs[i], dir, ops[i]))
  }

  lemma NextFrames(dir: Word32, frs: seq<Frames>, ops: seq<PageOp>, i: nat)
    requires IsRun(dir, frs, ops) && i < |ops|
    ensures Allowed(frs[i], ops[i]) && frs[i + 1] == Apply(frs[i], dir, ops[i])
  {
    var k := i + 1;
    assert frs[k] == Apply(frs[i], dir, ops[i]);
  }

  /** In every run present directory entries name distinct tables. */
  lemma {:induction false} RunWellFormed(dir: Word32, frs: seq<Frames>, ops: seq<PageOp>, k: nat)
    requires IsRun(dir, frs, ops) && k < |frs|
    ensures WellFormed(frs[k], dir)
  {
    hide WellFormed, MapFrames, UnmapFrames, FreshTable, Pde, Flat;
    hide IsPresent, CreatePde, CreatePte, PageOf, DirectoryIndex;
    if 0 < k {
      RunWellFormed(dir, frs, ops, k - 1);
      NextFrames(dir, frs, ops, k - 1);
      match ops[k - 1]
      case MapPage(va, pa, flags, table) => MapFlat(frs[k - 1], dir, va, pa, flags, table);
      case UnmapPage(va) => UnmapFlat(frs[k - 1], dir, va);
    }
  }

  datatype RegionFlags = NoFlags | Flags(flags: Word32)

  /** The flags of the first map into a region that got its table, among the first k calls. */
  ghost function FirstFlags(ops: seq<PageOp>, region: Index, k: nat): RegionFlags
    requires k <= |ops|
  {
    if k == 0 then NoFlags
    else
      var before := FirstFlags(ops, region, k - 1);
      var op := ops[k - 1];
      if before.NoFlags? && op.MapPage? && DirectoryIndex(op.va) == region && op.table != 0
      then Flags(op.flags)
      else before
  }

  /** The directory entry a region must have after its first successful map. */
  ghost predicate RegionEntry(pde: Word32, first: RegionFlags) {
    match first
    case NoFlags => !IsPresent(pde)
    case Flags(f) => IsPresent(pde) && GetFlags(pde) == GetFlags(WithPresent(WithWrite(f)))
  }

  lemma RegionStep(fr: Frames, dir: Word32, op: PageOp, region: Index, first: RegionFlags)
    requires WellFormed(fr, dir) && Allowed(fr, op) && RegionEntry(Pde(fr, dir, region), first)
    ensures var next := if first.NoFlags? && op.MapPage? && DirectoryIndex(op.va) == region && op.table != 0
                        then Flags(op.flags)
                        else first;
            RegionEntry(Pde(Apply(fr, dir, op), dir, region), next)
  {
    hide WellFormed, MapFrames, UnmapFrames, FreshTable, Pde, Flat, IsPresent;
    hide CreatePde, CreatePte, GetFlags, PageOf, DirectoryIndex;
    match op
    case MapPage(va, pa, flags, table) =>
      MapFlat(fr, dir, va, pa, flags, table);
      PdeFields(table, WithPresent(WithWrite(flags)));
      PdePresentWhenSet(table, flags);
      SameFlags(WithPresent(WithWrite(flags)));
    case UnmapPage(va) => UnmapFlat(fr, dir, va);
  }

  lemma SameFlags(f: Word32)
    ensures GetFlags(GetFlags(f)) == GetFlags(f)
  {
  }

  /** Over any run the directory entry of a 4 MB region keeps PRESENT, WRITE and the flags
      of the first successful map into the region, whatever is mapped or unmapped later. */
  lemma {:induction false} RunRegionFlags(dir: Word32, frs: seq<Frames>, ops: seq<PageOp>, region: Index, k: nat)
    requires IsRun(dir, frs, ops) && k <= |ops|
    ensures RegionEntry(Pde(frs[k], dir, region), FirstFlags(ops, region, k))
  {
    hide WellFormed, Apply, FreshTable, Pde, IsPresent, GetFlags, DirectoryIndex, Allowed;
    if 0 < k {
      RunRegionFlags(dir, frs, ops, region, k - 1);
      RunWellFormed(dir, frs, ops, k - 1);
      NextFrames(dir, frs, ops, k - 1);
      RegionStep(frs[k - 1], dir, ops[k - 1], region, FirstFlags(ops, region, k - 1));
    }
  }

  /** The permissions the processor grants a mapped page: those that both entries grant. */
  function Effective(fr: Frames, dir: Word32, page: Page): nat {
    match Flat(fr, dir, page)
    case Unmapped => 0
    case Mapped(e) => And(GetFlags(Pde(fr, dir, DirectoryOf(page))), GetFlags(e), 12)
  }

  /** So a later map cannot grant more than the first map of its region did. */
  lemma RunEffective(dir: Word32, frs: seq<Frames>, ops: seq<PageOp>, page: Page, k: nat)
    requires IsRun(dir, frs, ops) && k <= |ops| && Flat(frs[k], dir, page).Mapped?
    ensures FirstFlags(ops, DirectoryOf(page), k).Flags?
    ensures Effective(frs[k], dir, page) ==
            And(GetFlags(WithPresent(WithWrite(FirstFlags(ops, DirectoryOf(page), k).flags))),
              GetFlags(Flat(frs[k], dir, page).entry), 12)
  {
    hide WellFormed, Apply, FreshTable, Pde, IsPresent, GetFlags, DirectoryOf, Allowed, FirstFlags, Word, GetAddress;
    RunRegionFlags(dir, frs, ops, DirectoryOf(page), k);
  }
}
