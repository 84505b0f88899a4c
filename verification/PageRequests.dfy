/** What the heap really hands to the paging code, which asks it for 4096-byte pages right
    after memory_init. */
module PageRequests {
  import opened Machine
  import opened HeapBlocks
  import opened HeapMemory
  import PageBits

  const PAGE_BLOCK: nat := 4112
  const PAGES_IN_HEAP: nat := 1020

  /** The block list after k page requests on the fresh heap. */
  function AfterPages(k: nat): seq<Block> {
    if k == 0 then Initial() else Malloc(AfterPages(k - 1), PageBits.PAGE_SIZE).0
  }

  /** The pointer the request after those returns. */
  function PagePointer(k: nat): nat {
    Malloc(AfterPages(k), PageBits.PAGE_SIZE).1
  }

  /** k page blocks in a row, then the rest of the heap. */
  function Carved(k: nat): seq<Block>
    requires k <= PAGES_IN_HEAP
  {
    seq(k, i requires 0 <= i < k => Block(HEAP_START + i * PAGE_BLOCK, PageBits.PAGE_SIZE, false))
    + [Block(HEAP_START + k * PAGE_BLOCK, HEAP_SIZE - k * PAGE_BLOCK - HEADER, true)]
  }

  lemma CarveOneMore(k: nat)
    requires k <= PAGES_IN_HEAP
    ensures k < PAGES_IN_HEAP ==>
            Malloc(Carved(k), PageBits.PAGE_SIZE) == (Carved(k + 1), HEAP_START + k * PAGE_BLOCK + HEADER)
    ensures k == PAGES_IN_HEAP ==> Malloc(Carved(k), PageBits.PAGE_SIZE) == (Carved(k), 0)
  {
    var bs := Carved(k);
    assert AlignUp(PageBits.PAGE_SIZE) == PageBits.PAGE_SIZE;
    var i := FirstFit(bs, PageBits.PAGE_SIZE);
    if k < PAGES_IN_HEAP {
      assert i == k by {
        assert bs[k].free && PageBits.PAGE_SIZE <= bs[k].size;
      }
      assert SetFree(Split(bs, k, PageBits.PAGE_SIZE), k, false) == Carved(k + 1);
    }
  }

  lemma CarvedNone()
    ensures Carved(0) == Initial()
  {
  }

  lemma {:induction false} AfterPagesCarved(k: nat)
    requires k <= PAGES_IN_HEAP
    ensures AfterPages(k) == Carved(k)
  {
    hide Carved, Malloc, Initial;
    if k == 0 {
      CarvedNone();
    } else {
      AfterPagesCarved(k - 1);
      CarveOneMore(k - 1);
    }
  }

  lemma PagePointerIs(k: nat)
    requires k <= PAGES_IN_HEAP
    ensures PagePointer(k) == if k < PAGES_IN_HEAP then HEAP_START + k * PAGE_BLOCK + HEADER else 0
  {
    hide AfterPages, Malloc, Carved;
    AfterPagesCarved(k);
    CarveOneMore(k);
  }

  /** The heap has room for exactly 1020 pages, and of the pages requested in a row only
      every 256th starts at a multiple of 4096. */
  lemma PagePointers(k: nat)
    requires k <= PAGES_IN_HEAP
    ensures PagePointer(k) == 0 <==> k == PAGES_IN_HEAP
    ensures k < PAGES_IN_HEAP ==> (PagePointer(k) % 0x1000 == 0 <==> k % 256 == 255)
  {
    hide PagePointer;
    PagePointerIs(k);
  }

  /** A directory entry gives back the table it was made of exactly if the table is aligned. */
  lemma EntryNamesTable(table: Word32, flags: Word32)
    ensures PageBits.GetAddress(PageBits.CreatePde(table, flags)) == table <==> table % 0x1000 == 0
  {
    PageBits.PdeFields(table, flags);
  }

  /** So neither of the first two frames of paging_init, its directory and its first table, is
      given back by an entry: the alignment that the types declare is a real assumption. */
  lemma BootFramesAreLost(k: nat, flags: Word32)
    requires k < 2
    ensures PagePointer(k) < WORD_LIMIT
    ensures PageBits.GetAddress(PageBits.CreatePde(PagePointer(k), flags)) != PagePointer(k)
  {
    hide PagePointer;
    PagePointerIs(k);
    PagePointers(k);
    EntryNamesTable(PagePointer(k), flags);
  }

  /** What the entry of the k-th page gives instead lies below that page's own block: entry
      number 4 * k of what is taken for a table is the size field of its heap header. */
  lemma TableCoversHeader(k: nat, flags: Word32)
    requires k < PAGES_IN_HEAP && k % 256 != 255
    ensures PagePointer(k) < WORD_LIMIT
    ensures var table := PageBits.GetAddress(PageBits.CreatePde(PagePointer(k), flags));
            && HEAP_START <= table
            && table + 4 * (4 * (k % 256)) == PagePointer(k) - HEADER
            && PagePointer(k) <= table + PageBits.PAGE_SIZE
  {
    hide PagePointer;
    PagePointerIs(k);
    PageBits.PdeFields(PagePointer(k), flags);
    Truncated(k);
  }

  lemma Truncated(k: nat)
    requires k % 256 != 255
    ensures (HEAP_START + k * PAGE_BLOCK + HEADER) / 0x1000 * 0x1000 + 16 * (k % 256) == HEAP_START + k * PAGE_BLOCK
    ensures 16 * (k % 256) + HEADER <= 0x1000
  {
    var q, r := k / 256, k % 256;
    assert k == 256 * q + r;
    assert HEAP_START + k * PAGE_BLOCK + HEADER == 0x1000 * (0x200 + k + q) + 16 * (r + 1);
  }

  lemma SizeField(m: seq<Byte>, k: nat, n: nat)
    requires k < n <= PAGES_IN_HEAP && Represents(m, AfterPages(n))
    ensures Load(m, HEAP_START + k * PAGE_BLOCK) == PageBits.PAGE_SIZE
  {
    hide AfterPages, Load;
    AfterPagesCarved(n);
    var bs := Carved(n);
    assert bs[k] == Block(HEAP_START + k * PAGE_BLOCK, PageBits.PAGE_SIZE, false);
    assert HeaderAt(m, bs[k].addr) == HeaderOf(bs, k);
  }

  lemma HeaderSpoilt(m: seq<Byte>, k: nat, n: nat, flags: Word32, e: Word32)
    requires k < n <= PAGES_IN_HEAP && k % 256 != 255 && PagePointer(k) < WORD_LIMIT
    requires PageBits.IsPresent(e)
    requires Load(m, PageBits.GetAddress(PageBits.CreatePde(PagePointer(k), flags)) + 4 * (4 * (k % 256))) == e
    ensures !Represents(m, AfterPages(n))
  {
    hide PagePointer, Load, Represents, AfterPages;
    PagePointerIs(k);
    TableCoversHeader(k, flags);
    if Represents(m, AfterPages(n)) {
      SizeField(m, k, n);
    }
  }

  /** So mapping the page with that number through the entry destroys an intact heap: after
      the store memory holds the headers of no list with the block in it. */
  method MappingDestroysHeader(mem: array<Byte>, k: nat, n: nat, flags: Word32, pde: Word32, e: Word32)
    requires mem.Length == HEAP_SIZE && k < n <= PAGES_IN_HEAP && k % 256 != 255
    requires Represents(mem[..], AfterPages(n)) && PageBits.IsPresent(e)
    requires PagePointer(k) < WORD_LIMIT && pde == PageBits.CreatePde(PagePointer(k), flags)
    modifies mem
    ensures Load(mem[..], PageBits.GetAddress(pde) + 4 * (4 * (k % 256))) == e
    ensures SameOutside(old(mem[..]), mem[..], PageBits.GetAddress(pde) + 4 * (4 * (k % 256)), 4)
    ensures !Represents(mem[..], AfterPages(n))
  {
    hide PagePointer, Load, Represents, AfterPages, SameOutside;
    PagePointerIs(k);
    TableCoversHeader(k, flags);
    Store(mem, PageBits.GetAddress(pde) + 4 * (4 * (k % 256)), e);
    HeaderSpoilt(mem[..], k, n, flags, e);
  }
}
