/** The bit layout of 32-bit paging: indices, entries and flags (Intel SDM, Volume 3A,
    section 4.3).

    A 32-bit value is a number below 2^32.  Masking the low twelve bits is `% 4096`,
    masking them off is `/ 4096 * 4096`, shifting right is division, and an or of disjoint
    fields is their sum; an or with one flag sets that bit. */
module PageBits {
  import opened Machine

  const PAGE_ENTRIES: nat := 1024
  const PAGE_SIZE: nat := 0x1000

  type Index = x: int | 0 <= x < 1024
  type Page = x: int | 0 <= x < 0x10_0000

  const PRESENT: Word32 := 0x001
  const WRITE: Word32 := 0x002
  const USER: Word32 := 0x004

  /** PRESENT | f and WRITE | f. */
  function WithPresent(f: Word32): Word32 {
    if f % 2 == 1 then f else f + PRESENT
  }

  function WithWrite(f: Word32): Word32 {
    if f / 2 % 2 == 1 then f else f + WRITE
  }

  /** Bit k of a number. */
  function Bit(a: nat, k: nat): nat {
    if k == 0 then a % 2 else Bit(a / 2, k - 1)
  }

  /** An or with PRESENT sets bit 0, an or with WRITE bit 1, and no other bit changes. */
  lemma {:induction false} OrSetsBit(f: Word32, k: nat)
    ensures Bit(WithPresent(f), k) == if k == 0 then 1 else Bit(f, k)
    ensures Bit(WithWrite(f), k) == if k == 1 then 1 else Bit(f, k)
  {
    var p, w := WithPresent(f), WithWrite(f);
    assert p / 2 == f / 2 && p % 2 == 1;
    assert w % 2 == f % 2 && w / 2 % 2 == 1 && w / 2 / 2 == f / 2 / 2;
    if k != 0 {
      assert Bit(p, k) == Bit(p / 2, k - 1) && Bit(f, k) == Bit(f / 2, k - 1) && Bit(w, k) == Bit(w / 2, k - 1);
      if k != 1 {
        assert Bit(w / 2, k - 1) == Bit(w / 2 / 2, k - 2) && Bit(f / 2, k - 1) == Bit(f / 2 / 2, k - 2);
      }
    }
  }

  /** The flags: bit 0 present, bit 1 writable, bit 2 for user code. */
  lemma FlagBits(k: nat)
    requires k < 3
    ensures Bit(PRESENT, k) == (if k == 0 then 1 else 0) && PRESENT < 8
    ensures Bit(WRITE, k) == (if k == 1 then 1 else 0) && WRITE < 8
    ensures Bit(USER, k) == (if k == 2 then 1 else 0) && USER < 8
  {
    if k == 1 {
      assert Bit(1, 1) == Bit(0, 0) && Bit(2, 1) == Bit(1, 0) && Bit(4, 1) == Bit(2, 0);
    } else if k == 2 {
      assert Bit(1, 2) == Bit(0, 1) == Bit(0, 0) && Bit(2, 2) == Bit(1, 1) == Bit(0, 0);
      assert Bit(4, 2) == Bit(2, 1) == Bit(1, 0);
    }
  }

  /** Bitwise and of the low n bits. */
  function And(a: nat, b: nat, n: nat): nat {
    if n == 0 then 0 else (if a % 2 == 1 && b % 2 == 1 then 1 else 0) + 2 * And(a / 2, b / 2, n - 1)
  }

  /** Bit k of an and is set exactly if it is among the low n and set in both. */
  lemma {:induction false} AndBits(a: nat, b: nat, n: nat, k: nat)
    ensures Bit(And(a, b, n), k) == if k < n && Bit(a, k) == 1 && Bit(b, k) == 1 then 1 else 0
  {
    var r := And(a, b, n);
    if n == 0 {
      BitOfZero(k);
    } else {
      var low := if a % 2 == 1 && b % 2 == 1 then 1 else 0;
      assert r == low + 2 * And(a / 2, b / 2, n - 1) && r % 2 == low && r / 2 == And(a / 2, b / 2, n - 1);
      if k != 0 {
        AndBits(a / 2, b / 2, n - 1, k - 1);
        assert Bit(r, k) == Bit(r / 2, k - 1) && Bit(a, k) == Bit(a / 2, k - 1) && Bit(b, k) == Bit(b / 2, k - 1);
      }
    }
  }

  lemma {:induction false} BitOfZero(k: nat)
    ensures Bit(0, k) == 0
  {
    if k != 0 {
      BitOfZero(k - 1);
    }
  }

  function DirectoryIndex(va: Word32): Index {
    va / 0x40_0000 % 1024
  }

  function TableIndex(va: Word32): Index {
    va / 0x1000 % 1024
  }

  function PageOffset(va: Word32): (o: nat)
    ensures o < PAGE_SIZE
  {
    va % 0x1000
  }

  function CreatePte(pa: Word32, flags: Word32): Word32 {
    pa / 0x1000 * 0x1000 + flags % 0x1000
  }

  function CreatePde(table: Word32, flags: Word32): Word32 {
    table / 0x1000 * 0x1000 + flags % 0x1000
  }

  function GetAddress(e: Word32): Word32 {
    e / 0x1000 * 0x1000
  }

  function GetFlags(e: Word32): Word32 {
    e % 0x1000
  }

  predicate IsPresent(e: Word32) {
    e % 2 == 1
  }

  /** The virtual page of an address, and the two indices of a page. */
  function PageOf(va: Word32): Page {
    va / 0x1000
  }

  function DirectoryOf(page: Page): Index {
    page / 1024
  }

  function EntryOf(page: Page): Index {
    page % 1024
  }

  function AddressOf(page: Page): Word32 {
    page * 0x1000
  }

  /** The three fields make up the address. */
  lemma FieldsMakeAddress(va: Word32)
    ensures DirectoryIndex(va) * 0x40_0000 + TableIndex(va) * 0x1000 + PageOffset(va) == va
  {
  }

  lemma IndicesOfPage(va: Word32)
    ensures DirectoryOf(PageOf(va)) == DirectoryIndex(va) && EntryOf(PageOf(va)) == TableIndex(va)
    ensures AddressOf(PageOf(va)) + PageOffset(va) == va
  {
  }

  /** A page is determined by its two indices. */
  lemma PageByIndices(p: Page, q: Page)
    requires DirectoryOf(p) == DirectoryOf(q) && EntryOf(p) == EntryOf(q)
    ensures p == q
  {
  }

  /** An entry gives back the frame and the flags it was made of. */
  lemma PteFields(a: Word32, flags: Word32)
    ensures GetAddress(CreatePte(a, flags)) == GetAddress(a)
    ensures GetFlags(CreatePte(a, flags)) == GetFlags(flags)
  {
  }

  lemma PdeFields(a: Word32, flags: Word32)
    ensures GetAddress(CreatePde(a, flags)) == GetAddress(a)
    ensures GetFlags(CreatePde(a, flags)) == GetFlags(flags)
  {
  }

  /** The frame is the entry rounded down to a multiple of 4096, the flags are the rest. */
  lemma FrameAndFlags(e: Word32)
    ensures GetAddress(e) + GetFlags(e) == e && GetAddress(e) % 4096 == 0 && GetFlags(e) < 4096
    ensures IsPresent(e) <==> Bit(e, 0) == 1
  {
  }

  /** And an entry is made of its frame and its flags. */
  lemma FieldsMakeEntry(e: Word32)
    ensures CreatePte(GetAddress(e), GetFlags(e)) == e
  {
  }

  /** Whether an entry is present depends on the flags alone. */
  lemma PresentBit(a: Word32, flags: Word32)
    ensures IsPresent(CreatePte(a, flags)) <==> flags % 2 == 1
    ensures IsPresent(CreatePde(a, flags)) <==> flags % 2 == 1
  {
    EvenPart(a / 0x1000 * 0x800, flags % 0x1000);
    EvenPart(flags / 0x1000 * 0x800, flags % 0x1000);
  }

  lemma EvenPart(k: nat, r: nat)
    ensures (2 * k + r) % 2 == r % 2
  {
  }

  lemma PresentWhenSet(a: Word32, flags: Word32)
    ensures IsPresent(CreatePte(a, WithPresent(flags)))
  {
    hide IsPresent, CreatePte;
    PresentBit(a, WithPresent(flags));
  }

  lemma PdePresentWhenSet(a: Word32, flags: Word32)
    ensures IsPresent(CreatePde(a, WithPresent(WithWrite(flags))))
  {
    hide IsPresent, CreatePde, WithWrite;
    PresentBit(a, WithPresent(WithWrite(flags)));
  }

  lemma AlignedAddress(a: Word32)
    requires a % 0x1000 == 0
    ensures GetAddress(a) == a
  {
  }
}
