/** 64-bit page-table entries and virtual addresses as bit-fields over unbounded integers:
    the accessors of the loader (paging.h) and, beside them, the fields the processor reads
    (Intel SDM volume 3A, section 4.5). */
module PageEntries {
  import opened Bits

  const TWO_52: nat := 0x10_0000_0000_0000
  const PAGE: nat := 0x1000
  const LARGE_PAGE: nat := 0x20_0000
  const GIGABYTE: nat := 0x4000_0000
  const ENTRIES: nat := 512

  type Word = w: nat | w < TWO_64

  // ---- The loader's view of an entry ----

  predicate Present(e: Word) { e % 2 == 1 }

  predicate Writable(e: Word) { e / 2 % 2 == 1 }

  predicate Huge(e: Word) { e / 0x80 % 2 == 1 }

  // The addr field is 42 bits wide and starts at bit 11, not at bit 12.
  function AddrField(e: Word): nat { e / 0x800 % 0x400_0000_0000 }

  function GetAddress(e: Word): Word { AddrField(e) * 0x800 }

  function SetAddress(e: Word, n: Word): Word {
    e - AddrField(e) * 0x800 + (n / 0x800 % 0x400_0000_0000) * 0x800
  }

  function SetPresent(e: Word): Word { if Present(e) then e else e + 1 }

  function SetWritable(e: Word): Word { if Writable(e) then e else e + 2 }

  function SetHuge(e: Word): Word { if Huge(e) then e else e + 0x80 }

  // The assignments made to an entry that is to point at a table, in source order.
  function LinkEntry(e: Word, table: Word): Word {
    SetWritable(SetPresent(SetAddress(e, table)))
  }

  function LeafEntry(physical: Word): Word {
    SetWritable(SetPresent(SetAddress(0, physical)))
  }

  function HugeLeafEntry(physical: Word): Word {
    SetHuge(SetWritable(SetPresent(SetAddress(0, physical))))
  }

  // ---- The processor's view of an entry ----

  function Frame4K(e: Word): nat { e / PAGE % 0x100_0000_0000 * PAGE }

  function Frame2M(e: Word): nat { e / LARGE_PAGE % 0x8000_0000 * LARGE_PAGE }

  function Frame1G(e: Word): nat { e / GIGABYTE % 0x40_0000 * GIGABYTE }

  // Address bits below the frame of a large page, apart from bit 12 (PAT), are reserved.
  predicate Reserved2M(e: Word) { e / 0x2000 % 0x100 != 0 }

  predicate Reserved1G(e: Word) { e / 0x2000 % 0x2_0000 != 0 }

  // ---- Virtual addresses ----

  predicate Canonical(va: Word) {
    va < 0x8000_0000_0000 || va >= 0xFFFF_8000_0000_0000
  }

  // The nine index bits used at depth 0 (l4_index) to depth 3 (l1_index).
  function Index(va: Word, depth: nat): (i: nat)
    requires depth < 4
    ensures i < ENTRIES
  {
    match depth
    case 0 => va / 0x80_0000_0000 % 0x200
    case 1 => va / 0x4000_0000 % 0x200
    case 2 => va / 0x20_0000 % 0x200
    case _ => va / 0x1000 % 0x200
  }

  /** The region of the address space that the walk of `va` is in after `depth` steps: four nine-bit
      indices name a 4 KB page, three a 2 MB region, and so on up to the whole space. */
  function Node(va: Word, depth: nat): nat
    requires depth <= 4
  {
    match depth
    case 0 => 0
    case 1 => va / 0x80_0000_0000 % 0x200
    case 2 => va / 0x4000_0000 % 0x4_0000
    case 3 => va / 0x20_0000 % 0x800_0000
    case _ => va / 0x1000 % 0x10_0000_0000
  }

  lemma NodeStep(va: Word, depth: nat)
    requires depth < 4
    ensures Node(va, depth + 1) == Node(va, depth) * ENTRIES + Index(va, depth)
  {
    match depth
    case 0 =>
    case 1 => SplitField(va / 0x4000_0000, 0x200);
              DivideTwice(va, 0x4000_0000);
    case 2 => SplitField(va / 0x20_0000, 0x4_0000);
              DivideTwice(va, 0x20_0000);
    case _ => SplitField(va / 0x1000, 0x800_0000);
              DivideTwice(va, 0x1000);
  }

  // Dividing in two steps, for the shifts that separate adjacent index fields.
  lemma DivideTwice(x: nat, unit: nat)
    requires unit in {0x1000, 0x20_0000, 0x4000_0000}
    ensures x / (unit * 0x200) == x / unit / 0x200
  {
    var q, r := x / (unit * 0x200), x % (unit * 0x200);
    assert x / unit == 0x200 * q + r / unit;
  }

  lemma SplitField(x: nat, span: nat)
    requires span in {0x200, 0x4_0000, 0x800_0000}
    ensures x % (span * 0x200) == x / 0x200 % span * 0x200 + x % 0x200
  {
    SplitRemainder(x, span, x / 0x200 / span, x / 0x200 % span, x % 0x200);
  }

  lemma SplitRemainder(x: nat, span: nat, h: nat, n: nat, i: nat)
    requires span in {0x200, 0x4_0000, 0x800_0000} && n < span && i < 0x200
    requires x == (span * h + n) * 0x200 + i
    ensures x % (span * 0x200) == n * 0x200 + i
  {
    if span == 0x200 {
      assert x == 0x4_0000 * h + (n * 0x200 + i);
    } else if span == 0x4_0000 {
      assert x == 0x800_0000 * h + (n * 0x200 + i);
    } else {
      assert x == 0x10_0000_0000 * h + (n * 0x200 + i);
    }
  }

  // Setting the flags of an entry that holds only an address adds their bits.
  lemma FlagBits(k: nat)
    requires k < 0x400_0000_0000
    ensures SetWritable(SetPresent(k * 0x800)) == k * 0x800 + 3
    ensures SetHuge(k * 0x800 + 3) == k * 0x800 + 0x83
  {
    assert k * 0x800 / 2 == k * 0x400;
    assert (k * 0x800 + 3) / 0x80 == k * 0x10;
  }

  lemma LeafEntryValue(n: Word)
    ensures var k := n / 0x800 % 0x400_0000_0000;
            LinkEntry(0, n) == LeafEntry(n) == k * 0x800 + 3 && HugeLeafEntry(n) == k * 0x800 + 0x83
  {
    FlagBits(n / 0x800 % 0x400_0000_0000);
  }

  lemma AlignedField(n: Word)
    requires n % PAGE == 0 && n < TWO_52
    ensures n / 0x800 % 0x400_0000_0000 == n / PAGE * 2
  {
    var k := n / PAGE;
    assert n == k * 2 * 0x800;
  }

  /** For page-aligned addresses below 2^52 an entry holds the address with the flags beside it. */
  lemma EntryValues(n: Word)
    requires n % PAGE == 0 && n < TWO_52
    ensures LinkEntry(0, n) == LeafEntry(n) == n + 3 && HugeLeafEntry(n) == n + 0x83
  {
    LeafEntryValue(n);
    AlignedField(n);
  }

  /** What the loader writes is what the processor reads back for exactly the page-aligned addresses
      below 2^52: there the odd position of the address field costs nothing. */
  lemma LeafEntryExact(n: Word)
    ensures Frame4K(LeafEntry(n)) == n <==> n % PAGE == 0 && n < TWO_52
  {
    hide LeafEntry, GetAddress, Frame4K;
    if n % PAGE == 0 && n < TWO_52 {
      EntryValues(n);
      FlagsKeepFrame(n / PAGE, 3);
    }
    FramesInRange(LeafEntry(n));
  }

  lemma FramesInRange(e: Word)
    ensures Frame4K(e) % PAGE == 0 && Frame4K(e) < TWO_52 && Frame2M(e) % LARGE_PAGE == 0 && Frame2M(e) < TWO_52
  {
    FrameRange(e / PAGE % 0x100_0000_0000, PAGE);
    FrameRange(e / LARGE_PAGE % 0x8000_0000, LARGE_PAGE);
  }

  lemma FrameRange(f: nat, unit: nat)
    requires (unit == PAGE && f < 0x100_0000_0000) || (unit == LARGE_PAGE && f < 0x8000_0000)
    ensures f * unit % unit == 0 && f * unit < TWO_52
  {
  }

  lemma FlagsKeepFrame(k: nat, flags: nat)
    requires k < 0x100_0000_0000 && flags < 0x800
    ensures Frame4K(k * PAGE + flags) == k * PAGE == GetAddress(k * PAGE + flags)
  {
    assert (k * PAGE + flags) / PAGE == k;
    assert (k * PAGE + flags) / 0x800 == k * 2;
  }

  /** A 2 MB leaf is decoded without a fault and to the given frame exactly for the 2 MB aligned
      addresses below 2^52. */
  lemma HugeLeafEntryExact(n: Word)
    ensures !Reserved2M(HugeLeafEntry(n)) && Frame2M(HugeLeafEntry(n)) == n
       <==> n % LARGE_PAGE == 0 && n < TWO_52
  {
    hide HugeLeafEntry, Frame2M, Reserved2M, Frame4K;
    if n % LARGE_PAGE == 0 && n < TWO_52 {
      assert n % PAGE == 0;
      EntryValues(n);
      HugeFields(n / LARGE_PAGE);
    }
    FramesInRange(HugeLeafEntry(n));
  }

  lemma HugeFields(k: nat)
    requires k < 0x8000_0000
    ensures Frame2M(k * LARGE_PAGE + 0x83) == k * LARGE_PAGE && !Reserved2M(k * LARGE_PAGE + 0x83)
  {
    assert (k * LARGE_PAGE + 0x83) / LARGE_PAGE == k;
    assert (k * LARGE_PAGE + 0x83) / 0x2000 == k * 0x100;
  }
}
