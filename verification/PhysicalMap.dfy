/** setup_physical_map: all of physical memory in 1 GB pages from 0xFFFF800000000000 on, and the
    address arithmetic that relies on it. */
module PhysicalMap {
  import opened Bits
  import opened PageEntries
  import opened PageTables
  import opened Wrappers
  import opened PageTree
  import opened PageMapping

  const WINDOW_BASE: nat := 0xFFFF_8000_0000_0000
  const WINDOW_SLOT: nat := 256

  // The sum is taken in 64 bits.
  function NumGigs(total: Word): nat { (total + 0x3fff_ffff) % TWO_64 / GIGABYTE }

  lemma OneGigabyte()
    ensures NumGigs(0x4000_0000) == 1
  {
  }

  // The address after i rounds of the loop, in 64 bits.
  function GigAddress(i: nat): Word { (WINDOW_BASE + i * GIGABYTE) % TWO_64 }

  // The entry of round i; the product is taken in 64 bits.
  function GigEntry(i: nat): Word {
    SetHuge(SetPresent(SetWritable(SetAddress(0, i * GIGABYTE % TWO_64))))
  }

  function FillGigs(mem: Memory, p3: nat, rounds: nat): (r: Memory)
    ensures |r| == |mem|
  {
    if rounds == 0 then mem
    else Poke(FillGigs(mem, p3, rounds - 1), p3, Index(GigAddress(rounds - 1), 1), GigEntry(rounds - 1))
  }

  // The new table is linked at the slot of the address after the last page.
  function PhysMap(m: Machine, total: Word): Machine {
    var n := NewTable(m);
    var filled := FillGigs(n.mem, m.it, NumGigs(total));
    n.(mem := Poke(filled, P4_TABLE, Index(GigAddress(NumGigs(total)), 0), LinkEntry(0, m.it % TWO_64)))
  }

  lemma GigIndices(i: nat)
    requires i < 0x4_0000_0000
    ensures Index(GigAddress(i), 1) == i % ENTRIES
    ensures Index(GigAddress(i), 0) == (WINDOW_SLOT + i / ENTRIES) % ENTRIES
  {
    hide Index, GigAddress;
    var k := if 0x3_FFFE_0000 + i < 0x4_0000_0000 then 0 else 1;
    var g := 0x3_FFFE_0000 + i - k * 0x4_0000_0000;
    assert GigAddress(i) == g * GIGABYTE by { Wrap(i, k, g); }
    AddressDigits(g);
    GigDigitsOf(g, k, i);
  }

  // In gigabytes the window starts at 2^34 - 2^17, and the address space ends at 2^34.
  lemma Wrap(i: nat, k: nat, g: nat)
    requires g + k * 0x4_0000_0000 == 0x3_FFFE_0000 + i && k < 2 && g < 0x4_0000_0000
    ensures GigAddress(i) == g * GIGABYTE
  {
    assert WINDOW_BASE + i * GIGABYTE == TWO_64 * k + g * GIGABYTE;
    Remainder(WINDOW_BASE + i * GIGABYTE, TWO_64, k, g * GIGABYTE);
  }

  lemma AddressDigits(g: nat)
    requires g < 0x4_0000_0000
    ensures Index(g * GIGABYTE, 1) == g % 0x200 && Index(g * GIGABYTE, 0) == g / 0x200 % 0x200
  {
    Remainder(g * GIGABYTE, GIGABYTE, g, 0);
    var q, r := g / 0x200, g % 0x200;
    assert g * GIGABYTE == 0x80_0000_0000 * q + r * GIGABYTE;
    Remainder(g * GIGABYTE, 0x80_0000_0000, q, r * GIGABYTE);
  }

  lemma GigDigitsOf(g: nat, k: nat, i: nat)
    requires g + k * 0x4_0000_0000 == 0x3_FFFE_0000 + i && k < 2
    ensures g % 0x200 == i % 0x200 && g / 0x200 % 0x200 == (256 + i / 0x200) % 0x200
  {
    var q, r := i / 0x200, i % 0x200;
    var h := 0x1FF_FF00 + q - k * 0x200_0000;
    assert g == 0x200 * h + r;
    Remainder(g, 0x200, h, r);
    var b, c := (256 + q) / 0x200, (256 + q) % 0x200;
    assert h == 0x200 * (0xFFFF - k * 0x1_0000 + b) + c;
    Remainder(h, 0x200, 0xFFFF - k * 0x1_0000 + b, c);
  }

  lemma GigEntryValue(i: nat)
    requires i < ENTRIES
    ensures GigEntry(i) == i * GIGABYTE + 0x83
  {
    hide SetWritable, SetPresent, SetHuge, SetAddress;
    PlainAddress(i * 0x4_0000);
    assert i * GIGABYTE == i * 0x4_0000 * PAGE < TWO_52;
    FlagOrder(i);
  }

  lemma PlainAddress(k: nat)
    requires k < 0x100_0000_0000
    ensures SetAddress(0, k * PAGE) == k * PAGE
  {
    AlignedField(k * PAGE);
  }

  lemma GigEntryOk(i: nat)
    requires i < ENTRIES
    ensures var e := GigEntry(i);
            EntryOk(1, e) && Present(e) && Writable(e) && Huge(e) && !Reserved1G(e) && Frame1G(e) == i * GIGABYTE
  {
    hide GigEntry, Present, Writable, Huge, Reserved1G, Frame1G, Frame4K, GetAddress;
    GigEntryValue(i);
    assert i * GIGABYTE == i * 0x4_0000 * PAGE;
    FlagsRead(i * 0x4_0000, 0x83);
    GigFields(i);
  }

  lemma FlagOrder(i: nat)
    requires i < ENTRIES
    ensures SetPresent(SetWritable(i * GIGABYTE)) == i * GIGABYTE + 3
    ensures SetHuge(i * GIGABYTE + 3) == i * GIGABYTE + 0x83
  {
    var k := i * 0x8_0000;
    assert i * GIGABYTE == k * 0x800;
    FlagBits(k);
    assert k * 0x800 / 2 == k * 0x400;
  }

  lemma GigFields(i: nat)
    requires i < ENTRIES
    ensures Frame1G(i * GIGABYTE + 0x83) == i * GIGABYTE && !Reserved1G(i * GIGABYTE + 0x83)
  {
    assert (i * GIGABYTE + 0x83) / GIGABYTE == i;
    assert (i * GIGABYTE + 0x83) / 0x2000 == i * 0x2_0000;
  }

  // Filling the new table leaves the tree alone, and its first entries are the 1 GB pages.
  lemma {:induction false} Filled(m: Machine, p3: nat, rounds: nat)
    requires Tree(m) && Unreached(m.mem, p3) && TablePlace(m.it, p3) && rounds <= ENTRIES
    requires forall j: nat | j < ENTRIES :: Peek(m.mem, p3, j) == 0
    ensures var mem' := FillGigs(m.mem, p3, rounds);
            && Tree(m.(mem := mem')) && Unreached(mem', p3)
            && (forall d, n :: TableAt(mem', d, n) == TableAt(m.mem, d, n))
            && (forall d, n, j: nat | j < ENTRIES :: EntryAt(mem', d, n, j) == EntryAt(m.mem, d, n, j))
            && (forall j: nat | j < ENTRIES :: Peek(mem', p3, j) == if j < rounds then GigEntry(j) else 0)
  {
    hide Index, Tree, GigEntry, GigAddress, TableAt;
    WatermarkPlace(m);
    if rounds > 0 {
      Filled(m, p3, rounds - 1);
      GigIndices(rounds - 1);
      var before := m.(mem := FillGigs(m.mem, p3, rounds - 1));
      PokeUnreached(before, p3, rounds - 1, GigEntry(rounds - 1));
    }
  }

  ghost predicate WindowOnly(m: Machine, m': Machine, gigs: nat, x: Word) {
    Walk(m'.mem, x) ==
      if Canonical(x) && Node(x, 1) == WINDOW_SLOT then
        if Index(x, 1) < gigs then Mapped(x - WINDOW_BASE, true) else Fault
      else Walk(m.mem, x)
  }

  lemma Root(mem: Memory)
    ensures TableAt(mem, 0, 0) == Some(P4_TABLE)
  {
  }

  lemma WindowSplit(x: Word)
    requires Canonical(x) && Node(x, 1) == WINDOW_SLOT
    ensures Index(x, 1) * GIGABYTE + x % GIGABYTE == x - WINDOW_BASE
  {
    var q := x / 0x80_0000_0000;
    assert x / GIGABYTE / 0x200 == q by { DivideTwice(x, 0x4000_0000); }
    assert q % 0x200 == 256 && q < 0x200_0000;
    assert x >= 0x8000_0000_0000;
    assert q == 0x1FF_FF00;
  }

  lemma WindowWalk(m: Machine, f: Memory, m': Machine, gigs: nat, x: Word)
    requires Tree(m') && gigs < ENTRIES && WindowLinked(m, f, m', gigs)
    ensures WindowOnly(m, m', gigs, x)
  {
    hide Index, Node, Tree, GigEntry, TableAt, Frame1G, LinkEntry;
    StartOfRoute(m.mem, x);
    StartOfRoute(m'.mem, x);
    RouteStep(m'.mem, x, 0);
    FirstNode(x);
    if Canonical(x) && Node(x, 1) == WINDOW_SLOT {
      WalkReaches(m', x, 0, 1);
      WindowSplit(x);
      var i := Index(x, 1);
      assert Peek(m'.mem, m.it, i) == Used(m'.mem, x, 1) == if i < gigs then GigEntry(i) else 0;
      assert Walk(m'.mem, x) == WalkFrom(m'.mem, m.it, 1, x, true);
      if i < gigs {
        GigEntryOk(i);
      }
    } else if Canonical(x) {
      forall k: nat | k < 4
        ensures Used(m'.mem, x, k) == Used(m.mem, x, k)
      {
        UnderRoute(x, 1, WINDOW_SLOT, k);
      }
      WalkSame(m.mem, m'.mem, x, 0, true);
    }
  }

  // The memory whose P4 table is about to get the pointer to the filled table.
  function FilledMemory(m: Machine, total: Word): Memory {
    FillGigs(NewTable(m).mem, m.it, NumGigs(total))
  }

  // How the routine changes the tree: one new table, of 1 GB pages, at l4 slot 256.
  ghost predicate WindowLinked(m: Machine, f: Memory, m': Machine, gigs: nat) {
    && Linked(f, m'.mem, 0, 0, WINDOW_SLOT, LinkEntry(0, m.it % TWO_64), m.it)
    && (forall d, n :: TableAt(f, d, n) == TableAt(m.mem, d, n))
    && (forall d, n, j: nat | j < ENTRIES :: EntryAt(f, d, n, j) == EntryAt(m.mem, d, n, j))
    && (forall j: nat | j < ENTRIES :: Peek(f, m.it, j) == if j < gigs then GigEntry(j) else 0)
  }

  lemma PhysMapLinks(m: Machine, total: Word)
    requires Tree(m) && m.it + PAGE <= WINDOW && NumGigs(total) < ENTRIES
    ensures var m' := PhysMap(m, total);
            Tree(m') && m'.it == m.it + PAGE && WindowLinked(m, FilledMemory(m, total), m', NumGigs(total))
  {
    hide Index, Node, Tree, GigEntry, GigAddress, TableAt, LinkEntry, NumGigs, EntryOk, Child, EntryAt, Linkable,
         Linked, FillGigs, NewTable, FilledMemory;
    var f := FilledMachine(m, total);
    FilledIsLinkable(m, total);
    WatermarkPlace(m);
    LinkSlot(total);
    LinkEntryOk(0, m.it);
    Root(f.mem);
    PokeLink(f, 0, 0, WINDOW_SLOT, LinkEntry(0, m.it), m.it);
    assert PhysMap(m, total).mem == Poke(f.mem, P4_TABLE, WINDOW_SLOT, LinkEntry(0, m.it)) by { LinkedLast(m, total); }
  }

  function FilledMachine(m: Machine, total: Word): Machine { NewTable(m).(mem := FilledMemory(m, total)) }

  lemma LinkSlot(total: Word)
    requires NumGigs(total) < ENTRIES
    ensures Index(GigAddress(NumGigs(total)), 0) == WINDOW_SLOT
  {
    hide Index, NumGigs, GigAddress;
    GigIndices(NumGigs(total));
  }

  lemma LinkedLast(m: Machine, total: Word)
    requires NumGigs(total) < ENTRIES
    ensures var f := FilledMachine(m, total);
            PhysMap(m, total) == f.(mem := Poke(f.mem, P4_TABLE, WINDOW_SLOT, LinkEntry(0, m.it % TWO_64)))
  {
    hide Index, NumGigs, GigAddress, LinkEntry, FillGigs, NewTable;
    LinkSlot(total);
  }

  lemma FilledIsLinkable(m: Machine, total: Word)
    requires Tree(m) && m.it + PAGE <= WINDOW && NumGigs(total) < ENTRIES
    ensures var f := FilledMachine(m, total);
            && Tree(f) && Linkable(f, 1, m.it) && f.it == m.it + PAGE
            && (forall d, n :: TableAt(f.mem, d, n) == TableAt(m.mem, d, n))
            && (forall d, n, j: nat | j < ENTRIES :: EntryAt(f.mem, d, n, j) == EntryAt(m.mem, d, n, j))
            && (forall j: nat | j < ENTRIES :: Peek(f.mem, m.it, j) == if j < NumGigs(total) then GigEntry(j) else 0)
  {
    hide Index, Node, Tree, GigEntry, GigAddress, TableAt, NumGigs;
    NewTableKeepsTree(m, 1);
    Filled(NewTable(m), m.it, NumGigs(total));
    forall j: nat | j < ENTRIES
      ensures EntryOk(1, Peek(FilledMemory(m, total), m.it, j)) && Child(1, Peek(FilledMemory(m, total), m.it, j)).None?
    {
      if j < NumGigs(total) { GigEntryOk(j); }
    }
  }

  /** For at most 511 GB the routine maps l4 slot 256 to exactly the first gigabytes of physical
      memory and leaves every other translation as it was. */
  lemma PhysMapCorrect(m: Machine, total: Word)
    requires Tree(m) && m.it + PAGE <= WINDOW && NumGigs(total) < ENTRIES
    ensures var m' := PhysMap(m, total);
            && Tree(m') && m'.it == m.it + PAGE
            && forall x: Word :: WindowOnly(m, m', NumGigs(total), x)
  {
    hide Index, Node, Tree, GigEntry, TableAt, LinkEntry, WindowOnly, PhysMap;
    PhysMapLinks(m, total);
    forall x: Word {
      WindowWalk(m, FilledMemory(m, total), PhysMap(m, total), NumGigs(total), x);
    }
  }

  // The tables and large pages afterwards.
  lemma WindowEntries(m: Machine, total: Word)
    requires Tree(m) && m.it + PAGE <= WINDOW && NumGigs(total) < ENTRIES
    ensures var m' := PhysMap(m, total);
            && (forall d: nat, n: nat :: TableAt(m'.mem, d, n) ==
                 if d == 1 && n == WINDOW_SLOT then Some(m.it)
                 else if Under(1, WINDOW_SLOT, d, n) then None else TableAt(m.mem, d, n))
            && (forall x: Word, d: nat | 1 <= d <= 2 ::
                 Used(m'.mem, x, d) ==
                 if Node(x, 1) != WINDOW_SLOT then Used(m.mem, x, d)
                 else if d == 1 && Index(x, 1) < NumGigs(total) then GigEntry(Index(x, 1)) else 0)
  {
    hide Index, Node, Tree, GigEntry, TableAt, LinkEntry, PhysMap, NumGigs;
    PhysMapLinks(m, total);
    forall x: Word, d: nat | 1 <= d <= 2
      ensures Under(1, WINDOW_SLOT, d, Node(x, d)) <==> Node(x, 1) == WINDOW_SLOT
    {
      UnderRoute(x, 1, WINDOW_SLOT, d);
    }
  }

  // ---- Addresses in the window ----

  lemma Powers()
    ensures Pow2(12) == PAGE && Pow2(33) == 0x2_0000_0000 && Pow2(47) == 0x8000_0000_0000 && Pow2(64) == TWO_64
  {
    hide Pow2;
    SmallPowers();
    BytePowers();
    PowAdd(4, 8);
    PowAdd(16, 16);
    PowAdd(16, 32);
    PowAdd(32, 32);
    PowAdd(1, 32);
    assert Pow2(48) == 2 * Pow2(47) by { PowAdd(1, 47); }
  }

  // physical_to_virtual_address
  function PhysicalToVirtual(addr: Word): Word {
    Powers();
    Fits(addr, WINDOW_BASE, 64);
    Or(addr, WINDOW_BASE)
  }

  /** The bitwise or is an addition exactly for addresses below 2^47. */
  lemma OrIsAddition(p: Word)
    ensures PhysicalToVirtual(p) == p + WINDOW_BASE <==> p < 0x8000_0000_0000
  {
    Powers();
    if p < 0x8000_0000_0000 {
      OrIsSum(p, 0x1_FFFF, 47);
    }
  }

  // The mask of map_kernel, which keeps bits 12 to 44.
  function FrameMask(x: Word): nat {
    Powers();
    And(x, Not(64, 0xFFFF_E000_0000_0FFF))
  }

  lemma FrameMaskField(x: Word)
    ensures FrameMask(x) == x / PAGE % 0x2_0000_0000 * PAGE
  {
    Powers();
    AndMask(x, 33, 12);
  }

  /** The mask takes a window address back to the page of its physical address exactly below 2^45. */
  lemma FrameMaskExact(p: Word)
    ensures FrameMask(PhysicalToVirtual(p)) == p - p % PAGE <==> p < 0x2000_0000_0000
  {
    hide PhysicalToVirtual, FrameMask;
    FrameMaskField(PhysicalToVirtual(p));
    if p < 0x2000_0000_0000 {
      OrIsAddition(p);
      WindowFrame(p);
    } else {
      assert p - p % PAGE >= 0x2000_0000_0000;
    }
  }

  lemma WindowFrame(p: nat)
    requires p < 0x2000_0000_0000
    ensures (p + WINDOW_BASE) / PAGE % 0x2_0000_0000 == p / PAGE
  {
    var k := p / PAGE;
    assert (p + WINDOW_BASE) / PAGE == k + 0x7_FFFC * 0x2_0000_0000;
  }

  lemma WindowNode(p: nat)
    requires p < 0x80_0000_0000
    ensures Canonical(p + WINDOW_BASE) && Node(p + WINDOW_BASE, 1) == WINDOW_SLOT
    ensures Index(p + WINDOW_BASE, 1) == p / GIGABYTE
  {
    assert (p + WINDOW_BASE) / 0x80_0000_0000 == 0x1FF_FF00;
    assert (p + WINDOW_BASE) / GIGABYTE == p / GIGABYTE + 0x1FF_FF00 * 0x200;
  }

  // In gigabytes rounded up, unless the rounding wraps.
  lemma GigsOf(total: Word)
    ensures total <= 511 * GIGABYTE <==> NumGigs(total) < ENTRIES && total + 0x3fff_ffff < TWO_64
    ensures total + 0x3fff_ffff < TWO_64 ==> total <= NumGigs(total) * GIGABYTE < total + GIGABYTE
    ensures total + 0x3fff_ffff >= TWO_64 ==> NumGigs(total) == 0
  {
    var sum := total + 0x3fff_ffff;
    if sum < TWO_64 {
      assert sum == NumGigs(total) * GIGABYTE + sum % GIGABYTE;
    } else {
      assert sum % TWO_64 == sum - TWO_64;
    }
  }

  /** The purpose of setup_physical_map, with its exact range: when the two l4 slots concerned are
      free, every byte of the physical memory can be reached through the window if and only if there
      are at most 511 GB of it. */
  lemma PhysicalWindowExact(m: Machine, total: Word)
    requires Tree(m) && m.it + PAGE <= WINDOW
    requires !Present(Peek(m.mem, P4_TABLE, 256)) && !Present(Peek(m.mem, P4_TABLE, 257))
    ensures (forall p: Word | p < total :: Walk(PhysMap(m, total).mem, PhysicalToVirtual(p)) == Mapped(p, true))
       <==> total <= 511 * GIGABYTE
  {
    hide Node, Tree, PhysMap, PhysicalToVirtual, NumGigs, Walk;
    GigsOf(total);
    if total <= 511 * GIGABYTE {
      WindowReaches(m, total);
    } else if NumGigs(total) < ENTRIES {
      EmptyWindow(m, total);
    } else {
      var p := SlotMissed(m, total);
    }
  }

  // Up to 511 GB, the rounded-up memory is reached.
  lemma WindowReaches(m: Machine, total: Word)
    requires Tree(m) && m.it + PAGE <= WINDOW && NumGigs(total) < ENTRIES
    ensures forall p: Word | p < NumGigs(total) * GIGABYTE ::
              Walk(PhysMap(m, total).mem, PhysicalToVirtual(p)) == Mapped(p, true)
  {
    hide Node, Tree, PhysMap, PhysicalToVirtual, NumGigs;
    PhysMapCorrect(m, total);
    forall p: Word | p < NumGigs(total) * GIGABYTE
      ensures Walk(PhysMap(m, total).mem, PhysicalToVirtual(p)) == Mapped(p, true)
    {
      OrIsAddition(p);
      WindowNode(p);
      assert WindowOnly(m, PhysMap(m, total), NumGigs(total), p + WINDOW_BASE);
    }
  }

  // When the rounding wraps the window is linked where it should be, but empty.
  lemma EmptyWindow(m: Machine, total: Word)
    requires Tree(m) && m.it + PAGE <= WINDOW && NumGigs(total) == 0
    ensures Walk(PhysMap(m, total).mem, PhysicalToVirtual(0)) == Fault
  {
    hide Node, Tree, PhysMap, PhysicalToVirtual, NumGigs;
    PhysMapCorrect(m, total);
    OrIsAddition(0);
    WindowNode(0);
    assert WindowOnly(m, PhysMap(m, total), NumGigs(total), WINDOW_BASE);
  }

  // With more than 511 GB the table is linked at the slot after its own, or further on.
  lemma SlotMissed(m: Machine, total: Word) returns (p: Word)
    requires Tree(m) && m.it + PAGE <= WINDOW && NumGigs(total) >= ENTRIES
    requires !Present(Peek(m.mem, P4_TABLE, 256)) && !Present(Peek(m.mem, P4_TABLE, 257))
    ensures p < total && Walk(PhysMap(m, total).mem, PhysicalToVirtual(p)) == Fault
  {
    hide Tree, FillGigs, GigAddress, LinkEntry, PhysicalToVirtual;
    var gigs := NumGigs(total);
    GigsOf(total);
    GigIndices(gigs);
    var slot := Index(GigAddress(gigs), 0);
    var s;
    if slot == 256 {
      p, s := 0x80_0000_0000, 257;
    } else {
      p, s := 0, 256;
    }
    P4Kept(m, total, s);
    OrIsAddition(p);
    SlotOf(p);
  }

  lemma SlotOf(p: Word)
    requires p in {0, 0x80_0000_0000}
    ensures Canonical(p + WINDOW_BASE) && Index(p + WINDOW_BASE, 0) == if p == 0 then 256 else 257
  {
  }

  lemma P4Kept(m: Machine, total: Word, s: nat)
    requires Tree(m) && m.it + PAGE <= WINDOW && s < ENTRIES && s != Index(GigAddress(NumGigs(total)), 0)
    ensures Peek(PhysMap(m, total).mem, P4_TABLE, s) == Peek(m.mem, P4_TABLE, s)
  {
    hide Index, GigAddress, LinkEntry, GigEntry, NumGigs;
    WatermarkPlace(m);
    P4KeptByFill(NewTable(m).mem, m.it, NumGigs(total), s);
  }

  lemma {:induction false} P4KeptByFill(mem: Memory, p3: nat, rounds: nat, s: nat)
    requires s < ENTRIES && p3 % PAGE == 0 && p3 >= FIRST_NEW_TABLE
    ensures Peek(FillGigs(mem, p3, rounds), P4_TABLE, s) == Peek(mem, P4_TABLE, s)
  {
    hide Index, GigAddress, GigEntry;
    if rounds > 0 {
      P4KeptByFill(mem, p3, rounds - 1, s);
      WordsApart(P4_TABLE, s, p3, Index(GigAddress(rounds - 1), 1));
    }
  }
}
