/** The page tables that start.asm leaves behind, and what every run of the mappers keeps of them. */
module BootTables {
  import opened PageEntries
  import opened PageTables
  import opened Wrappers
  import opened PageTree
  import opened PageMapping
  import opened PageRuns
  import opened PhysicalMap

  // mov DWORD: the lower half of a word is replaced.
  function StoreLow(w: Word, v: nat): Word
    requires v < 0x1_0000_0000
  {
    w - w % 0x1_0000_0000 + v
  }

  function BootWord(j: nat): Word {
    if j == 0x200 then 0x2003
    else if j == 0x400 then 0x3003
    else if j == 0x600 then 0x4003
    else if 0x800 <= j < 0xA00 then (j - 0x800) * 0x1000 + 3
    else 0
  }

  /** Four tables from 0x1000 on; the rest of memory may hold anything. */
  predicate BootMemory(mem: Memory) {
    |mem| == WORDS && forall j | 0x200 <= j < 0xA00 :: mem[j] == BootWord(j)
  }

  // setup_and_enable_paging
  method SetupAndEnablePaging(words: array<Word>)
    requires words.Length == WORDS
    modifies words
    ensures BootMemory(words[..])
    ensures forall j | 0 <= j < WORDS && !(0x200 <= j < 0xA00) :: words[j] == old(words[j])
  {
    var edi := 0x1000;
    // rep stosd stores 4096 double words, two to a word
    for k := 0 to 2048
      invariant forall j | 0 <= j < WORDS ::
                  words[j] == if 0x200 <= j < 0x200 + k then 0 else old(words[j])
    {
      words[edi / 8 + k] := 0;
    }
    words[edi / 8] := StoreLow(words[edi / 8], 0x2003);
    edi := edi + 0x1000;
    words[edi / 8] := StoreLow(words[edi / 8], 0x3003);
    edi := edi + 0x1000;
    words[edi / 8] := StoreLow(words[edi / 8], 0x4003);
    edi := edi + 0x1000;
    var ebx, ecx := 3, 512;
    while ecx != 0
      invariant 0 <= ecx <= 512 && ebx == (512 - ecx) * 0x1000 + 3 && edi == 0x4000 + 8 * (512 - ecx)
      invariant forall j | 0 <= j < WORDS && !(0x200 <= j < 0xA00) :: words[j] == old(words[j])
      invariant forall j | 0x200 <= j < 0xA00 :: words[j] == if j < 0x800 + (512 - ecx) then BootWord(j) else 0
      decreases ecx
    {
      words[edi / 8] := StoreLow(words[edi / 8], ebx);
      ebx := ebx + 0x1000;
      edi := edi + 8;
      ecx := ecx - 1;
    }
  }

  lemma {:induction false} BootTableAt(mem: Memory, d: nat, n: nat)
    requires BootMemory(mem)
    ensures TableAt(mem, d, n) == if d <= 3 && n == 0 then Some(0x1000 * (d + 1)) else None
  {
    if d > 0 {
      BootTableAt(mem, d - 1, n / ENTRIES);
      if d <= 3 && n / ENTRIES == 0 {
        var i := n % ENTRIES;
        assert Peek(mem, 0x1000 * d, i) == BootWord(0x200 * d + i);
        assert Child(d - 1, BootWord(0x200 * d + i)) == if n == 0 then Some(0x1000 * (d + 1)) else None;
      }
    }
  }

  lemma BootEntry(mem: Memory, d: nat, i: nat)
    requires BootMemory(mem) && d <= 3 && i < ENTRIES
    ensures EntryAt(mem, d, 0, i) ==
            if d == 3 then i * PAGE + 3 else if i == 0 then 0x1000 * (d + 2) + 3 else 0
    ensures EntryOk(d, EntryAt(mem, d, 0, i))
  {
    hide Frame4K, GetAddress, Writable, Present, Huge;
    BootTableAt(mem, d, 0);
    assert EntryAt(mem, d, 0, i) == Peek(mem, 0x1000 * (d + 1), i) == BootWord(0x200 * (d + 1) + i);
    FlagsRead(i, 3);
    FlagsRead(d + 2, 3);
  }

  /** start.asm leaves a tree of tables with the watermark where new_page_table starts it. */
  lemma BootTree(mem: Memory)
    requires BootMemory(mem)
    ensures Tree(Machine(mem, FIRST_NEW_TABLE))
  {
    hide EntryOk;
    forall d, n {
      BootTableAt(mem, d, n);
    }
    forall d: nat, n: nat, i: nat | i < ENTRIES
      ensures EntryOk(d, EntryAt(mem, d, n, i))
    {
      if TableAt(mem, d, n).Some? { BootEntry(mem, d, i); } else { EmptyOk(d); }
    }
    TreeFromEntries(Machine(mem, FIRST_NEW_TABLE));
  }

  lemma EmptyOk(d: nat)
    ensures EntryOk(d, 0)
  {
  }

  // ---- What is translated at boot, and stays translated ----

  lemma BootStop(m: Machine, x: Word, d: nat)
    requires BootMemory(m.mem) && m.it == FIRST_NEW_TABLE && Canonical(x) && d < 3
    requires Node(x, d) == 0 && Node(x, d + 1) != 0
    ensures Walk(m.mem, x) == Fault
  {
    hide Node, Index, Tree;
    BootTree(m.mem);
    BootTableAt(m.mem, d, 0);
    StartOfRoute(m.mem, x);
    NodeStep(x, d);
    BootEntry(m.mem, d, Index(x, d));
    WalkReaches(m, x, 0, d);
  }

  lemma FirstPages(x: Word)
    requires Canonical(x)
    ensures Node(x, 3) == 0 <==> x < LARGE_PAGE
    ensures x < LARGE_PAGE ==> Index(x, 3) == x / PAGE
  {
    NodeStep(x, 0);
    NodeStep(x, 1);
    NodeStep(x, 2);
    if x >= 0xFFFF_8000_0000_0000 {
      assert x / 0x80_0000_0000 >= 0x1FF_FF00;
    }
  }

  /** At boot exactly the first 2 MB are mapped, each byte to itself. */
  lemma BootWalk(mem: Memory, x: Word)
    requires BootMemory(mem)
    ensures Walk(mem, x) == if x < LARGE_PAGE then Mapped(x, true) else Fault
  {
    hide Node, Index, Tree, Frame4K;
    var m := Machine(mem, FIRST_NEW_TABLE);
    if Canonical(x) {
      FirstPages(x);
      FirstNode(x);
      if Node(x, 3) == 0 {
        BootTree(mem);
        BootTableAt(mem, 3, 0);
        StartOfRoute(mem, x);
        BootEntry(mem, 3, x / PAGE);
        WalkReaches(m, x, 0, 3);
        FlagsRead(x / PAGE, 3);
      } else if Node(x, 1) != 0 {
        BootStop(m, x, 0);
      } else if Node(x, 2) != 0 {
        BootStop(m, x, 1);
      } else {
        BootStop(m, x, 2);
      }
    }
  }

  function EntryAddress(table: nat, i: nat): nat { table + 8 * i }

  ghost predicate IdentityWindow(mem: Memory) {
    forall x: Word | x < WINDOW :: Walk(mem, x) == Mapped(x, true)
  }

  lemma OtherSlot(c: Call, x: Word)
    requires Index(c.va, 0) != 0 && x < WINDOW
    ensures !c.Covers(x)
  {
    hide Index;
    FirstPages(x);
    NodeStep(x, 0);
    NodeStep(x, 1);
    NodeStep(x, 2);
    NodeStep(x, 3);
    NodeStep(c.va, 0);
    NodeStep(c.va, 1);
    NodeStep(c.va, 2);
    NodeStep(c.va, 3);
  }

  /** The whole of it from the boot tables: any run that touches at most 480 new table positions. */
  lemma BootRun(mem: Memory, calls: seq<Call>)
    requires BootMemory(mem) && |NewTables(mem, calls)| <= 480
    requires forall i | 0 <= i < |calls| :: CallOk(mem, calls[..i], calls[i])
    ensures var m := Run(Machine(mem, FIRST_NEW_TABLE), calls);
            && Tree(m) && m.it == 0x2_0000 + 0x1000 * |NewTables(mem, calls)|
            && forall x: Word :: Walk(m.mem, x) == LastMapping(mem, calls, x)
  {
    hide Walk, CallOk;
    BootTree(mem);
    RunCorrect(Machine(mem, FIRST_NEW_TABLE), calls);
  }

  // ---- The state in which the kernel is mapped ----

  /** start.asm and then setup_physical_map. */
  function Booted(mem: Memory, total: Word): Machine {
    PhysMap(Machine(mem, FIRST_NEW_TABLE), total)
  }

  function BootedWalk(gigs: nat, x: Word): Translation {
    if x < LARGE_PAGE then Mapped(x, true)
    else if WINDOW_BASE <= x < WINDOW_BASE + gigs * GIGABYTE then Mapped(x - WINDOW_BASE, true)
    else Fault
  }

  lemma WindowAdded(mem: Memory, total: Word, x: Word)
    requires BootMemory(mem) && NumGigs(total) < ENTRIES
    requires WindowOnly(Machine(mem, FIRST_NEW_TABLE), Booted(mem, total), NumGigs(total), x)
    ensures Walk(Booted(mem, total).mem, x) == BootedWalk(NumGigs(total), x)
  {
    hide Node, Index, Walk, PhysMap, NumGigs;
    BootWalk(mem, x);
    if Canonical(x) && Node(x, 1) == WINDOW_SLOT {
      WindowSplit(x);
      WindowRange(Index(x, 1), NumGigs(total), x - WINDOW_BASE);
    } else if WINDOW_BASE <= x < WINDOW_BASE + NumGigs(total) * GIGABYTE {
      WindowNode(x - WINDOW_BASE);
    }
  }

  /** The first 2 MB are still mapped to themselves, physical memory is in the window, and nothing else
      is mapped. */
  lemma BootWithWindow(mem: Memory, total: Word)
    requires BootMemory(mem) && NumGigs(total) < ENTRIES
    ensures var m := Booted(mem, total);
            && Tree(m) && m.it == 0x2_1000 && IdentityWindow(m.mem)
            && forall x: Word :: Walk(m.mem, x) == BootedWalk(NumGigs(total), x)
  {
    hide Walk, PhysMap, NumGigs, WindowOnly;
    BootTree(mem);
    PhysMapCorrect(Machine(mem, FIRST_NEW_TABLE), total);
    forall x: Word
      ensures Walk(Booted(mem, total).mem, x) == BootedWalk(NumGigs(total), x)
    {
      WindowAdded(mem, total, x);
    }
  }

  lemma WindowRange(i: nat, gigs: nat, p: int)
    requires i * GIGABYTE <= p < (i + 1) * GIGABYTE
    ensures i < gigs <==> p < gigs * GIGABYTE
  {
  }

  const KERNEL_REGION: Word := 0xFFFF_9000_0000_0000

  // Outside l4 slots 0 and 256 there are no tables yet.
  lemma FreshRegion(mem: Memory, total: Word, va: Word)
    requires BootMemory(mem) && NumGigs(total) < ENTRIES && Index(va, 0) !in {0, WINDOW_SLOT}
    ensures var r := Booted(mem, total).mem;
            MissingTables(r, va, 3) == 3 && !HugeOn(r, va, 1) && !HugeOn(r, va, 2)
  {
    hide Node, Index, TableAt, Tree, PhysMap, NumGigs, GigEntry;
    var r := Booted(mem, total).mem;
    BootTree(mem);
    WindowEntries(Machine(mem, FIRST_NEW_TABLE), total);
    FirstNode(va);
    forall d: nat | 1 <= d <= 3
      ensures RouteTable(r, va, d).None? && Used(r, va, d) == 0
    {
      UnderRoute(va, 1, WINDOW_SLOT, d);
      BootTableAt(mem, d, Node(va, d));
      NonZeroNode(va, d);
    }
    ZeroNotHuge();
    assert MissingTables(r, va, 1) == 1;
    assert MissingTables(r, va, 2) == 2;
  }

  lemma {:induction false} NonZeroNode(va: Word, d: nat)
    requires 1 <= d <= 3 && Node(va, 1) != 0
    ensures Node(va, d) != 0
  {
    hide Node, Index;
    if d > 1 {
      NonZeroNode(va, d - 1);
      RouteStep([], va, d - 1);
    }
  }

  lemma OneCall(mem: Memory, c: Call)
    requires c.Page4K?
    ensures NewTables(mem, [c]) == {} + NewOnRoute(mem, c.va, 3)
    ensures [c][..0] == [] && !LargeRegion([], Node(c.va, 3))
  {
    hide Node, NewOnRoute;
    assert [c][..0] == [];
    assert NewTables(mem, [c][..0]) == {};
  }

  /** The first page mapped in any region outside those two slots, such as the kernel's, is a legal run
      and needs one new table of each level. */
  lemma FirstPageOfRegion(mem: Memory, total: Word, va: Word, physical: Word)
    requires BootMemory(mem) && NumGigs(total) < ENTRIES && Index(va, 0) !in {0, WINDOW_SLOT}
    requires physical % PAGE == 0 && physical < TWO_52
    ensures var (m, calls) := (Booted(mem, total), [Page4K(va, physical)]);
            RunOk(m, calls) && |NewTables(m.mem, calls)| == 3 && Run(m, calls).it == 0x2_4000
  {
    hide Node, Index, TableAt, Tree, Walk, Map4K, NewTables, NewOnRoute, MissingTables, HugeOn, Run, BootMemory, Booted,
         NumGigs;
    var m, c := Booted(mem, total), Page4K(va, physical);
    BootWithWindow(mem, total);
    FreshRegion(mem, total, va);
    OneCall(m.mem, c);
    CountNew(m.mem, m.mem, {}, va, 3);
    RunCorrect(m, [c]);
  }

  lemma KernelSlots(x: Word)
    requires x >= KERNEL_REGION
    ensures 288 <= Index(x, 0) && Index(x, 0) !in {0, WINDOW_SLOT} && Canonical(x)
  {
    assert x / 0x80_0000_0000 >= 0x1FF_FF20;
  }
}
