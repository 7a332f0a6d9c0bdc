/** print_pagetable: the lines it prints, and that they list the address space exactly. */
module PageDump {
  import opened PageEntries
  import opened PageTables
  import opened Wrappers
  import opened PageTree
  import opened PageMapping

  /** One printed line: table level, index, raw entry and the address the loader reads in it. */
  datatype Line = Line(level: nat, index: nat, raw: Word, paddr: Word)

  predicate Descends(level: nat, e: Word) { level == 4 || ((level == 2 || level == 3) && !Huge(e)) }

  // The lines for one entry: its own and those of the table below it.
  function EntryLines(mem: Memory, table: nat, level: nat, i: nat): seq<Line>
    decreases level, ENTRIES + 1
  {
    var e := Peek(mem, table, i);
    if !Present(e) then []
    else [Line(level, i, e, GetAddress(e))] +
         if level > 0 && Descends(level, e) then Dump(mem, GetAddress(e), level - 1, 0) else []
  }

  // The lines for entries i and above of a table.
  function Dump(mem: Memory, table: nat, level: nat, i: nat): seq<Line>
    requires i <= ENTRIES
    decreases level, ENTRIES + 2, ENTRIES - i
  {
    if i == ENTRIES then [] else EntryLines(mem, table, level, i) + Dump(mem, table, level, i + 1)
  }

  // print_pagetable; the printed text is its result here.
  method PrintPagetable(words: array<Word>, table: nat, level: nat, ghost n: nat) returns (lines: seq<Line>)
    requires Tree(Machine(words[..], WINDOW)) && 1 <= level <= 4
    requires TableAt(words[..], 4 - level, n) == Some(table)
    ensures lines == Dump(words[..], table, level, 0)
    decreases level
  {
    hide Tree, TableAt, GetAddress, Frame4K, EntryLines, Dump, Present, Huge, EntryAt;
    lines := [];
    ghost var mem := words[..];
    for i := 0 to ENTRIES
      invariant lines + Dump(mem, table, level, i) == Dump(mem, table, level, 0)
    {
      EntryInMemory(mem, 4 - level, n, i);
      var e := words[table / 8 + i];
      var mine := [];
      if Present(e) {
        var line := Line(level, i, e, GetAddress(e));
        var below := [];
        if level == 4 {
          TableBelow(mem, 4 - level, n, i);
          below := PrintPagetable(words, GetAddress(e), level - 1, n * ENTRIES + i);
        } else if (level == 2 || level == 3) && !Huge(e) {
          TableBelow(mem, 4 - level, n, i);
          below := PrintPagetable(words, GetAddress(e), level - 1, n * ENTRIES + i);
        }
        mine := [line] + below;
      }
      EntryLinesAre(mem, table, level, i, mine);
      DumpStep(mem, table, level, i);
      Rejoined(lines, mine, Dump(mem, table, level, i + 1));
      lines := lines + mine;
    }
    DumpEnd(mem, table, level);
  }

  lemma DumpStep(mem: Memory, table: nat, level: nat, i: nat)
    requires i < ENTRIES
    ensures Dump(mem, table, level, i) == EntryLines(mem, table, level, i) + Dump(mem, table, level, i + 1)
  {
    hide EntryLines;
  }

  lemma Rejoined(a: seq<Line>, b: seq<Line>, c: seq<Line>)
    ensures (a + b) + c == a + (b + c)
  {
  }

  lemma DumpEnd(mem: Memory, table: nat, level: nat)
    ensures Dump(mem, table, level, ENTRIES) == []
  {
  }

  lemma EntryLinesAre(mem: Memory, table: nat, level: nat, i: nat, mine: seq<Line>)
    requires 1 <= level <= 4
    requires var e := Peek(mem, table, i);
             mine == if !Present(e) then []
                     else [Line(level, i, e, GetAddress(e))] +
                          if Descends(level, e) then Dump(mem, GetAddress(e), level - 1, 0) else []
    ensures mine == EntryLines(mem, table, level, i)
  {
    hide GetAddress, Dump;
  }

  lemma EntryInMemory(mem: Memory, d: nat, n: nat, i: nat)
    requires Tree(Machine(mem, WINDOW)) && TableAt(mem, d, n).Some? && i < ENTRIES
    ensures TableAt(mem, d, n).value / 8 + i < |mem|
    ensures Peek(mem, TableAt(mem, d, n).value, i) == mem[TableAt(mem, d, n).value / 8 + i] == EntryAt(mem, d, n, i)
  {
    WordsApart(TableAt(mem, d, n).value, i, P4_TABLE, 0);
  }

  lemma TableBelow(mem: Memory, d: nat, n: nat, i: nat)
    requires Tree(Machine(mem, WINDOW)) && TableAt(mem, d, n).Some? && i < ENTRIES && d < 3
    requires Present(EntryAt(mem, d, n, i)) && (d == 0 || !Huge(EntryAt(mem, d, n, i)))
    ensures TableAt(mem, d + 1, n * ENTRIES + i) == Some(GetAddress(EntryAt(mem, d, n, i)))
    ensures !Huge(EntryAt(mem, d, n, i))
  {
    hide Tree, Frame4K, GetAddress;
    EntryFits(Machine(mem, WINDOW), d, n, i);
    assert (n * ENTRIES + i) / ENTRIES == n && (n * ENTRIES + i) % ENTRIES == i;
  }

  // ---- What the lines say ----

  /** A mapping of region `node` of depth `depth`: 1 GB, 2 MB or 4 KB from `frame` on. */
  datatype Leaf = Leaf(depth: nat, node: nat, frame: nat) {
    predicate Covers(x: Word) { 2 <= depth <= 4 && Node(x, depth) == node }

    function Size(): nat {
      if depth == 2 then GIGABYTE else if depth == 3 then LARGE_PAGE else PAGE
    }

    // The first 4 KB page of the region and the one after its last.
    function FirstPage(): nat { PageOf(depth, node) }
    function EndPage(): nat { PageOf(depth, node + 1) }
  }

  // The first 4 KB page of a region.
  function PageOf(depth: nat, node: nat): nat { node * Pages(depth) }

  // 4 KB pages in a region of the given depth.
  function Pages(depth: nat): nat {
    if depth >= 4 then 1 else if depth == 3 then 512 else if depth == 2 then 0x4_0000 else if depth == 1 then 0x800_0000
    else 0x10_0000_0000
  }

  // A reader of the lines keeps the region it is in at each level.
  datatype Cursor = Cursor(n1: nat, n2: nat, n3: nat)

  function At(c: Cursor, depth: nat): nat {
    if depth == 1 then c.n1 else if depth == 2 then c.n2 else if depth == 3 then c.n3 else 0
  }

  function Enter(c: Cursor, depth: nat, node: nat): Cursor {
    if depth == 1 then c.(n1 := node) else if depth == 2 then c.(n2 := node)
    else if depth == 3 then c.(n3 := node) else c
  }

  function ReadLine(c: Cursor, l: Line): (Cursor, seq<Leaf>)
    requires 1 <= l.level <= 4
  {
    var depth := 4 - l.level;
    var node := At(c, depth) * ENTRIES + l.index;
    if Descends(l.level, l.raw) then (Enter(c, depth + 1, node), []) else (c, [Leaf(depth + 1, node, l.paddr)])
  }

  predicate Levels(lines: seq<Line>) { forall l | l in lines :: 1 <= l.level <= 4 }

  /** The mappings that can be read off the printed lines. */
  function Read(c: Cursor, lines: seq<Line>): (Cursor, seq<Leaf>)
    requires Levels(lines)
    decreases |lines|
  {
    if lines == [] then (c, [])
    else
      var (c1, first) := ReadLine(c, lines[0]);
      var (c2, rest) := Read(c1, lines[1..]);
      (c2, first + rest)
  }

  lemma {:induction false} ReadConcat(c: Cursor, a: seq<Line>, b: seq<Line>)
    requires Levels(a) && Levels(b)
    ensures Levels(a + b)
    ensures var (c1, x) := Read(c, a); var (c2, y) := Read(c1, b); Read(c, a + b) == (c2, x + y)
    decreases |a|
  {
    if a == [] {
      assert a + b == b;
      assert [] + Read(c, b).1 == Read(c, b).1;
    } else {
      assert (a + b)[1..] == a[1..] + b;
      var (c1, first) := ReadLine(c, a[0]);
      ReadConcat(c1, a[1..], b);
      var (c2, x) := Read(c1, a[1..]);
      var (c3, y) := Read(c2, b);
      assert first + (x + y) == (first + x) + y;
    }
  }

  // ---- The mappings of the tree, in table order ----

  function EntryLeaves(mem: Memory, d: nat, n: nat, i: nat): seq<Leaf>
    requires d < 4
    decreases 4 - d, ENTRIES + 1
  {
    var e := EntryAt(mem, d, n, i);
    if !Present(e) then []
    else if d == 3 || (Huge(e) && d > 0) then [Leaf(d + 1, n * ENTRIES + i, GetAddress(e))]
    else Leaves(mem, d + 1, n * ENTRIES + i, 0)
  }

  // The mappings made by entries i and above of table (d, n).
  function Leaves(mem: Memory, d: nat, n: nat, i: nat): seq<Leaf>
    requires d < 4 && i <= ENTRIES
    decreases 4 - d, ENTRIES + 2, ENTRIES - i
  {
    if i == ENTRIES then [] else EntryLeaves(mem, d, n, i) + Leaves(mem, d, n, i + 1)
  }

  // The cursor is in region n of depth d.
  predicate In(c: Cursor, d: nat, n: nat) { At(c, d) == n }

  predicate SameAbove(c: Cursor, c': Cursor, d: nat) {
    forall k | 0 <= k <= d :: At(c', k) == At(c, k)
  }

  // Reading the lines of a table gives its mappings and leaves the reader where it was above them.
  ghost predicate ReadsAs(c: Cursor, lines: seq<Line>, d: nat, leaves: seq<Leaf>) {
    Levels(lines) && Read(c, lines).1 == leaves && SameAbove(c, Read(c, lines).0, d)
  }

  lemma {:induction false} ReadEntry(mem: Memory, c: Cursor, table: nat, d: nat, n: nat, i: nat)
    requires Tree(Machine(mem, WINDOW)) && d < 4 && i < ENTRIES
    requires TableAt(mem, d, n) == Some(table) && In(c, d, n)
    ensures ReadsAs(c, EntryLines(mem, table, 4 - d, i), d, EntryLeaves(mem, d, n, i))
    decreases 4 - d, ENTRIES + 1
  {
    hide Tree, TableAt, GetAddress, Frame4K, Dump, Leaves, Read;
    var e := EntryAt(mem, d, n, i);
    EntryInMemory(mem, d, n, i);
    EntryFits(Machine(mem, WINDOW), d, n, i);
    if Present(e) {
      var line := Line(4 - d, i, e, GetAddress(e));
      if d == 3 || (Huge(e) && d > 0) {
        assert EntryLines(mem, table, 4 - d, i) == [line];
        ReadOne(c, line);
      } else {
        TableBelow(mem, d, n, i);
        var (c1, first) := ReadLine(c, line);
        assert In(c1, d + 1, n * ENTRIES + i);
        ReadTable(mem, c1, GetAddress(e), d + 1, n * ENTRIES + i, 0);
        ReadOne(c, line);
        var rest := Dump(mem, GetAddress(e), 3 - d, 0);
        ReadConcat(c, [line], rest);
        assert EntryLines(mem, table, 4 - d, i) == [line] + rest;
        assert first == [] && [] + Read(c1, rest).1 == Read(c1, rest).1;
        assert SameAbove(c, c1, d);
      }
    } else {
      ReadNone(c);
    }
  }

  lemma {:induction false} ReadTable(mem: Memory, c: Cursor, table: nat, d: nat, n: nat, i: nat)
    requires Tree(Machine(mem, WINDOW)) && d < 4 && i <= ENTRIES
    requires TableAt(mem, d, n) == Some(table) && In(c, d, n)
    ensures ReadsAs(c, Dump(mem, table, 4 - d, i), d, Leaves(mem, d, n, i))
    decreases 4 - d, ENTRIES + 2, ENTRIES - i
  {
    hide Tree, TableAt, GetAddress, Frame4K, EntryLines, EntryLeaves, Read;
    if i < ENTRIES {
      ReadEntry(mem, c, table, d, n, i);
      var c1 := Read(c, EntryLines(mem, table, 4 - d, i)).0;
      ReadTable(mem, c1, table, d, n, i + 1);
      ReadConcat(c, EntryLines(mem, table, 4 - d, i), Dump(mem, table, 4 - d, i + 1));
    } else {
      ReadNone(c);
    }
  }

  lemma ReadOne(c: Cursor, line: Line)
    requires 1 <= line.level <= 4
    ensures Levels([line]) && Read(c, [line]) == ReadLine(c, line)
  {
    assert ReadLine(c, line).1 + [] == ReadLine(c, line).1;
    assert [line][1..] == [];
  }

  lemma ReadNone(c: Cursor)
    ensures Levels([]) && Read(c, []) == (c, [])
  {
  }

  // ---- The mappings and the processor's walk ----

  /** The translation that a list of mappings gives an address. */
  function Find(leaves: seq<Leaf>, x: Word): Translation {
    if leaves == [] then Fault
    else if leaves[0].Covers(x) then Mapped(leaves[0].frame + x % leaves[0].Size(), true)
    else Find(leaves[1..], x)
  }

  lemma {:induction false} FindConcat(a: seq<Leaf>, b: seq<Leaf>, x: Word)
    ensures Find(a + b, x) == if Find(a, x).Fault? then Find(b, x) else Find(a, x)
    decreases |a|
  {
    hide Node;
    if a == [] {
      assert a + b == b;
    } else {
      assert (a + b)[1..] == a[1..] + b;
      FindConcat(a[1..], b, x);
    }
  }

  lemma {:induction false} EntryFind(mem: Memory, d: nat, n: nat, i: nat, x: Word)
    requires Tree(Machine(mem, WINDOW)) && d < 4 && i < ENTRIES && TableAt(mem, d, n).Some?
    ensures Find(EntryLeaves(mem, d, n, i), x) ==
            if Node(x, d) == n && Index(x, d) == i then WalkFrom(mem, TableAt(mem, d, n).value, d, x, true) else Fault
    decreases 4 - d, ENTRIES + 1
  {
    hide Node, Index, Tree, TableAt, GetAddress, Frame4K, Frame2M, Frame1G, Leaves;
    var e := EntryAt(mem, d, n, i);
    NodeStep(x, d);
    EntryFits(Machine(mem, WINDOW), d, n, i);
    if Present(e) {
      if d == 3 || (Huge(e) && d > 0) {
        OneLeaf(Leaf(d + 1, n * ENTRIES + i, GetAddress(e)), x);
      } else {
        TableBelow(mem, d, n, i);
        LeavesFind(mem, d + 1, n * ENTRIES + i, 0, x);
      }
    }
  }

  lemma OneLeaf(l: Leaf, x: Word)
    ensures Find([l], x) == if l.Covers(x) then Mapped(l.frame + x % l.Size(), true) else Fault
  {
    hide Node;
    assert [l][1..] == [];
  }

  lemma {:induction false} LeavesFind(mem: Memory, d: nat, n: nat, i: nat, x: Word)
    requires Tree(Machine(mem, WINDOW)) && d < 4 && i <= ENTRIES && TableAt(mem, d, n).Some?
    ensures Find(Leaves(mem, d, n, i), x) ==
            if Node(x, d) == n && Index(x, d) >= i then WalkFrom(mem, TableAt(mem, d, n).value, d, x, true) else Fault
    decreases 4 - d, ENTRIES + 2, ENTRIES - i
  {
    hide Node, Index, Tree, TableAt, EntryLeaves, WalkFrom;
    if i < ENTRIES {
      EntryFind(mem, d, n, i, x);
      LeavesFind(mem, d, n, i + 1, x);
      FindConcat(EntryLeaves(mem, d, n, i), Leaves(mem, d, n, i + 1), x);
    }
  }

  ghost predicate Ascending(leaves: seq<Leaf>, first: nat, end: nat) {
    && (forall k | 0 <= k < |leaves| :: first <= leaves[k].FirstPage() < leaves[k].EndPage() <= end)
    && (forall j, k | 0 <= j < k < |leaves| :: leaves[j].EndPage() <= leaves[k].FirstPage())
  }

  lemma AscendingConcat(a: seq<Leaf>, b: seq<Leaf>, first: nat, middle: nat, end: nat)
    requires Ascending(a, first, middle) && Ascending(b, middle, end) && first <= middle <= end
    ensures Ascending(a + b, first, end)
  {
    hide Leaf.FirstPage, Leaf.EndPage;
  }

  lemma PagesStep(d: nat, n: nat, i: nat)
    requires d < 4 && i <= ENTRIES
    ensures PageOf(d + 1, n * ENTRIES + i) <= PageOf(d + 1, n * ENTRIES + ENTRIES) == PageOf(d, n + 1)
    ensures PageOf(d + 1, n * ENTRIES + i + 1) == PageOf(d + 1, n * ENTRIES + i) + Pages(d + 1)
  {
    if d == 0 {} else if d == 1 {} else if d == 2 {} else {}
  }

  lemma OneLeafAscends(depth: nat, node: nat, frame: nat)
    ensures Ascending([Leaf(depth, node, frame)], PageOf(depth, node), PageOf(depth, node + 1))
  {
    hide Pages;
    PagesPositive(depth);
    assert (node + 1) * Pages(depth) == node * Pages(depth) + Pages(depth);
  }

  lemma {:induction false} EntryAscends(mem: Memory, d: nat, n: nat, i: nat)
    requires d < 4 && i < ENTRIES
    ensures var c := n * ENTRIES + i; Ascending(EntryLeaves(mem, d, n, i), PageOf(d + 1, c), PageOf(d + 1, c + 1))
    decreases 4 - d, ENTRIES + 1
  {
    hide GetAddress, EntryAt, PageOf, Leaves, Ascending;
    var e, c := EntryAt(mem, d, n, i), n * ENTRIES + i;
    if !Present(e) {
      NoneAscend(PageOf(d + 1, c), PageOf(d + 1, c + 1));
    } else if d == 3 || (Huge(e) && d > 0) {
      OneLeafAscends(d + 1, c, GetAddress(e));
    } else {
      LeavesAscend(mem, d + 1, c, 0);
      FromFirst(d + 1, c);
    }
  }

  lemma NoneAscend(first: nat, end: nat)
    ensures Ascending([], first, end)
  {
  }

  lemma {:induction false} LeavesAscend(mem: Memory, d: nat, n: nat, i: nat)
    requires d < 4 && i <= ENTRIES
    ensures Ascending(Leaves(mem, d, n, i), PageOf(d + 1, n * ENTRIES + i), PageOf(d, n + 1))
    decreases 4 - d, ENTRIES + 2, ENTRIES - i
  {
    hide EntryLeaves, PageOf, Ascending;
    PagesStep(d, n, i);
    if i < ENTRIES {
      PagesStep(d, n, i + 1);
      var first, middle, end := PageOf(d + 1, n * ENTRIES + i), PageOf(d + 1, n * ENTRIES + i + 1), PageOf(d, n + 1);
      EntryAscends(mem, d, n, i);
      LeavesAscend(mem, d, n, i + 1);
      AscendingConcat(EntryLeaves(mem, d, n, i), Leaves(mem, d, n, i + 1), first, middle, end);
    } else {
      NoneAscend(PageOf(d + 1, n * ENTRIES + i), PageOf(d, n + 1));
    }
  }

  lemma FromFirst(d: nat, c: nat)
    requires d < 4
    ensures PageOf(d + 1, c * ENTRIES + 0) == PageOf(d, c)
  {
    if d == 0 {} else if d == 1 {} else if d == 2 {} else {}
  }

  lemma PagesPositive(d: nat)
    ensures Pages(d) > 0
  {
  }

  /** What print_pagetable prints for the whole address space can be read back as a list of mappings
      in ascending order, none over another, and that list translates every canonical address
      exactly as the processor does. */
  lemma DumpIsTheAddressSpace(mem: Memory)
    requires Tree(Machine(mem, WINDOW))
    ensures Levels(Dump(mem, P4_TABLE, 4, 0))
    ensures var leaves := Read(Cursor(0, 0, 0), Dump(mem, P4_TABLE, 4, 0)).1;
            && Ascending(leaves, 0, 0x10_0000_0000)
            && forall x: Word | Canonical(x) :: Find(leaves, x) == Walk(mem, x)
  {
    hide Node, Index, Tree, WalkFrom, Read, Dump, Leaves, Find;
    var c := Cursor(0, 0, 0);
    ReadTable(mem, c, P4_TABLE, 0, 0, 0);
    LeavesAscend(mem, 0, 0, 0);
    forall x: Word | Canonical(x)
      ensures Find(Leaves(mem, 0, 0, 0), x) == Walk(mem, x)
    {
      LeavesFind(mem, 0, 0, 0, x);
      StartOfRoute(mem, x);
      FirstNode(x);
    }
  }
}
