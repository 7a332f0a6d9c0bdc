/** What map_4kb_page and map_2mb_page do to the translation the processor computes. */
module PageMapping {
  import opened PageEntries
  import opened PageTables
  import opened Wrappers
  import opened PageTree

  // The entry at level d on the route of va.
  function Used(mem: Memory, va: Word, d: nat): Word
    requires d < 4
  {
    EntryAt(mem, d, Node(va, d), Index(va, d))
  }

  function RouteTable(mem: Memory, va: Word, d: nat): Option<nat>
    requires d <= 4
  {
    TableAt(mem, d, Node(va, d))
  }

  function Missing(mem: Memory, va: Word, d: nat): nat
    requires d < 4
  {
    if RouteTable(mem, va, d).Some? then 0 else 1
  }

  predicate OnRoute(va: Word, d: nat, n: nat) {
    d <= 4 && n == Node(va, d)
  }

  /** The address x lies in a 1 GB page (d = 1) or a 2 MB page (d = 2). */
  predicate HugeOn(mem: Memory, x: Word, d: nat) {
    1 <= d <= 2 && Huge(Used(mem, x, d))
  }

  ghost predicate SameWalks(mem: Memory, mem': Memory) {
    forall x: Word :: Walk(mem', x) == Walk(mem, x)
  }

  lemma RouteStep(mem: Memory, va: Word, d: nat)
    requires d < 4
    ensures Node(va, d + 1) / ENTRIES == Node(va, d) && Node(va, d + 1) % ENTRIES == Index(va, d)
    ensures RouteTable(mem, va, d).None? ==> RouteTable(mem, va, d + 1).None?
    ensures RouteTable(mem, va, d).Some? ==> RouteTable(mem, va, d + 1) == Child(d, Used(mem, va, d))
  {
    hide Node;
    hide Index;
    NodeStep(va, d);
    assert Node(va, d + 1) / ENTRIES == Node(va, d);
  }

  /** The walk depends on the entries along the route only. */
  lemma {:induction false} WalkSame(mem: Memory, mem': Memory, x: Word, d: nat, w: bool)
    requires d < 4 && RouteTable(mem, x, d).Some? && RouteTable(mem', x, d).Some?
    requires forall k | d <= k < 4 :: Used(mem', x, k) == Used(mem, x, k)
    ensures WalkFrom(mem', RouteTable(mem', x, d).value, d, x, w) == WalkFrom(mem, RouteTable(mem, x, d).value, d, x, w)
    decreases 4 - d
  {
    hide Node;
    hide Index;
    hide Frame4K;
    var e := Used(mem, x, d);
    assert Used(mem', x, d) == e;
    if Child(d, e).Some? {
      RouteStep(mem, x, d);
      RouteStep(mem', x, d);
      WalkSame(mem, mem', x, d + 1, w && Writable(e));
    }
  }

  /** Linking an empty table into an empty entry gives no address a translation. */
  lemma {:induction false} WalkIntoEmpty(mem: Memory, mem': Memory, x: Word, d: nat, w: bool, at: nat)
    requires d <= at < 3 && RouteTable(mem, x, d).Some? && RouteTable(mem', x, d).Some?
    requires forall k | d <= k < 4 && k != at :: Used(mem', x, k) == Used(mem, x, k)
    requires Used(mem, x, at) == 0 && Used(mem', x, at + 1) == 0 && Child(at, Used(mem', x, at)).Some?
    ensures WalkFrom(mem', RouteTable(mem', x, d).value, d, x, w) == WalkFrom(mem, RouteTable(mem, x, d).value, d, x, w)
    decreases 4 - d
  {
    hide Node;
    hide Index;
    hide Frame4K;
    RouteStep(mem, x, d);
    RouteStep(mem', x, d);
    if d < at && Child(d, Used(mem, x, d)).Some? {
      WalkIntoEmpty(mem, mem', x, d + 1, w && Writable(Used(mem, x, d)), at);
    }
  }

  lemma EntriesSameWalks(mem: Memory, mem': Memory)
    requires forall d, n, i: nat | i < ENTRIES :: EntryAt(mem', d, n, i) == EntryAt(mem, d, n, i)
    ensures SameWalks(mem, mem')
  {
    hide Node, Index, TableAt;
    forall x: Word
      ensures Walk(mem', x) == Walk(mem, x)
    {
      StartOfRoute(mem, x);
      StartOfRoute(mem', x);
      if Canonical(x) {
        WalkSame(mem, mem', x, 0, true);
      }
    }
  }

  // ---- Entries as the loader composes them ----

  lemma FlagsRead(k: nat, flags: nat)
    requires k < 0x100_0000_0000 && flags in {3, 0x83}
    ensures var e := k * PAGE + flags;
            Present(e) && Writable(e) && (Huge(e) <==> flags == 0x83) && Frame4K(e) == GetAddress(e) == k * PAGE
  {
    FlagsKeepFrame(k, flags);
    FlagDigits(k * 0x10, flags);
  }

  lemma FlagDigits(j: nat, flags: nat)
    requires j < 0x1000_0000_0000 && flags in {3, 0x83}
    ensures var e := j * 0x100 + flags; Present(e) && Writable(e) && (Huge(e) <==> flags == 0x83)
  {
    if flags == 3 {
      assert j * 0x100 + 3 == 2 * (j * 0x80 + 1) + 1;
      assert (j * 0x100 + 3) / 2 == 2 * (j * 0x40) + 1;
      assert (j * 0x100 + 3) / 0x80 == 2 * j;
    } else {
      assert j * 0x100 + 0x83 == 2 * (j * 0x80 + 0x41) + 1;
      assert (j * 0x100 + 0x83) / 2 == 2 * (j * 0x40 + 0x20) + 1;
      assert (j * 0x100 + 0x83) / 0x80 == 2 * j + 1;
    }
  }

  lemma LinkEntryOk(d: nat, t: nat)
    requires d < 3 && t % PAGE == 0 && t < TWO_52
    ensures EntryOk(d, LinkEntry(0, t)) && !Huge(LinkEntry(0, t)) && Child(d, LinkEntry(0, t)) == Some(t)
  {
    EntryValues(t);
    FlagsRead(t / PAGE, 3);
  }

  lemma LeafEntryOk(physical: nat)
    requires physical % PAGE == 0 && physical < TWO_52
    ensures var e := LeafEntry(physical);
            EntryOk(3, e) && Present(e) && Writable(e) && !Huge(e) && Frame4K(e) == physical
  {
    EntryValues(physical);
    FlagsRead(physical / PAGE, 3);
  }

  lemma HugeLeafEntryOk(physical: nat)
    requires physical % LARGE_PAGE == 0 && physical < TWO_52
    ensures var e := HugeLeafEntry(physical);
            EntryOk(2, e) && Present(e) && Writable(e) && Huge(e) && !Reserved2M(e) && Frame2M(e) == physical
  {
    assert physical % PAGE == 0;
    HugeLeafEntryExact(physical);
    EntryValues(physical);
    FlagsRead(physical / PAGE, 0x83);
  }

  // ---- One table-present-or-allocate step ----

  /** m' is m with, at most, one empty table added below the entry that va uses at level d. */
  ghost predicate Extended(m: Machine, m': Machine, va: Word, d: nat, t: nat)
    requires d < 3
  {
    && Tree(m') && SameWalks(m.mem, m'.mem)
    && m'.it == (if RouteTable(m.mem, va, d + 1).Some? then m.it else m.it + PAGE)
    && (forall d', n' :: TableAt(m'.mem, d', n') ==
         if d' == d + 1 && n' == Node(va, d + 1) then Some(t) else TableAt(m.mem, d', n'))
    && (forall d', n', i': nat | i' < ENTRIES && !(d' == d && n' == Node(va, d) && i' == Index(va, d)) ::
         EntryAt(m'.mem, d', n', i') == EntryAt(m.mem, d', n', i'))
    && !Huge(Used(m'.mem, va, d))
    && (RouteTable(m.mem, va, d + 1).Some? ==> RouteTable(m.mem, va, d + 1) == Some(t))
  }

  lemma AllocateStep(m: Machine, va: Word, d: nat)
    requires Tree(m) && d < 3 && m.it + PAGE <= WINDOW
    requires RouteTable(m.mem, va, d).Some? && !Present(Used(m.mem, va, d))
    ensures var (m', t) := Descend(m, RouteTable(m.mem, va, d).value, Index(va, d));
            && t == m.it && m'.it == m.it + PAGE && Tree(m')
            && !Huge(Used(m'.mem, va, d)) && Child(d, Used(m'.mem, va, d)) == Some(t)
            && Linked(NewTable(m).mem, m'.mem, d, Node(va, d), Index(va, d), Used(m'.mem, va, d), t)
  {
    hide Node, Index, LinkEntry, Tree, Linkable, Linked, Under, EntryOk, Child, NewTable;
    var t := RouteTable(m.mem, va, d).value;
    var n := NewTable(m);
    WatermarkPlace(m);
    NewTableKeepsTree(m, d + 1);
    EntryFits(m, d, Node(va, d), Index(va, d));
    LinkEntryOk(d, m.it);
    PokeLink(n, d, Node(va, d), Index(va, d), LinkEntry(0, m.it), m.it);
    LinkedEntry(n.mem, Poke(n.mem, t, Index(va, d), LinkEntry(0, m.it)), va, d, LinkEntry(0, m.it), m.it);
  }

  lemma LinkedEntry(mem: Memory, mem': Memory, va: Word, d: nat, e: Word, t: nat)
    requires d < 3 && Linked(mem, mem', d, Node(va, d), Index(va, d), e, t)
    ensures Used(mem', va, d) == e
  {
  }

  lemma DescendStep(m: Machine, va: Word, d: nat)
    requires Tree(m) && d < 3 && m.it + PAGE * Missing(m.mem, va, d + 1) <= WINDOW
    requires RouteTable(m.mem, va, d).Some? && !Huge(Used(m.mem, va, d))
    ensures var (m', t) := Descend(m, RouteTable(m.mem, va, d).value, Index(va, d));
            Extended(m, m', va, d, t)
  {
    var t := RouteTable(m.mem, va, d).value;
    var (m', t') := Descend(m, t, Index(va, d));
    assert EntryOk(d, Peek(m.mem, t, Index(va, d)));
    RouteStep(m.mem, va, d);
    if !Present(Used(m.mem, va, d)) {
      AllocateStep(m, va, d);
      AllocatedIsExtended(m, m', va, d, t');
    }
  }

  lemma AllocatedIsExtended(m: Machine, m': Machine, va: Word, d: nat, t: nat)
    requires Tree(m) && d < 3 && m.it + PAGE <= WINDOW
    requires RouteTable(m.mem, va, d).Some? && Used(m.mem, va, d) == 0
    requires t == m.it && m'.it == m.it + PAGE && Tree(m')
    requires !Huge(Used(m'.mem, va, d)) && Child(d, Used(m'.mem, va, d)) == Some(t)
    requires Linked(NewTable(m).mem, m'.mem, d, Node(va, d), Index(va, d), Used(m'.mem, va, d), t)
    ensures Extended(m, m', va, d, t)
  {
    hide Node, Index, Tree, WalkFrom, NewTable, Peek;
    var n := NewTable(m);
    NewTableKeepsTree(m, d + 1);
    RouteStep(m.mem, va, d);
    NodeStep(va, d);
    AbsentBelow(m.mem, va, d);
    LinkedWalks(m.mem, m'.mem, va, d);
  }

  lemma AbsentBelow(mem: Memory, va: Word, d: nat)
    requires d < 4 && RouteTable(mem, va, d + 1).None?
    ensures forall d', n' | Under(d + 1, Node(va, d + 1), d', n') :: TableAt(mem, d', n').None?
  {
    forall d', n' | Under(d + 1, Node(va, d + 1), d', n')
      ensures TableAt(mem, d', n').None?
    {
      NoTablesUnder(mem, d + 1, Node(va, d + 1), d', n');
    }
  }

  lemma LinkedWalks(mem: Memory, mem': Memory, va: Word, d: nat)
    requires d < 3
    requires Used(mem, va, d) == 0 && Child(d, Used(mem', va, d)).Some?
    requires EmptyTable(mem', d + 1, Node(va, d + 1))
    requires forall d', n', i': nat | i' < ENTRIES && !(d' == d && n' == Node(va, d) && i' == Index(va, d)) ::
               EntryAt(mem', d', n', i') == EntryAt(mem, d', n', i')
    ensures SameWalks(mem, mem')
  {
    hide Node;
    hide Index;
    forall x: Word | Canonical(x)
      ensures Walk(mem', x) == Walk(mem, x)
    {
      StartOfRoute(mem, x);
      StartOfRoute(mem', x);
      if Node(x, d) == Node(va, d) && Index(x, d) == Index(va, d) {
        NodeStep(x, d);
        NodeStep(va, d);
        WalkIntoEmpty(mem, mem', x, 0, true, d);
      } else {
        WalkSame(mem, mem', x, 0, true);
      }
    }
  }

  lemma FirstNode(x: Word)
    ensures Node(x, 0) == 0 && Node(x, 1) == Index(x, 0)
  {
  }

  lemma StartOfRoute(mem: Memory, x: Word)
    ensures RouteTable(mem, x, 0) == Some(P4_TABLE)
  {
  }

  // ---- The two mapping routines ----

  ghost predicate TablesAdded(mem: Memory, mem': Memory, va: Word, depth: nat) {
    && (forall d: nat, n: nat :: TableAt(mem, d, n).Some? ==> TableAt(mem', d, n) == TableAt(mem, d, n))
    && (forall d: nat, n: nat :: TableAt(mem', d, n).Some? <==>
         TableAt(mem, d, n).Some? || (d <= depth && OnRoute(va, d, n)))
  }

  ghost predicate EntriesKept(mem: Memory, mem': Memory, va: Word, depth: nat) {
    forall d: nat, n: nat, i: nat | i < ENTRIES && !(d < depth && OnRoute(va, d, n) && d < 4 && i == Index(va, d)) ::
      EntryAt(mem', d, n, i) == EntryAt(mem, d, n, i)
  }

  ghost predicate SameHuge(mem: Memory, mem': Memory) {
    forall x: Word, d: nat :: HugeOn(mem', x, d) == HugeOn(mem, x, d)
  }

  // The tables on the way to level `depth` of va's route are there; nothing else changed.
  ghost predicate RouteBuilt(m: Machine, m': Machine, va: Word, depth: nat)
    requires depth < 4
  {
    && Tree(m') && RouteTable(m'.mem, va, depth).Some?
    && SameWalks(m.mem, m'.mem) && SameHuge(m.mem, m'.mem)
    && TablesAdded(m.mem, m'.mem, va, depth) && EntriesKept(m.mem, m'.mem, va, depth)
  }

  lemma ExtendTables(m0: Machine, m: Machine, m': Machine, va: Word, d: nat, t: nat)
    requires d < 3 && TablesAdded(m0.mem, m.mem, va, d) && Extended(m, m', va, d, t)
    requires RouteTable(m.mem, va, d).Some?
    ensures TablesAdded(m0.mem, m'.mem, va, d + 1)
  {
    hide Node, Index, Tree, WalkFrom, TableAt, EntryAt, SameWalks;
  }

  lemma ExtendEntries(m0: Machine, m: Machine, m': Machine, va: Word, d: nat, t: nat)
    requires d < 3 && EntriesKept(m0.mem, m.mem, va, d) && Extended(m, m', va, d, t)
    ensures EntriesKept(m0.mem, m'.mem, va, d + 1)
  {
    hide Node, Index, Tree, WalkFrom, TableAt, EntryAt, SameWalks;
  }

  lemma ExtendHuge(m0: Machine, m: Machine, m': Machine, va: Word, d: nat, t: nat)
    requires d < 3 && SameHuge(m0.mem, m.mem) && Extended(m, m', va, d, t) && !Huge(Used(m.mem, va, d))
    ensures SameHuge(m0.mem, m'.mem)
  {
    hide Node, Index, Tree, WalkFrom, TableAt, EntryAt, SameWalks;
    forall x: Word, k: nat
      ensures HugeOn(m'.mem, x, k) == HugeOn(m0.mem, x, k)
    {
      assert HugeOn(m.mem, x, k) == HugeOn(m0.mem, x, k);
    }
  }

  lemma ExtendRoute(m0: Machine, m: Machine, va: Word, d: nat)
    requires d < 3 && RouteBuilt(m0, m, va, d) && m.it + PAGE * Missing(m0.mem, va, d + 1) <= WINDOW
    requires !HugeOn(m0.mem, va, d)
    ensures var (m', t) := Descend(m, RouteTable(m.mem, va, d).value, Index(va, d));
            && RouteBuilt(m0, m', va, d + 1) && RouteTable(m'.mem, va, d + 1) == Some(t)
            && m'.it == m.it + PAGE * Missing(m0.mem, va, d + 1)
  {
    hide Node, Index, Tree, WalkFrom, Descend, EntryAt, EntriesKept;
    assert !HugeOn(m.mem, va, d);
    RouteStep(m.mem, va, d);
    EntryFits(m, d, Node(va, d), Index(va, d));
    assert !Huge(Used(m.mem, va, d));
    DescendStep(m, va, d);
    var (m', t) := Descend(m, RouteTable(m.mem, va, d).value, Index(va, d));
    ExtendTables(m0, m, m', va, d, t);
    ExtendEntries(m0, m, m', va, d, t);
    ExtendHuge(m0, m, m', va, d, t);
  }

  // ---- Writing the leaf ----

  lemma {:induction false} UnderRoute(x: Word, d: nat, n: nat, k: nat)
    requires k <= 4
    ensures Under(d, n, k, Node(x, k)) <==> d <= k && Node(x, d) == n
    decreases k
  {
    hide Node, Index;
    if d < k {
      RouteStep([], x, k - 1);
      UnderRoute(x, d, n, k - 1);
    }
  }

  lemma {:induction false} RouteAbove(mem: Memory, x: Word, d: nat, last: nat)
    requires d <= last < 4 && RouteTable(mem, x, last).Some?
    ensures RouteTable(mem, x, d).Some?
    ensures d < last ==> Child(d, Used(mem, x, d)) == RouteTable(mem, x, d + 1)
    decreases last - d
  {
    hide Node, Index, TableAt, Frame4K;
    if d < last {
      RouteAbove(mem, x, d + 1, last);
      RouteStep(mem, x, d);
    }
  }

  /** Every entry on a route is writable, so the walk reaches each table of the route with write
      access. */
  lemma {:induction false} WalkReaches(m: Machine, x: Word, d: nat, last: nat)
    requires Tree(m) && d <= last < 4 && RouteTable(m.mem, x, d).Some? && RouteTable(m.mem, x, last).Some?
    ensures WalkFrom(m.mem, RouteTable(m.mem, x, d).value, d, x, true) ==
            WalkFrom(m.mem, RouteTable(m.mem, x, last).value, last, x, true)
    decreases last - d
  {
    hide Node, Index, Tree, Frame4K, TableAt;
    if d < last {
      RouteAbove(m.mem, x, d, last);
      RouteAbove(m.mem, x, d + 1, last);
      EntryFits(m, d, Node(x, d), Index(x, d));
      WalkReaches(m, x, d + 1, last);
    }
  }

  // The translation of x when its walk ends at entry e of a level-d table.
  function AtLeaf(d: nat, e: Word, x: Word): Translation
    requires d < 4
  {
    if d == 3 then Mapped(Frame4K(e) + x % PAGE, true)
    else if d == 2 then Mapped(Frame2M(e) + x % LARGE_PAGE, true)
    else Mapped(Frame1G(e) + x % GIGABYTE, true)
  }

  /** After a leaf is written, the walk sends the leaf's region to it and all other addresses where
      they went before. */
  lemma LeafWalk(m: Machine, mem': Memory, va: Word, d: nat, e: Word, x: Word)
    requires Tree(m) && 1 <= d < 4 && RouteTable(m.mem, va, d).Some?
    requires Tree(m.(mem := mem')) && Cut(m.mem, mem', d, Node(va, d), Index(va, d), e)
    requires EntryOk(d, e) && Present(e) && (Huge(e) || d == 3)
    ensures Walk(mem', x) ==
            if Canonical(x) && Node(x, d + 1) == Node(va, d + 1) then AtLeaf(d, e, x) else Walk(m.mem, x)
  {
    hide Node, Index, Tree, Frame4K, Frame2M, Frame1G;
    StartOfRoute(m.mem, x);
    StartOfRoute(mem', x);
    NodeStep(va, d);
    NodeStep(x, d);
    RouteStep(m.mem, va, d);
    RouteStep(m.mem, x, d);
    UnderRoute(x, d + 1, Node(va, d + 1), d);
    if Node(x, d + 1) == Node(va, d + 1) {
      assert Node(x, d) == Node(va, d) && Index(x, d) == Index(va, d);
      WalkReaches(m.(mem := mem'), x, 0, d);
    } else {
      forall k: nat | k < 4
        ensures Used(mem', x, k) == Used(m.mem, x, k)
      {
        UnderRoute(x, d + 1, Node(va, d + 1), k);
        if k == d && Node(x, d) == Node(va, d) {
          assert Index(x, d) != Index(va, d);
        }
      }
      WalkSame(m.mem, mem', x, 0, true);
    }
  }

  // ---- The two mapping routines ----

  /** What both routines need: nothing huge where the walk of va needs a table of level `depth` or
      above (neither routine checks this), and room for the tables that are missing. */
  predicate Mappable(m: Machine, va: Word, depth: nat)
    requires depth < 4
  {
    && (forall d | 1 <= d < depth :: !HugeOn(m.mem, va, d))
    && m.it + PAGE * MissingTables(m.mem, va, depth) <= WINDOW
  }

  function MissingTables(mem: Memory, va: Word, depth: nat): nat
    requires depth < 4
  {
    if depth == 0 then 0 else MissingTables(mem, va, depth - 1) + Missing(mem, va, depth)
  }

  lemma {:induction false} MappableLess(m: Machine, va: Word, d: nat, depth: nat)
    requires d <= depth < 4 && Mappable(m, va, depth)
    ensures Mappable(m, va, d)
    decreases depth - d
  {
    hide Node, Index;
    if d < depth {
      MappableLess(m, va, d + 1, depth);
    }
  }

  function BuildRoute(m: Machine, va: Word, depth: nat): (Machine, nat)
    requires depth < 4
  {
    if depth == 0 then (m, P4_TABLE)
    else
      var (n, t) := BuildRoute(m, va, depth - 1);
      Descend(n, t, Index(va, depth - 1))
  }

  lemma {:induction false} RouteIsBuilt(m: Machine, va: Word, depth: nat)
    requires depth < 4 && Tree(m) && Mappable(m, va, depth)
    ensures var (m', t) := BuildRoute(m, va, depth);
            && RouteBuilt(m, m', va, depth) && RouteTable(m'.mem, va, depth) == Some(t)
            && m'.it == m.it + PAGE * MissingTables(m.mem, va, depth)
  {
    hide Node, Index, Tree, Descend, TableAt, WalkFrom;
    StartOfRoute(m.mem, va);
    if depth > 0 {
      RouteIsBuilt(m, va, depth - 1);
      ExtendRoute(m, BuildRoute(m, va, depth - 1).0, va, depth - 1);
    } else {
      assert TablesAdded(m.mem, m.mem, va, 0) by { OnlyRoot(m.mem, va); }
    }
  }

  lemma OnlyRoot(mem: Memory, va: Word)
    ensures forall n: nat :: OnRoute(va, 0, n) ==> TableAt(mem, 0, n).Some?
  {
  }

  // The inlined steps of the two routines are the same descent.
  lemma MappersBuildRoutes(m: Machine, va: Word, physical: Word)
    ensures var (n, t) := BuildRoute(m, va, 3);
            Map4K(m, va, physical) == n.(mem := Poke(n.mem, t, Index(va, 3), LeafEntry(physical)))
    ensures var (n, t) := BuildRoute(m, va, 2);
            Map2M(m, va, physical) == n.(mem := Poke(n.mem, t, Index(va, 2), HugeLeafEntry(physical)))
  {
    hide Index, Descend, LeafEntry, HugeLeafEntry;
    assert BuildRoute(m, va, 1) == Descend(m, P4_TABLE, Index(va, 0));
    assert BuildRoute(m, va, 2) == Descend(BuildRoute(m, va, 1).0, BuildRoute(m, va, 1).1, Index(va, 1));
  }

  lemma DepthBound(mem: Memory)
    ensures forall d: nat, n: nat :: TableAt(mem, d, n).Some? ==> d <= 3
  {
  }

  /** map_4kb_page: every address of the page of va is then translated to the given frame, every
      other address as before, and the tables taken are exactly those that were missing. */
  lemma Map4KCorrect(m: Machine, va: Word, physical: Word)
    requires Tree(m) && Mappable(m, va, 3) && physical % PAGE == 0 && physical < TWO_52
    ensures var m' := Map4K(m, va, physical);
            && Tree(m') && m'.it == m.it + PAGE * MissingTables(m.mem, va, 3)
            && TablesAdded(m.mem, m'.mem, va, 3) && SameHuge(m.mem, m'.mem)
            && (forall x: Word :: Walk(m'.mem, x) ==
                 if Canonical(x) && Node(x, 4) == Node(va, 4) then Mapped(physical + x % PAGE, true)
                 else Walk(m.mem, x))
  {
    hide Node, Index, Tree, Descend, TableAt, WalkFrom, LeafEntry, Frame4K, Map4K, Map2M;
    RouteIsBuilt(m, va, 3);
    var n := BuildRoute(m, va, 3).0;
    var e := LeafEntry(physical);
    LeafEntryOk(physical);
    PokeLeaf(n, 3, Node(va, 3), Index(va, 3), e);
    MappersBuildRoutes(m, va, physical);
    DepthBound(n.mem);
    var m' := Map4K(m, va, physical);
    forall x: Word
      ensures Walk(m'.mem, x) ==
              if Canonical(x) && Node(x, 4) == Node(va, 4) then Mapped(physical + x % PAGE, true) else Walk(m.mem, x)
    {
      LeafWalk(n, m'.mem, va, 3, e, x);
    }
  }

  ghost predicate TablesReplaced(mem: Memory, mem': Memory, va: Word) {
    forall d: nat, n: nat :: TableAt(mem', d, n).Some? <==>
      (d <= 2 && OnRoute(va, d, n)) || (TableAt(mem, d, n).Some? && !(d == 3 && OnRoute(va, 3, n)))
  }

  ghost predicate HugeAdded(mem: Memory, mem': Memory, va: Word) {
    forall x: Word, d: nat :: HugeOn(mem', x, d) <==>
      HugeOn(mem, x, d) || (d == 2 && Node(x, 3) == Node(va, 3))
  }

  lemma CutTables(mem0: Memory, mem: Memory, mem': Memory, va: Word, e: Word)
    requires TablesAdded(mem0, mem, va, 2) && Cut(mem, mem', 2, Node(va, 2), Index(va, 2), e)
    ensures TablesReplaced(mem0, mem', va)
  {
    hide Node, Index, TableAt;
    DepthBound(mem);
    DepthBound(mem0);
    NodeStep(va, 2);
  }

  lemma CutHuge(mem0: Memory, mem: Memory, mem': Memory, va: Word, e: Word)
    requires SameHuge(mem0, mem) && Cut(mem, mem', 2, Node(va, 2), Index(va, 2), e) && Huge(e)
    ensures HugeAdded(mem0, mem', va)
  {
    hide Node, Index, TableAt;
    NodeStep(va, 2);
    forall x: Word, d: nat
      ensures HugeOn(mem', x, d) <==> HugeOn(mem, x, d) || (d == 2 && Node(x, 3) == Node(va, 3))
    {
      NodeStep(x, 2);
    }
  }

  /** map_2mb_page: likewise for the 2 MB region of va. A table that the region had is cut off and
      takes no further part in any walk. */
  lemma Map2MCorrect(m: Machine, va: Word, physical: Word)
    requires Tree(m) && Mappable(m, va, 2) && physical % LARGE_PAGE == 0 && physical < TWO_52
    ensures var m' := Map2M(m, va, physical);
            && Tree(m') && m'.it == m.it + PAGE * MissingTables(m.mem, va, 2)
            && TablesReplaced(m.mem, m'.mem, va) && HugeAdded(m.mem, m'.mem, va)
            && (forall x: Word :: Walk(m'.mem, x) ==
                 if Canonical(x) && Node(x, 3) == Node(va, 3) then Mapped(physical + x % LARGE_PAGE, true)
                 else Walk(m.mem, x))
  {
    hide Node, Index, Tree, Descend, TableAt, WalkFrom, HugeLeafEntry, Frame2M, Map4K, Map2M;
    RouteIsBuilt(m, va, 2);
    var n := BuildRoute(m, va, 2).0;
    var e := HugeLeafEntry(physical);
    HugeLeafEntryOk(physical);
    PokeLeaf(n, 2, Node(va, 2), Index(va, 2), e);
    MappersBuildRoutes(m, va, physical);
    var m' := Map2M(m, va, physical);
    CutTables(m.mem, n.mem, m'.mem, va, e);
    CutHuge(m.mem, n.mem, m'.mem, va, e);
    forall x: Word
      ensures Walk(m'.mem, x) ==
              if Canonical(x) && Node(x, 3) == Node(va, 3) then Mapped(physical + x % LARGE_PAGE, true)
              else Walk(m.mem, x)
    {
      LeafWalk(n, m'.mem, va, 2, e, x);
    }
  }

  lemma ZeroNotHuge()
    ensures !Huge(0)
  {
  }
}
