/** Which words of memory the mapping routines leave alone: everything but the tables that they take
    and the entries on the routes of the addresses that they map. */
module MemoryFrame {
  import opened PageEntries
  import opened PageTables
  import opened Wrappers
  import opened PageTree
  import opened PageMapping
  import opened PhysicalMap
  import opened PageRuns
  import opened BootTables
  import opened MixedRuns

  /** Word j holds the entry that the route of va uses at some level above `depth`. */
  predicate RouteWord(mem: Memory, va: Word, depth: nat, j: nat)
    requires depth <= 4
  {
    exists d: nat {:trigger RouteTable(mem, va, d)} | d < depth ::
      RouteTable(mem, va, d).Some? && j == RouteTable(mem, va, d).value / 8 + Index(va, d)
  }

  // The words from one value of the watermark to another.
  predicate Taken(from: nat, to: nat, j: nat) { from / 8 <= j < to / 8 }

  /** The tables of m' are tables of m, in place, or were taken from the watermark. */
  ghost predicate Grown(m: Machine, m': Machine) {
    m.it <= m'.it &&
    forall d, n {:trigger TableAt(m'.mem, d, n)} :: TableAt(m'.mem, d, n).Some? ==>
      TableAt(m.mem, d, n) == TableAt(m'.mem, d, n) || m.it <= TableAt(m'.mem, d, n).value
  }

  lemma GrownFurther(m: Machine, n: Machine, r: Machine)
    requires Grown(m, n) && Grown(n, r)
    ensures Grown(m, r)
  {
    hide TableAt;
    forall d: nat, k: nat | TableAt(r.mem, d, k).Some?
      ensures TableAt(m.mem, d, k) == TableAt(r.mem, d, k) || m.it <= TableAt(r.mem, d, k).value
    {
      assert TableAt(n.mem, d, k) == TableAt(r.mem, d, k) || n.it <= TableAt(r.mem, d, k).value;
    }
  }

  // ---- One call of map_4kb_page or map_2mb_page ----

  lemma DescendWord(m: Machine, table: nat, i: nat, j: nat)
    requires j < |m.mem| && m.it % PAGE == 0 && j != table / 8 + i
    requires !Taken(m.it, Descend(m, table, i).0.it, j)
    ensures Descend(m, table, i).0.mem[j] == m.mem[j] && m.it <= Descend(m, table, i).0.it
  {
    hide Present, GetAddress, LinkEntry;
  }

  // The table that the next step comes to is one that m has there, or comes from the watermark.
  lemma DescendTable(m: Machine, va: Word, d: nat)
    requires Tree(m) && d < 3 && RouteTable(m.mem, va, d).Some? && !Huge(Used(m.mem, va, d))
    ensures RouteTable(m.mem, va, d + 1).Some? || Descend(m, RouteTable(m.mem, va, d).value, Index(va, d)).1 == m.it
  {
    hide Node, Index, Tree, TableAt, Huge, NewTable, LinkEntry;
    RouteStep(m.mem, va, d);
  }

  lemma {:induction false} BuildGrown(m: Machine, va: Word, depth: nat)
    requires depth < 4 && Tree(m) && Mappable(m, va, depth)
    ensures Grown(m, BuildRoute(m, va, depth).0)
  {
    hide Node, Index, Tree, Descend, TableAt, WalkFrom, Huge, EntryAt, SameWalks;
    if depth > 0 {
      var d := depth - 1;
      BuildGrown(m, va, d);
      RouteIsBuilt(m, va, d);
      var (n, t) := BuildRoute(m, va, d);
      NotHuge(m, n, va, d);
      DescendTable(n, va, d);
      RoomForNext(m, n, va, d);
      DescendStep(n, va, d);
      var (r, t') := Descend(n, t, Index(va, d));
      assert Extended(n, r, va, d, t');
      assert Grown(n, r);
      GrownFurther(m, n, r);
    }
  }

  lemma NotHuge(m: Machine, n: Machine, va: Word, d: nat)
    requires d < 3 && Mappable(m, va, d + 1) && Tree(n) && SameHuge(m.mem, n.mem)
    ensures !Huge(Used(n.mem, va, d))
  {
    hide Node, Index, TableAt, Huge, EntryAt;
    assert HugeOn(n.mem, va, d) == HugeOn(m.mem, va, d);
    EntryFits(n, d, Node(va, d), Index(va, d));
    ZeroNotHuge();
  }

  lemma RoomForNext(m: Machine, n: Machine, va: Word, d: nat)
    requires d < 3 && Mappable(m, va, d + 1) && n.it == m.it + PAGE * MissingTables(m.mem, va, d)
    requires TablesAdded(m.mem, n.mem, va, d)
    ensures n.it + PAGE * Missing(n.mem, va, d + 1) <= WINDOW
  {
    hide Node, TableAt;
    assert MissingTables(m.mem, va, d + 1) == MissingTables(m.mem, va, d) + Missing(m.mem, va, d + 1);
    if RouteTable(m.mem, va, d + 1).Some? {
      assert RouteTable(n.mem, va, d + 1).Some?;
    }
  }

  // A table that is not one of m's lies between the watermarks.
  lemma NewWord(m: Machine, m': Machine, va: Word, d: nat, j: nat)
    requires Tree(m) && Tree(m') && Grown(m, m') && d < 4 && RouteTable(m'.mem, va, d).Some?
    requires j == RouteTable(m'.mem, va, d).value / 8 + Index(va, d) && !Taken(m.it, m'.it, j)
    ensures RouteTable(m.mem, va, d) == RouteTable(m'.mem, va, d)
  {
    hide Node, Index, TableAt;
    var t := RouteTable(m'.mem, va, d).value;
    assert TablePlace(m'.it, t);
    BelowWatermark(m'.it, t, Index(va, d));
  }

  lemma {:induction false} BuildFrame(m: Machine, va: Word, depth: nat, j: nat)
    requires depth < 4 && Tree(m) && Mappable(m, va, depth) && j < WORDS
    requires !Taken(m.it, BuildRoute(m, va, depth).0.it, j) && !RouteWord(m.mem, va, depth, j)
    ensures |BuildRoute(m, va, depth).0.mem| == |m.mem| == WORDS
    ensures BuildRoute(m, va, depth).0.mem[j] == m.mem[j]
  {
    hide Node, Index, Tree, Descend, TableAt, WalkFrom, Mappable;
    WatermarkPlace(m);
    RouteIsBuilt(m, va, depth);
    WatermarkPlace(BuildRoute(m, va, depth).0);
    if depth > 0 {
      var d := depth - 1;
      MappableLess(m, va, d, depth);
      RouteIsBuilt(m, va, d);
      BuildGrown(m, va, d);
      var (n, t) := BuildRoute(m, va, d);
      WatermarkPlace(n);
      BuildFrame(m, va, d, j);
      if j == t / 8 + Index(va, d) {
        NewWord(m, n, va, d, j);
      }
      DescendWord(n, t, Index(va, d), j);
    }
  }

  // The entry that the call writes last.
  lemma LeafWord(m: Machine, va: Word, depth: nat, e: Word, j: nat)
    requires depth < 4 && Tree(m) && Mappable(m, va, depth) && j < WORDS
    requires !Taken(m.it, BuildRoute(m, va, depth).0.it, j) && !RouteWord(m.mem, va, depth + 1, j)
    ensures var (n, t) := BuildRoute(m, va, depth);
            |n.mem| == |m.mem| == WORDS && Poke(n.mem, t, Index(va, depth), e)[j] == m.mem[j]
  {
    hide Node, Index, Tree, TableAt, Mappable, BuildRoute;
    RouteIsBuilt(m, va, depth);
    BuildGrown(m, va, depth);
    assert !RouteWord(m.mem, va, depth, j);
    BuildFrame(m, va, depth, j);
    var (n, t) := BuildRoute(m, va, depth);
    if j == t / 8 + Index(va, depth) {
      NewWord(m, n, va, depth, j);
    }
  }

  /** map_4kb_page and map_2mb_page change no word but those of the tables they take and those of the
      entries on the route of va. */
  lemma CallFrame(m: Machine, c: Call)
    requires Tree(m) && Mappable(m, c.va, c.Depth())
    ensures var m' := Perform(m, c);
            && |m'.mem| == |m.mem| == WORDS
            && forall j: nat | j < WORDS && !Taken(m.it, m'.it, j) && !RouteWord(m.mem, c.va, c.Depth() + 1, j) ::
                 m'.mem[j] == m.mem[j]
  {
    hide Node, Index, Tree, TableAt, Mappable, BuildRoute, Map4K, Map2M, LeafEntry, HugeLeafEntry, RouteWord;
    var m' := Perform(m, c);
    var e := if c.Page4K? then LeafEntry(c.physical) else HugeLeafEntry(c.physical);
    MappersBuildRoutes(m, c.va, c.physical);
    RouteIsBuilt(m, c.va, c.Depth());
    WatermarkPlace(m);
    WatermarkPlace(BuildRoute(m, c.va, c.Depth()).0);
    forall j: nat | j < WORDS && !Taken(m.it, m'.it, j) && !RouteWord(m.mem, c.va, c.Depth() + 1, j)
      ensures m'.mem[j] == m.mem[j]
    {
      LeafWord(m, c.va, c.Depth(), e, j);
    }
  }

  lemma CallGrown(m: Machine, c: Call)
    requires Tree(m) && OpOk(m, Map(c))
    ensures Grown(m, Perform(m, c))
  {
    hide Node, Index, Tree, TableAt, Mappable, BuildRoute, Map4K, Map2M, LeafEntry, HugeLeafEntry, Under, EntryOk;
    MappersBuildRoutes(m, c.va, c.physical);
    RouteIsBuilt(m, c.va, c.Depth());
    BuildGrown(m, c.va, c.Depth());
    var n, d := BuildRoute(m, c.va, c.Depth()).0, c.Depth();
    if c.Page4K? { LeafEntryOk(c.physical); } else { HugeLeafEntryOk(c.physical); }
    var e := if c.Page4K? then LeafEntry(c.physical) else HugeLeafEntry(c.physical);
    PokeLeaf(n, d, Node(c.va, d), Index(c.va, d), e);
    assert Grown(n, Perform(m, c));
    GrownFurther(m, n, Perform(m, c));
  }

  // ---- setup_physical_map ----

  lemma {:induction false} FillFrame(mem: Memory, p3: nat, rounds: nat, j: nat)
    requires j < |mem| && p3 % PAGE == 0 && !Taken(p3, p3 + PAGE, j)
    ensures FillGigs(mem, p3, rounds)[j] == mem[j]
  {
    hide Index, GigEntry, GigAddress;
    if rounds > 0 {
      FillFrame(mem, p3, rounds - 1, j);
    }
  }

  /** setup_physical_map changes no word but those of its table and, for any size of memory, one entry
      of the P4 table. */
  lemma SetupFrame(m: Machine, total: Word)
    requires Tree(m) && m.it + PAGE <= WINDOW
    ensures var m' := PhysMap(m, total);
            && |m'.mem| == |m.mem| == WORDS && m'.it == m.it + PAGE
            && forall j: nat | j < WORDS && !Taken(m.it, m'.it, j) && j != 0x200 + (256 + NumGigs(total) / 512) % 512 ::
                 m'.mem[j] == m.mem[j]
  {
    hide Index, NumGigs, GigAddress, LinkEntry, Tree, FillGigs;
    WatermarkPlace(m);
    GigIndices(NumGigs(total)) by { GigsOf(total); }
    var m' := PhysMap(m, total);
    forall j: nat | j < WORDS && !Taken(m.it, m'.it, j) && j != 0x200 + (256 + NumGigs(total) / 512) % 512
      ensures m'.mem[j] == m.mem[j]
    {
      FillFrame(NewTable(m).mem, m.it, NumGigs(total), j);
    }
  }

  lemma SetupGrown(m: Machine, total: Word)
    requires Tree(m) && OpOk(m, Setup(total))
    ensures Grown(m, PhysMap(m, total))
  {
    hide Node, Index, Tree, TableAt, PhysMap, NumGigs, Under;
    PhysMapLinks(m, total);
    WindowEntries(m, total);
  }

  // ---- Runs ----

  /** A call may write word j: the entry of l4 slot 256, or one on a route. */
  predicate Writes(mem: Memory, op: Op, j: nat) {
    match op
    case Setup(_) => j == 0x300
    case Map(c) => RouteWord(mem, c.va, c.Depth() + 1, j)
  }

  lemma OpFrame(m: Machine, op: Op)
    requires Tree(m) && OpOk(m, op)
    ensures var m' := Apply(m, op);
            && |m'.mem| == |m.mem| == WORDS && Grown(m, m')
            && forall j: nat | j < WORDS && !Taken(m.it, m'.it, j) && !Writes(m.mem, op, j) :: m'.mem[j] == m.mem[j]
  {
    hide Tree, Mappable, PhysMap, Map4K, Map2M, RouteWord, Taken, NumGigs, Grown;
    match op
    case Setup(total) =>
      SetupFrame(m, total);
      SetupGrown(m, total);
    case Map(c) =>
      CallFrame(m, c);
      CallGrown(m, c);
  }

  // What a call may write later on, it may write at once, or the run has taken it.
  lemma WritesEarlier(m: Machine, n: Machine, op: Op, j: nat)
    requires Tree(m) && Tree(n) && Grown(m, n) && Writes(n.mem, op, j)
    ensures Writes(m.mem, op, j) || Taken(m.it, n.it, j)
  {
    hide Node, Index, Tree, TableAt, Taken, Grown;
    if op.Map? && !Taken(m.it, n.it, j) {
      var va := op.call.va;
      var d: nat :| d < op.call.Depth() + 1 && RouteTable(n.mem, va, d).Some? &&
                    j == RouteTable(n.mem, va, d).value / 8 + Index(va, d);
      NewWord(m, n, va, d, j);
      assert RouteTable(m.mem, va, d).Some?;
    }
  }

  /** Every mixed run changes no word but those of the tables it takes and those of the entries, in the
      tables it started from, on the routes of the addresses it maps. */
  lemma {:induction false} MixedRunFrame(m: Machine, ops: seq<Op>, j: nat)
    requires Tree(m) && OpsOk(m, ops) && j < WORDS && !Taken(m.it, RunOps(m, ops).it, j)
    requires forall i | 0 <= i < |ops| :: !Writes(m.mem, ops[i], j)
    ensures Grown(m, RunOps(m, ops)) && |RunOps(m, ops).mem| == |m.mem| == WORDS
    ensures RunOps(m, ops).mem[j] == m.mem[j]
  {
    hide Tree, Apply, OpOk, Writes, Grown;
    WatermarkPlace(m);
    if ops == [] {
      assert Grown(m, m) by { StartGrown(m); }
    } else {
      var k := |ops| - 1;
      var n := RunOps(m, ops[..k]);
      MixedRunCorrect(m, ops[..k]);
      OpFrame(n, ops[k]);
      OnlyGrows(n, Apply(n, ops[k]));
      MixedRunFrame(m, ops[..k], j);
      OnlyGrows(m, n);
      GrownFurther(m, n, Apply(n, ops[k]));
      if Writes(n.mem, ops[k], j) {
        WritesEarlier(m, n, ops[k], j);
      }
    }
  }

  lemma StartGrown(m: Machine)
    ensures Grown(m, m)
  {
    hide TableAt;
  }

  lemma OnlyGrows(m: Machine, n: Machine)
    requires Grown(m, n)
    ensures m.it <= n.it
  {
    hide TableAt;
  }

  // The entries that calls write lie in the boot tables or in tables taken earlier.
  lemma WritesTables(m: Machine, op: Op, j: nat)
    requires Tree(m) && Writes(m.mem, op, j)
    ensures 0x200 <= j < 0xA00 || 0x4000 <= j < m.it / 8
  {
    hide Node, Index, TableAt;
    if op.Map? {
      var va := op.call.va;
      var d: nat :| d < op.call.Depth() + 1 && RouteTable(m.mem, va, d).Some? &&
                    j == RouteTable(m.mem, va, d).value / 8 + Index(va, d);
      var t := RouteTable(m.mem, va, d).value;
      assert TablePlace(m.it, t);
      BelowWatermark(m.it, t, Index(va, d));
      PlaceWords(t, Index(va, d), j);
    }
  }

  lemma PlaceWords(t: nat, i: nat, j: nat)
    requires t % PAGE == 0 && i < ENTRIES && j == t / 8 + i && (P4_TABLE <= t < 0x5000 || FIRST_NEW_TABLE <= t)
    ensures 0x200 <= j < 0xA00 || 0x4000 <= j
  {
    var k := t / PAGE;
    assert t / 8 == k * ENTRIES;
  }

  /** Whatever is mapped, the words below 0x1000, those from 0x5000 to 0x1FFFF and those past the
      watermark are not touched. */
  lemma RestOfMemory(m: Machine, ops: seq<Op>)
    requires Tree(m) && OpsOk(m, ops)
    ensures var r := RunOps(m, ops);
            |r.mem| == |m.mem| == WORDS &&
            forall j: nat | j < WORDS && !(0x200 <= j < 0xA00) && !(0x4000 <= j < r.it / 8) :: r.mem[j] == m.mem[j]
  {
    hide Tree, Apply, OpsOk, Writes, Grown;
    WatermarkPlace(m);
    MixedRunCorrect(m, ops);
    WatermarkPlace(RunOps(m, ops));
    var r := RunOps(m, ops);
    forall j: nat | j < WORDS && !(0x200 <= j < 0xA00) && !(0x4000 <= j < r.it / 8)
      ensures r.mem[j] == m.mem[j]
    {
      forall i | 0 <= i < |ops|
        ensures !Writes(m.mem, ops[i], j)
      {
        if Writes(m.mem, ops[i], j) { WritesTables(m, ops[i], j); }
      }
      MixedRunFrame(m, ops, j);
    }
  }

  /** The characters on the screen, 4000 bytes from 0xB8000, stay as long as at most 152 tables have
      been taken. */
  lemma ScreenStays(m: Machine, ops: seq<Op>)
    requires Tree(m) && OpsOk(m, ops) && RunOps(m, ops).it <= FIRST_NEW_TABLE + 152 * PAGE
    ensures var r := RunOps(m, ops);
            |r.mem| == |m.mem| == WORDS &&
            forall j | 0xB8000 / 8 <= j < (0xB8000 + 4000) / 8 :: r.mem[j] == m.mem[j]
  {
    hide Tree, Apply, OpsOk, RunOps;
    RestOfMemory(m, ops);
  }

  // Each setup_physical_map takes a table, even for no memory at all.
  function Setups(k: nat): (ops: seq<Op>)
    ensures |ops| == k
  {
    seq(k, _ => Setup(0))
  }

  lemma {:induction false} SetupsOk(m: Machine, k: nat)
    requires Tree(m) && m.it + PAGE * k <= WINDOW
    ensures OpsOk(m, Setups(k)) && RunOps(m, Setups(k)).it == m.it + PAGE * k && Tree(RunOps(m, Setups(k)))
  {
    hide Tree, PhysMap;
    if k > 0 {
      SetupsOk(m, k - 1);
      assert Setups(k)[..k - 1] == Setups(k - 1);
      ApplyOp(RunOps(m, Setups(k - 1)), Setup(0));
    }
  }

  /** The table after those 152 clears the screen. */
  lemma ScreenCleared(m: Machine)
    requires Tree(m) && m.it == FIRST_NEW_TABLE
    ensures var (ops, r) := (Setups(153), RunOps(m, Setups(153)));
            && OpsOk(m, ops) && |r.mem| == WORDS
            && forall j | 0xB8000 / 8 <= j < (0xB8000 + 4000) / 8 :: r.mem[j] == 0
  {
    hide Tree, LinkEntry, Index, OpsOk, RunOps;
    SetupsOk(m, 152);
    SetupsOk(m, 153);
    assert Setups(153)[..152] == Setups(152);
    var n := RunOps(m, Setups(152));
    WatermarkPlace(n);
    LinkSlot(0);
    assert RunOps(m, Setups(153)) == PhysMap(n, 0) by { LastSetup(m); }
  }

  lemma LastSetup(m: Machine)
    ensures RunOps(m, Setups(153)) == PhysMap(RunOps(m, Setups(152)), 0)
  {
    hide PhysMap;
    assert Setups(153)[..152] == Setups(152);
  }
}
