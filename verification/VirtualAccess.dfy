/** The loader's code runs on virtual addresses: each word it reads or writes goes through the walk of
    the tables that it is changing at the time. The routines once more, access by access, and the proof
    that they do what the routines on physical words do. */
module VirtualAccess {
  import opened Bits
  import opened PageEntries
  import opened PageTables
  import opened Wrappers
  import opened PageTree
  import opened PageMapping
  import opened PhysicalMap
  import opened PageRuns
  import opened BootTables
  import opened MixedRuns

  // ---- Accesses; an access that faults ends the run ----

  function Load(mem: Memory, a: Word): Option<Word> {
    match Walk(mem, a)
    case Mapped(p, _) => Some(Peek(mem, 0, p / 8))
    case Fault => None
  }

  function Store(mem: Memory, a: Word, e: Word): Option<Memory> {
    match Walk(mem, a)
    case Mapped(p, writable) => if writable then Some(Poke(mem, 0, p / 8, e)) else None
    case Fault => None
  }

  function Update(mem: Memory, a: Word, f: Word -> Word): Option<Memory> {
    var e :- Load(mem, a);
    Store(mem, a, f(e))
  }

  // Entry i of a table, by pointer arithmetic.
  function Pointer(table: nat, i: nat): Word { EntryAddress(table, i) % TWO_64 }

  // ---- The routines ----

  // The first n words of a new table, cleared one after the other.
  function ClearVia(mem: Memory, at: nat, n: nat): Option<Memory> {
    if n == 0 then Some(mem)
    else
      var before :- ClearVia(mem, at, n - 1);
      Store(before, Pointer(at, n - 1), 0)
  }

  function NewTableVia(m: Machine): Option<Machine> {
    var cleared :- ClearVia(m.mem, m.it, ENTRIES);
    Some(Machine(cleared, m.it + PAGE))
  }

  // The three assignments to the fields of an entry.
  function PointAt(mem: Memory, a: Word, address: Word): Option<Memory> {
    var addressed :- Update(mem, a, e => SetAddress(e, address));
    var present :- Update(addressed, a, e => SetPresent(e));
    Update(present, a, e => SetWritable(e))
  }

  function DescendVia(m: Machine, table: nat, i: nat): Option<(Machine, nat)> {
    var e :- Load(m.mem, Pointer(table, i));
    if Present(e) then Some((m, GetAddress(e)))
    else
      var n :- NewTableVia(m);
      var linked :- PointAt(n.mem, Pointer(table, i), m.it % TWO_64);
      Some((n.(mem := linked), m.it))
  }

  // The entry of the page, cleared first.
  function LeafVia(m: Machine, table: nat, i: nat, physical: Word): Option<Machine> {
    var zeroed :- Store(m.mem, Pointer(table, i), 0);
    var leaf :- PointAt(zeroed, Pointer(table, i), physical);
    Some(m.(mem := leaf))
  }

  function Map4KVia(m: Machine, va: Word, physical: Word): Option<Machine> {
    var (m3, p3) :- DescendVia(m, P4_TABLE, Index(va, 0));
    var (m2, p2) :- DescendVia(m3, p3, Index(va, 1));
    var (m1, p1) :- DescendVia(m2, p2, Index(va, 2));
    LeafVia(m1, p1, Index(va, 3), physical)
  }

  function Map2MVia(m: Machine, va: Word, physical: Word): Option<Machine> {
    var (m3, p3) :- DescendVia(m, P4_TABLE, Index(va, 0));
    var (m2, p2) :- DescendVia(m3, p3, Index(va, 1));
    var leaf :- LeafVia(m2, p2, Index(va, 2), physical);
    var large :- Update(leaf.mem, Pointer(p2, Index(va, 2)), e => SetHuge(e));
    Some(m2.(mem := large))
  }

  function FillVia(mem: Memory, p3: nat, rounds: nat): Option<Memory> {
    if rounds == 0 then Some(mem)
    else
      var before :- FillVia(mem, p3, rounds - 1);
      Store(before, Pointer(p3, Index(GigAddress(rounds - 1), 1)), GigEntry(rounds - 1))
  }

  function PhysMapVia(m: Machine, total: Word): Option<Machine> {
    var n :- NewTableVia(m);
    var again :- ClearVia(n.mem, m.it, ENTRIES);
    var filled :- FillVia(again, m.it, NumGigs(total));
    var slot := Index(GigAddress(NumGigs(total)), 0);
    var linked :- Store(filled, Pointer(P4_TABLE, slot), LinkEntry(0, m.it % TWO_64));
    Some(n.(mem := linked))
  }

  function ApplyVia(m: Machine, op: Op): Option<Machine> {
    match op
    case Setup(total) => PhysMapVia(m, total)
    case Map(Page4K(va, p)) => Map4KVia(m, va, p)
    case Map(Page2M(va, p)) => Map2MVia(m, va, p)
  }

  function RunVia(m: Machine, ops: seq<Op>): Option<Machine> {
    if ops == [] then Some(m)
    else
      var before :- RunVia(m, ops[..|ops| - 1]);
      ApplyVia(before, ops[|ops| - 1])
  }

  // ---- Words that can be written without losing the identity window ----

  /** Entry i of the table is below 2 MB and found, writable, at its physical address. */
  predicate Direct(mem: Memory, t: nat, i: nat) {
    && t % 8 == 0 && EntryAddress(t, i) < WINDOW
    && Walk(mem, EntryAddress(t, i)) == Mapped(EntryAddress(t, i), true)
  }

  /** So it is, and so it stays whatever is written to it. */
  ghost predicate Safe(mem: Memory, t: nat, i: nat) {
    |mem| == WORDS && Direct(mem, t, i) && forall e: Word :: Direct(Poke(mem, t, i, e), t, i)
  }

  lemma LoadDirect(mem: Memory, t: nat, i: nat)
    requires Direct(mem, t, i)
    ensures Load(mem, Pointer(t, i)) == Some(Peek(mem, t, i))
  {
    hide Walk;
  }

  lemma StoreDirect(mem: Memory, t: nat, i: nat, e: Word)
    requires Direct(mem, t, i)
    ensures Store(mem, Pointer(t, i), e) == Some(Poke(mem, t, i, e))
  {
    hide Walk;
  }

  lemma LoadInWindow(mem: Memory, t: nat, i: nat)
    requires IdentityWindow(mem) && t % 8 == 0 && EntryAddress(t, i) < WINDOW
    ensures Load(mem, Pointer(t, i)) == Some(Peek(mem, t, i))
  {
    hide Walk, Load, Pointer;
    LoadDirect(mem, t, i);
  }

  lemma StoreInWindow(mem: Memory, t: nat, i: nat, e: Word)
    requires IdentityWindow(mem) && t % 8 == 0 && EntryAddress(t, i) < WINDOW
    ensures Store(mem, Pointer(t, i), e) == Some(Poke(mem, t, i, e))
  {
    hide Walk, Store, Pointer, Poke;
    StoreDirect(mem, t, i, e);
  }

  lemma PokeTwice(mem: Memory, t: nat, i: nat, e: Word, e': Word)
    requires t / 8 + i < |mem|
    ensures Peek(Poke(mem, t, i, e), t, i) == e && Poke(Poke(mem, t, i, e), t, i, e') == Poke(mem, t, i, e')
  {
  }

  lemma InWords(t: nat, i: nat)
    requires t % 8 == 0 && EntryAddress(t, i) < WINDOW
    ensures t / 8 + i < WORDS
  {
  }

  lemma SafeStays(mem: Memory, t: nat, i: nat, e: Word)
    requires Safe(mem, t, i)
    ensures Safe(Poke(mem, t, i, e), t, i)
  {
    hide Poke, Direct;
    SafeWord(mem, t, i);
    forall e': Word
      ensures Direct(Poke(Poke(mem, t, i, e), t, i, e'), t, i)
    {
      PokeTwice(mem, t, i, e, e');
    }
  }

  lemma UpdateSafe(mem: Memory, t: nat, i: nat, f: Word -> Word)
    requires Safe(mem, t, i)
    ensures Update(mem, Pointer(t, i), f) == Some(Poke(mem, t, i, f(Peek(mem, t, i))))
    ensures Safe(Poke(mem, t, i, f(Peek(mem, t, i))), t, i)
  {
    hide Poke, Direct, Load, Store, Pointer;
    LoadDirect(mem, t, i);
    StoreDirect(mem, t, i, f(Peek(mem, t, i)));
    SafeStays(mem, t, i, f(Peek(mem, t, i)));
  }

  // The three assignments leave the entry that the physical routine writes at once.
  lemma PointAtSafe(mem: Memory, t: nat, i: nat, address: Word)
    requires Safe(mem, t, i)
    ensures PointAt(mem, Pointer(t, i), address) == Some(Poke(mem, t, i, LinkEntry(Peek(mem, t, i), address)))
    ensures Safe(Poke(mem, t, i, LinkEntry(Peek(mem, t, i), address)), t, i)
  {
    hide Poke, Peek, Load, Store, Pointer, Update, SetAddress, SetPresent, SetWritable, Safe;
    assert t / 8 + i < |mem| by { SafeWord(mem, t, i); }
    var e1 := SetAddress(Peek(mem, t, i), address);
    var e2, e3 := SetPresent(e1), SetWritable(SetPresent(e1));
    UpdateSafe(mem, t, i, e => SetAddress(e, address));
    PokeTwice(mem, t, i, e1, e2);
    UpdateSafe(Poke(mem, t, i, e1), t, i, e => SetPresent(e));
    PokeTwice(mem, t, i, e2, e3);
    UpdateSafe(Poke(mem, t, i, e2), t, i, e => SetWritable(e));
  }

  lemma SafeWord(mem: Memory, t: nat, i: nat)
    requires Safe(mem, t, i)
    ensures t / 8 + i < |mem|
  {
    hide Walk;
    InWords(t, i);
  }

  lemma {:induction false} SlotsApart(va: Word, x: Word, d: nat)
    requires 1 <= d <= 4 && Node(va, 1) != Node(x, 1)
    ensures Node(va, d) != Node(x, d)
  {
    hide Node, Index;
    if d > 1 {
      RouteStep([], va, d - 1);
      RouteStep([], x, d - 1);
      SlotsApart(va, x, d - 1);
    }
  }

  // Any word at an entry on the route of an address outside l4 slot 0.
  lemma StoreKeepsWalk(m: Machine, va: Word, d: nat, e: Word, x: Word)
    requires Tree(m) && d < 4 && RouteTable(m.mem, va, d).Some? && Node(va, 1) != Node(x, 1)
    ensures Walk(Poke(m.mem, RouteTable(m.mem, va, d).value, Index(va, d), e), x) == Walk(m.mem, x)
  {
    hide Node, Index, Tree, TableAt, Poke, WalkFrom;
    var mem' := Poke(m.mem, RouteTable(m.mem, va, d).value, Index(va, d), e);
    StartOfRoute(m.mem, x);
    StartOfRoute(mem', x);
    NodeStep(va, d);
    SlotsApart(va, x, d + 1);
    forall k: nat | k < 4
      ensures Used(mem', x, k) == Used(m.mem, x, k)
    {
      UnderRoute(x, d + 1, Node(va, d + 1), k);
      PokeKeepsTables(m, d, Node(va, d), Index(va, d), e, k, Node(x, k));
      NodeStep(x, k);
      if RouteTable(m.mem, x, k).Some? {
        EntriesApart(m, d, Node(va, d), Index(va, d), k, Node(x, k), Index(x, k), e);
      }
    }
    if Canonical(x) {
      WalkSame(m.mem, mem', x, 0, true);
    }
  }

  lemma RouteSafe(m: Machine, va: Word, d: nat)
    requires Tree(m) && IdentityWindow(m.mem) && d < 4 && RouteTable(m.mem, va, d).Some? && Index(va, 0) != 0
    ensures Safe(m.mem, RouteTable(m.mem, va, d).value, Index(va, d))
  {
    hide Node, Index, Tree, TableAt, Poke, Walk;
    TableInMemory(m, d, Node(va, d), Index(va, d));
    FirstNode(va);
    var t, i := RouteTable(m.mem, va, d).value, Index(va, d);
    var a := EntryAddress(t, i);
    LowNode(a);
    forall e: Word
      ensures Walk(Poke(m.mem, t, i, e), a) == Mapped(a, true)
    {
      StoreKeepsWalk(m, va, d, e, a);
    }
  }

  lemma LowNode(x: Word)
    requires x < WINDOW
    ensures Node(x, 1) == 0
  {
  }

  // ---- new_page_table ----

  // Memory that may differ from m's where no table of m is.
  ghost predicate SameBelow(m: Machine, mem: Memory) {
    |mem| == WORDS && forall t: nat, i: nat | TablePlace(m.it, t) && i < ENTRIES :: Peek(mem, t, i) == Peek(m.mem, t, i)
  }

  lemma BelowKeepsIdentity(m: Machine, mem: Memory)
    requires Tree(m) && IdentityWindow(m.mem) && SameBelow(m, mem)
    ensures IdentityWindow(mem)
  {
    hide Node, Index, Tree, TableAt, Peek, Walk;
    forall d, n
      ensures TableAt(mem, d, n) == TableAt(m.mem, d, n)
    {
      SameTables(m, mem, d, n);
    }
    forall d, n, i: nat | i < ENTRIES
      ensures EntryAt(mem, d, n, i) == EntryAt(m.mem, d, n, i)
    {
      if TableAt(m.mem, d, n).Some? { PlaceOf(m, d, n); }
    }
    EntriesSameWalks(m.mem, mem);
  }

  lemma PlaceOf(m: Machine, d: nat, n: nat)
    requires Tree(m) && TableAt(m.mem, d, n).Some?
    ensures TablePlace(m.it, TableAt(m.mem, d, n).value)
  {
  }

  function Cleared(mem: Memory, at: nat, n: nat): Memory {
    seq(|mem|, j requires 0 <= j < |mem| => if at / 8 <= j < at / 8 + n then 0 else mem[j])
  }

  lemma ClearedBelow(m: Machine, mem: Memory, n: nat)
    requires Tree(m) && SameBelow(m, mem)
    ensures SameBelow(m, Cleared(mem, m.it, n))
  {
    hide TableAt;
    WatermarkPlace(m);
    forall t: nat, i: nat | TablePlace(m.it, t) && i < ENTRIES
      ensures Peek(Cleared(mem, m.it, n), t, i) == Peek(mem, t, i)
    {
      BelowWatermark(m.it, t, i);
    }
  }

  lemma {:induction false} ClearVirtual(m: Machine, mem: Memory, n: nat)
    requires Tree(m) && IdentityWindow(m.mem) && SameBelow(m, mem) && m.it + PAGE <= WINDOW && n <= ENTRIES
    ensures ClearVia(mem, m.it, n) == Some(Cleared(mem, m.it, n))
  {
    hide Tree, Walk, SameBelow, IdentityWindow, Store, Pointer;
    WatermarkPlace(m);
    if n > 0 {
      ClearVirtual(m, mem, n - 1);
      var before := Cleared(mem, m.it, n - 1);
      ClearedBelow(m, mem, n - 1);
      BelowKeepsIdentity(m, before);
      Aligned(m.it);
      StoreInWindow(before, m.it, n - 1, 0);
      assert Poke(before, m.it, n - 1, 0) == Cleared(mem, m.it, n);
    } else {
      assert Cleared(mem, m.it, 0) == mem;
    }
  }

  lemma Aligned(t: nat)
    requires t % PAGE == 0
    ensures t % 8 == 0
  {
  }

  lemma NewTableVirtual(m: Machine)
    requires Tree(m) && IdentityWindow(m.mem) && m.it + PAGE <= WINDOW
    ensures NewTableVia(m) == Some(NewTable(m)) && SameBelow(m, NewTable(m).mem) && IdentityWindow(NewTable(m).mem)
  {
    hide Tree, Walk, ClearVia, IdentityWindow;
    WatermarkPlace(m);
    ClearVirtual(m, m.mem, ENTRIES);
    ClearedBelow(m, m.mem, ENTRIES);
    assert NewTable(m).mem == Cleared(m.mem, m.it, ENTRIES);
    BelowKeepsIdentity(m, NewTable(m).mem);
  }

  // ---- The mappers ----

  lemma DescendVirtual(m: Machine, va: Word, d: nat)
    requires Tree(m) && IdentityWindow(m.mem) && Index(va, 0) != 0 && d < 3 && RouteTable(m.mem, va, d).Some?
    requires !Present(Used(m.mem, va, d)) ==> m.it + PAGE <= WINDOW
    ensures var (t, i) := (RouteTable(m.mem, va, d).value, Index(va, d));
            DescendVia(m, t, i) == Some(Descend(m, t, i))
  {
    hide Node, Index, Tree, TableAt, Walk, IdentityWindow, Pointer, Load, PointAt, NewTableVia, NewTable, LinkEntry,
         GetAddress, Present, Poke, SameBelow;
    var t, i := RouteTable(m.mem, va, d).value, Index(va, d);
    RouteSafe(m, va, d);
    LoadInWindow(m.mem, t, i);
    if !Present(Used(m.mem, va, d)) {
      NewTableVirtual(m);
      NewTableKeepsTree(m, d + 1);
      RouteSafe(NewTable(m), va, d);
      PointAtSafe(NewTable(m).mem, t, i, m.it % TWO_64);
    }
  }

  function BuildRouteVia(m: Machine, va: Word, depth: nat): Option<(Machine, nat)>
    requires depth < 4
  {
    if depth == 0 then Some((m, P4_TABLE))
    else
      var (n, t) :- BuildRouteVia(m, va, depth - 1);
      DescendVia(n, t, Index(va, depth - 1))
  }

  lemma {:induction false} RouteVirtual(m: Machine, va: Word, depth: nat)
    requires Tree(m) && IdentityWindow(m.mem) && Index(va, 0) != 0 && depth < 4 && Mappable(m, va, depth)
    ensures BuildRouteVia(m, va, depth) == Some(BuildRoute(m, va, depth))
    ensures IdentityWindow(BuildRoute(m, va, depth).0.mem)
  {
    hide Node, Index, Tree, TableAt, Walk, Descend, DescendVia, HugeOn;
    RouteIsBuilt(m, va, depth);
    if depth > 0 {
      var d := depth - 1;
      MappableLess(m, va, d, depth);
      RouteVirtual(m, va, d);
      RouteIsBuilt(m, va, d);
      var (n, t) := BuildRoute(m, va, d);
      RoomToDescend(m, n, va, d);
      DescendVirtual(n, va, d);
    }
  }

  lemma RoomToDescend(m: Machine, n: Machine, va: Word, d: nat)
    requires d < 3 && RouteBuilt(m, n, va, d) && n.it == m.it + PAGE * MissingTables(m.mem, va, d)
    requires Mappable(m, va, d + 1)
    ensures !Present(Used(n.mem, va, d)) ==> n.it + PAGE <= WINDOW
  {
    hide Node, Index, Tree, TableAt, Walk;
    if !Present(Used(n.mem, va, d)) {
      RouteStep(n.mem, va, d);
      assert RouteTable(n.mem, va, d + 1).None?;
      assert Missing(m.mem, va, d + 1) == 1;
    }
  }

  // The leaf: cleared, then assigned field by field.
  lemma LeafVirtual(mem: Memory, t: nat, i: nat, physical: Word)
    requires Safe(mem, t, i)
    ensures var zeroed := Poke(mem, t, i, 0);
            && Store(mem, Pointer(t, i), 0) == Some(zeroed)
            && PointAt(zeroed, Pointer(t, i), physical) == Some(Poke(mem, t, i, LeafEntry(physical)))
            && Update(Poke(mem, t, i, LeafEntry(physical)), Pointer(t, i), e => SetHuge(e)) ==
               Some(Poke(mem, t, i, HugeLeafEntry(physical)))
  {
    hide Direct, Poke, Peek, Load, Store, Pointer, Update, SetAddress, SetPresent, SetWritable, PointAt, SetHuge;
    SafeWord(mem, t, i);
    StoreDirect(mem, t, i, 0);
    SafeStays(mem, t, i, 0);
    PokeTwice(mem, t, i, 0, LeafEntry(physical));
    PointAtSafe(Poke(mem, t, i, 0), t, i, physical);
    PokeTwice(mem, t, i, LeafEntry(physical), HugeLeafEntry(physical));
    SafeStays(mem, t, i, LeafEntry(physical));
    UpdateSafe(Poke(mem, t, i, LeafEntry(physical)), t, i, e => SetHuge(e));
  }

  lemma ViaRoutes(m: Machine, va: Word)
    ensures BuildRouteVia(m, va, 1) == DescendVia(m, P4_TABLE, Index(va, 0))
    ensures BuildRouteVia(m, va, 1).Some? ==>
              var (n, t) := BuildRouteVia(m, va, 1).value; BuildRouteVia(m, va, 2) == DescendVia(n, t, Index(va, 1))
    ensures BuildRouteVia(m, va, 2).Some? ==>
              var (n, t) := BuildRouteVia(m, va, 2).value; BuildRouteVia(m, va, 3) == DescendVia(n, t, Index(va, 2))
  {
    hide Index, DescendVia;
  }

  lemma Map4KVirtual(m: Machine, va: Word, physical: Word)
    requires Tree(m) && IdentityWindow(m.mem) && Index(va, 0) != 0 && Mappable(m, va, 3)
    ensures Map4KVia(m, va, physical) == Some(Map4K(m, va, physical))
  {
    hide Node, Index, Tree, TableAt, Walk, IdentityWindow, Mappable, Map4K, Map2M, DescendVia, PointAt, Update, Store,
         LeafEntry, HugeLeafEntry, BuildRoute, BuildRouteVia, Pointer, Safe;
    MappableLess(m, va, 1, 3);
    MappableLess(m, va, 2, 3);
    RouteVirtual(m, va, 1);
    RouteVirtual(m, va, 2);
    RouteVirtual(m, va, 3);
    ViaRoutes(m, va);
    RouteIsBuilt(m, va, 3);
    var (n, t) := BuildRoute(m, va, 3);
    RouteSafe(n, va, 3);
    LeafVirtual(n.mem, t, Index(va, 3), physical);
    MappersBuildRoutes(m, va, physical);
  }

  lemma Map2MVirtual(m: Machine, va: Word, physical: Word)
    requires Tree(m) && IdentityWindow(m.mem) && Index(va, 0) != 0 && Mappable(m, va, 2)
    ensures Map2MVia(m, va, physical) == Some(Map2M(m, va, physical))
  {
    hide Node, Index, Tree, TableAt, Walk, IdentityWindow, Mappable, Map4K, Map2M, DescendVia, PointAt, Update, Store,
         LeafEntry, HugeLeafEntry, BuildRoute, BuildRouteVia, Pointer, Safe;
    MappableLess(m, va, 1, 2);
    RouteVirtual(m, va, 1);
    RouteVirtual(m, va, 2);
    ViaRoutes(m, va);
    RouteIsBuilt(m, va, 2);
    var (n, t) := BuildRoute(m, va, 2);
    RouteSafe(n, va, 2);
    LeafVirtual(n.mem, t, Index(va, 2), physical);
    MappersBuildRoutes(m, va, physical);
  }

  // ---- setup_physical_map ----

  lemma {:induction false} FillVirtual(m: Machine, p3: nat, rounds: nat)
    requires Tree(m) && IdentityWindow(m.mem) && Unreached(m.mem, p3) && TablePlace(m.it, p3) && rounds <= ENTRIES
    requires forall j: nat | j < ENTRIES :: Peek(m.mem, p3, j) == 0
    ensures FillVia(m.mem, p3, rounds) == Some(FillGigs(m.mem, p3, rounds))
    ensures IdentityWindow(FillGigs(m.mem, p3, rounds))
  {
    hide Node, Index, Tree, TableAt, Walk, GigEntry, GigAddress, Pointer, Store, Unreached, Peek;
    WatermarkPlace(m);
    Filled(m, p3, rounds);
    EntriesSameWalks(m.mem, FillGigs(m.mem, p3, rounds));
    if rounds > 0 {
      FillVirtual(m, p3, rounds - 1);
      Aligned(p3);
      StoreInWindow(FillGigs(m.mem, p3, rounds - 1), p3, Index(GigAddress(rounds - 1), 1), GigEntry(rounds - 1));
    }
  }

  lemma PhysMapVirtual(m: Machine, total: Word)
    requires Tree(m) && IdentityWindow(m.mem) && m.it + PAGE <= WINDOW && NumGigs(total) < ENTRIES
    ensures PhysMapVia(m, total) == Some(PhysMap(m, total))
  {
    hide Node, Index, Tree, TableAt, Walk, GigAddress, Pointer, Store, Unreached, ClearVia, FillVia, IdentityWindow,
         NewTableVia, SameBelow, LinkEntry, NumGigs, FillGigs;
    var n := NewTable(m);
    NewTableVirtual(m);
    ClearVirtual(m, n.mem, ENTRIES);
    assert Cleared(n.mem, m.it, ENTRIES) == n.mem;
    NewTableKeepsTree(m, 1);
    FillVirtual(n, m.it, NumGigs(total));
    var filled := FillGigs(n.mem, m.it, NumGigs(total));
    StoreInWindow(filled, P4_TABLE, Index(GigAddress(NumGigs(total)), 0), LinkEntry(0, m.it % TWO_64));
  }

  // ---- Whole runs ----

  /** Any mixed run that avoids l4 slot 0, made by loads and stores through the tables it is building:
      none of them faults, and memory ends as the physical run leaves it. */
  lemma {:induction false} VirtualRun(m: Machine, ops: seq<Op>)
    requires Tree(m) && OpsOk(m, ops) && IdentityWindow(m.mem)
    requires forall i | 0 <= i < |ops| :: AvoidsSlotZero(ops[i])
    ensures RunVia(m, ops) == Some(RunOps(m, ops))
  {
    hide Node, Index, Tree, Walk, TableAt, IdentityWindow, Map4KVia, Map2MVia, PhysMapVia, Map4K, Map2M, PhysMap,
         Mappable, NumGigs;
    if ops != [] {
      var k := |ops| - 1;
      var n := RunOps(m, ops[..k]);
      VirtualRun(m, ops[..k]);
      MixedRunCorrect(m, ops[..k]);
      PointersNameTables(m, ops[..k]);
      match ops[k]
      case Setup(total) => PhysMapVirtual(n, total);
      case Map(Page4K(va, p)) => Map4KVirtual(n, va, p);
      case Map(Page2M(va, p)) => Map2MVirtual(n, va, p);
    }
  }

  // ---- The states of the loader ----

  ghost predicate LowerHalfFree(mem: Memory) {
    forall x: Word | WINDOW <= x < 0x8000_0000_0000 :: Walk(mem, x) == Fault
  }

  /** A tree of tables, the first 2 MB mapped to themselves, and nothing else in the lower half. */
  ghost predicate LoaderState(m: Machine) {
    Tree(m) && IdentityWindow(m.mem) && LowerHalfFree(m.mem)
  }

  predicate UpperHalf(op: Op) { op.Map? ==> Index(op.call.va, 0) >= WINDOW_SLOT }

  lemma LowerHalfNode(x: Word)
    requires x < 0x8000_0000_0000
    ensures Node(x, 1) < WINDOW_SLOT
  {
  }

  lemma UpperCallElsewhere(op: Op, x: Word)
    requires UpperHalf(op) && x < 0x8000_0000_0000
    ensures !InWindow(x) && (op.Map? ==> !op.call.Covers(x))
  {
    hide Node, Index;
    LowerHalfNode(x);
    if op.Map? {
      FirstNode(op.call.va);
      SlotsApart(op.call.va, x, op.call.Depth() + 1);
    }
  }

  lemma {:induction false} LowerHalfStays(m: Machine, ops: seq<Op>, x: Word)
    requires x < 0x8000_0000_0000 && forall i | 0 <= i < |ops| :: UpperHalf(ops[i])
    ensures LastOp(m.mem, ops, x) == Walk(m.mem, x)
  {
    hide Node, Index, Walk, InWindow, UpperHalf, Call.Covers;
    if ops != [] {
      LowerHalfStays(m, ops[..|ops| - 1], x);
      UpperCallElsewhere(ops[|ops| - 1], x);
    }
  }

  /** Any legal run in the upper half, from boot and setup_physical_map on, made by accesses through the
      tables, ends in such a state. */
  lemma BootedRun(mem: Memory, total: Word, ops: seq<Op>)
    requires BootMemory(mem) && NumGigs(total) < ENTRIES && OpsOk(Booted(mem, total), ops)
    requires forall i | 0 <= i < |ops| :: UpperHalf(ops[i])
    ensures var m := RunOps(Booted(mem, total), ops);
            RunVia(Booted(mem, total), ops) == Some(m) && LoaderState(m)
  {
    hide Node, Index, Walk, Tree, TableAt, Booted, NumGigs, OpsOk, RunVia, RunOps, BootMemory, LastOp;
    var b := Booted(mem, total);
    BootWithWindow(mem, total);
    assert forall i | 0 <= i < |ops| :: UpperHalf(ops[i]) && AvoidsSlotZero(ops[i]);
    VirtualRun(b, ops);
    MixedRunCorrect(b, ops);
    forall x: Word | x < 0x8000_0000_0000
      ensures Walk(RunOps(b, ops).mem, x) == if x < WINDOW then Mapped(x, true) else Fault
    {
      LowerHalfStays(b, ops, x);
    }
  }
}
