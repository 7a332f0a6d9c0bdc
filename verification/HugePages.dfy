/** The check that the mappers do not make: what map_4kb_page and map_2mb_page do, access by access
    through the tables, when a large page is already mapped over the address, and exactly when they
    still meet their purpose. */
module HugePages {
  import opened Bits
  import opened PageEntries
  import opened PageTables
  import opened Wrappers
  import opened PageTree
  import opened PageMapping
  import opened PhysicalMap
  import opened PageRuns
  import opened BootTables
  import opened MixedRuns
  import opened VirtualAccess

  lemma {:induction false} PresentRoute(m: Machine, va: Word, depth: nat)
    requires Tree(m) && depth < 4 && RouteTable(m.mem, va, depth).Some?
    ensures BuildRoute(m, va, depth) == (m, RouteTable(m.mem, va, depth).value)
  {
    hide Node, Index, Tree, TableAt, Frame4K, GetAddress;
    StartOfRoute(m.mem, va);
    if depth > 0 {
      RouteAbove(m.mem, va, depth - 1, depth);
      PresentRoute(m, va, depth - 1);
      EntryFits(m, depth - 1, Node(va, depth - 1), Index(va, depth - 1));
    }
  }

  lemma {:induction false} PresentRouteVia(m: Machine, va: Word, depth: nat)
    requires Tree(m) && IdentityWindow(m.mem) && depth < 4 && RouteTable(m.mem, va, depth).Some?
    ensures BuildRouteVia(m, va, depth) == Some((m, RouteTable(m.mem, va, depth).value))
  {
    hide Node, Index, Tree, TableAt, Frame4K, GetAddress, IdentityWindow, DescendVia;
    StartOfRoute(m.mem, va);
    if depth > 0 {
      var d := depth - 1;
      RouteAbove(m.mem, va, d, depth);
      PresentRouteVia(m, va, d);
      EntryFits(m, d, Node(va, d), Index(va, d));
      DescendPresent(m, va, d);
    }
  }

  // ---- Words and the walks that read them ----

  predicate SameWord(t: nat, i: nat, t': nat, j: nat) { t / 8 + i == t' / 8 + j }

  /** The walk of x reads the word at i entries past t. */
  predicate Reads(mem: Memory, x: Word, t: nat, i: nat) {
    exists d: nat | d < 4 :: ReadsAt(mem, x, d, t, i)
  }

  predicate ReadsAt(mem: Memory, x: Word, d: nat, t: nat, i: nat)
    requires d < 4
  {
    RouteTable(mem, x, d).Some? && SameWord(t, i, RouteTable(mem, x, d).value, Index(x, d))
  }

  lemma {:induction false} SameRoute(mem: Memory, x: Word, t: nat, i: nat, e: Word, d: nat)
    requires d < 4 && !Reads(mem, x, t, i)
    ensures RouteTable(Poke(mem, t, i, e), x, d) == RouteTable(mem, x, d)
    ensures Used(Poke(mem, t, i, e), x, d) == Used(mem, x, d)
  {
    hide Node, Index, Frame4K;
    var mem' := Poke(mem, t, i, e);
    StartOfRoute(mem, x);
    StartOfRoute(mem', x);
    if d > 0 {
      SameRoute(mem, x, t, i, e, d - 1);
      RouteStep(mem, x, d - 1);
      RouteStep(mem', x, d - 1);
    }
    assert !ReadsAt(mem, x, d, t, i);
  }

  /** A word that the walk does not read may change. */
  lemma UnreadWord(mem: Memory, x: Word, t: nat, i: nat, e: Word)
    requires !Reads(mem, x, t, i)
    ensures Walk(Poke(mem, t, i, e), x) == Walk(mem, x)
  {
    hide Node, Index, TableAt, Poke, Reads;
    var mem' := Poke(mem, t, i, e);
    StartOfRoute(mem, x);
    StartOfRoute(mem', x);
    forall k: nat | k < 4
      ensures Used(mem', x, k) == Used(mem, x, k)
    {
      SameRoute(mem, x, t, i, e, k);
    }
    if Canonical(x) {
      WalkSame(mem, mem', x, 0, true);
    }
  }

  /** One that it does read must not be zero. */
  lemma ZeroedWord(m: Machine, x: Word, t: nat, i: nat)
    requires Tree(m) && Reads(m.mem, x, t, i)
    ensures Walk(Poke(m.mem, t, i, 0), x) == Fault
  {
    hide Node, Index, Tree, TableAt;
    var d: nat :| d < 4 && ReadsAt(m.mem, x, d, t, i);
    var T := RouteTable(m.mem, x, d).value;
    var mem' := Poke(m.mem, t, i, 0);
    assert mem' == Poke(m.mem, T, Index(x, d), 0);
    EmptyOk(d);
    NoChild(d);
    PokeLeaf(m, d, Node(x, d), Index(x, d), 0);
    NotUnderItself(d, Node(x, d) * ENTRIES + Index(x, d), d, Node(x, d));
    assert RouteTable(mem', x, d) == Some(T) && Used(mem', x, d) == 0;
    StartOfRoute(mem', x);
    WalkReaches(m.(mem := mem'), x, 0, d);
  }

  lemma NoChild(d: nat)
    ensures Child(d, 0) == None
  {
  }

  lemma UnreadSafe(m: Machine, t: nat, i: nat)
    requires Tree(m) && IdentityWindow(m.mem) && t % 8 == 0 && EntryAddress(t, i) < WINDOW
    requires !Reads(m.mem, EntryAddress(t, i), t, i)
    ensures Safe(m.mem, t, i)
  {
    hide Tree, Walk, Reads, Poke;
    WatermarkPlace(m);
    forall e: Word
      ensures Direct(Poke(m.mem, t, i, e), t, i)
    {
      UnreadWord(m.mem, EntryAddress(t, i), t, i, e);
    }
  }

  // No walk reads a table that is not linked in.
  lemma UnreachedWrite(m: Machine, t: nat, i: nat, e: Word)
    requires Tree(m) && Unreached(m.mem, t) && t % PAGE == 0 && i < ENTRIES
    ensures forall x: Word :: !Reads(m.mem, x, t, i)
    ensures SameWalks(m.mem, Poke(m.mem, t, i, e))
  {
    hide Node, Index, Tree, TableAt, Walk, Poke;
    forall x: Word
      ensures !Reads(m.mem, x, t, i)
    {
      forall d: nat | d < 4
        ensures !ReadsAt(m.mem, x, d, t, i)
      {
        if RouteTable(m.mem, x, d).Some? {
          TableInMemory(m, d, Node(x, d), Index(x, d));
          PlaceOf(m, d, Node(x, d));
          WordsApart(t, i, RouteTable(m.mem, x, d).value, Index(x, d));
        }
      }
    }
    forall x: Word {
      UnreadWord(m.mem, x, t, i, e);
    }
  }

  // A table that is not linked in can be written at will.
  lemma UnreachedSafe(m: Machine, t: nat, i: nat)
    requires Tree(m) && IdentityWindow(m.mem) && Unreached(m.mem, t) && t % PAGE == 0 && t + PAGE <= WINDOW
    requires i < ENTRIES
    ensures Safe(m.mem, t, i)
  {
    hide Tree, TableAt, IdentityWindow, Unreached, Safe, Walk, Reads, SameWalks;
    Aligned(t);
    UnreachedWrite(m, t, i, 0);
    UnreadSafe(m, t, i);
  }

  // ---- Large pages and their frames ----

  lemma FrameAligned(e: Word)
    ensures Frame4K(e) % PAGE == 0 && Frame2M(e) % LARGE_PAGE == 0 && Frame1G(e) % GIGABYTE == 0
  {
    Remainder(Frame4K(e), PAGE, e / PAGE % 0x100_0000_0000, 0);
    Remainder(Frame2M(e), LARGE_PAGE, e / LARGE_PAGE % 0x8000_0000, 0);
    Remainder(Frame1G(e), GIGABYTE, e / GIGABYTE % 0x40_0000, 0);
  }

  // A large page is mapped by a well-formed entry of a table of the tree.
  lemma HugeEntry(m: Machine, va: Word, d: nat)
    requires Tree(m) && HugeOn(m.mem, va, d)
    ensures var e := Used(m.mem, va, d);
            && RouteTable(m.mem, va, d).Some? && Present(e) && Writable(e) && Frame4K(e) == GetAddress(e)
            && if d == 1 then !Reserved1G(e) && Frame1G(e) == Frame4K(e) else !Reserved2M(e) && Frame2M(e) == Frame4K(e)
  {
    hide Node, Index, Tree, TableAt, GetAddress, Frame4K, Frame1G, Frame2M, Reserved1G, Reserved2M;
    EntryFits(m, d, Node(va, d), Index(va, d));
    ZeroNotHuge();
  }

  // No table starts where a 2 MB frame does.
  lemma LargeFrameUnreached(m: Machine, t: nat)
    requires Tree(m) && t % LARGE_PAGE == 0
    ensures Unreached(m.mem, t)
  {
    hide TableAt;
    assert t == 0 || t >= WINDOW;
  }

  // Above the first 2 MB the lower half is not mapped, and what an entry can hold is below 2^63.
  lemma Unmapped(mem: Memory, a: Word)
    requires LowerHalfFree(mem) && WINDOW <= a < 0x8000_0000_0000_0000
    ensures Walk(mem, a) == Fault
  {
    hide WalkFrom;
  }

  lemma AccessFaults(mem: Memory, t: nat, i: nat)
    requires LowerHalfFree(mem) && WINDOW <= EntryAddress(t, i) < 0x8000_0000_0000_0000
    ensures Load(mem, Pointer(t, i)) == None && forall e: Word :: Store(mem, Pointer(t, i), e) == None
  {
    hide Walk, LowerHalfFree;
    Unmapped(mem, EntryAddress(t, i));
  }

  lemma FrameBelow(e: Word)
    ensures Frame2M(e) < TWO_52 && Frame1G(e) < TWO_52 && GetAddress(e) < 2 * TWO_52 && GetAddress(e) % 8 == 0
  {
    FrameRanges(e / LARGE_PAGE % 0x8000_0000, e / GIGABYTE % 0x40_0000, AddrField(e));
  }

  lemma FrameRanges(f: nat, g: nat, h: nat)
    requires f < 0x8000_0000 && g < 0x40_0000 && h < 0x400_0000_0000
    ensures f * LARGE_PAGE < TWO_52 && g * GIGABYTE < TWO_52 && h * 0x800 < 2 * TWO_52 && h * 0x800 % 8 == 0
  {
    Remainder(h * 0x800, 8, h * 0x100, 0);
  }

  // The frame of a large page is taken for a table.
  lemma HugeDescent(m: Machine, va: Word, d: nat)
    requires Tree(m) && HugeOn(m.mem, va, d)
    ensures var frame := if d == 1 then Frame1G(Used(m.mem, va, 1)) else Frame2M(Used(m.mem, va, 2));
            && BuildRoute(m, va, d + 1) == (m, frame)
            && (IdentityWindow(m.mem) ==> BuildRouteVia(m, va, d + 1) == Some((m, frame)))
  {
    hide Node, Index, Tree, TableAt, GetAddress, Frame4K, Frame2M, Frame1G, Reserved2M, Reserved1G, IdentityWindow,
         DescendVia, Huge;
    HugeEntry(m, va, d);
    PresentRoute(m, va, d);
    if IdentityWindow(m.mem) {
      PresentRouteVia(m, va, d);
      DescendPresent(m, va, d);
    }
  }

  // A step through an entry that is there allocates nothing.
  lemma DescendPresent(m: Machine, va: Word, d: nat)
    requires Tree(m) && IdentityWindow(m.mem) && d < 4 && RouteTable(m.mem, va, d).Some? && Present(Used(m.mem, va, d))
    ensures DescendVia(m, RouteTable(m.mem, va, d).value, Index(va, d)) == Some((m, GetAddress(Used(m.mem, va, d))))
  {
    hide Node, Index, Tree, TableAt, Load, Pointer, IdentityWindow, GetAddress, Present;
    TableInMemory(m, d, Node(va, d), Index(va, d));
    LoadInWindow(m.mem, RouteTable(m.mem, va, d).value, Index(va, d));
  }

  // The routines as a descent and what follows it.
  lemma ViaParts(m: Machine, va: Word, physical: Word)
    ensures Map4KVia(m, va, physical) ==
            match BuildRouteVia(m, va, 3)
            case None => None
            case Some((n, t)) => LeafVia(n, t, Index(va, 3), physical)
    ensures BuildRouteVia(m, va, 2).None? ==> Map2MVia(m, va, physical) == None
    ensures BuildRouteVia(m, va, 2).Some? ==>
              var (n, t) := BuildRouteVia(m, va, 2).value;
              var leaf := LeafVia(n, t, Index(va, 2), physical);
              Map2MVia(m, va, physical) ==
              if leaf.None? then None
              else
                var large := Update(leaf.value.mem, Pointer(t, Index(va, 2)), e => SetHuge(e));
                if large.None? then None else Some(n.(mem := large.value))
  {
    hide Index, DescendVia, LeafVia, Update, Pointer;
    ViaRoutes(m, va);
  }

  lemma LeafIs(m: Machine, t: nat, i: nat, physical: Word)
    requires Safe(m.mem, t, i)
    ensures LeafVia(m, t, i, physical) == Some(m.(mem := Poke(m.mem, t, i, LeafEntry(physical))))
  {
    hide Safe, Store, PointAt, Pointer, Poke, LeafEntry, Update, HugeLeafEntry;
    LeafVirtual(m.mem, t, i, physical);
  }

  // ---- Inside a 2 MB page ----

  // Where the walk of x goes when a 2 MB page is mapped over it.
  lemma HugeWalk(m: Machine, x: Word)
    requires Tree(m) && HugeOn(m.mem, x, 2) && Canonical(x)
    ensures Walk(m.mem, x) == Mapped(Frame2M(Used(m.mem, x, 2)) + x % LARGE_PAGE, true)
  {
    hide Node, Index, Tree, TableAt, GetAddress, Frame4K, Frame2M, Reserved2M;
    HugeEntry(m, x, 2);
    StartOfRoute(m.mem, x);
    WalkReaches(m, x, 0, 2);
  }

  lemma SameRegion(mem: Memory, x: Word, y: Word)
    requires Node(x, 3) == Node(y, 3)
    ensures Used(mem, x, 2) == Used(mem, y, 2)
  {
    hide Node, Index;
    NodeStep(x, 2);
    NodeStep(y, 2);
  }

  // The place of an address in its 2 MB region.
  lemma PlaceInLarge(x: Word)
    ensures x % LARGE_PAGE == Index(x, 3) * PAGE + x % PAGE
  {
    var q, i := x / LARGE_PAGE, x / PAGE % 0x200;
    DivideTwice(x, 0x1000);
    assert x / PAGE == q * 0x200 + i;
    assert x == q * LARGE_PAGE + (i * PAGE + x % PAGE);
  }

  // The address in va's 2 MB region at a given place.
  function AtPlace(va: Word, place: nat): Word
    requires place < LARGE_PAGE
  {
    va - va % LARGE_PAGE + place
  }

  lemma AtPlaceFields(va: Word, place: nat)
    requires place < LARGE_PAGE && Canonical(va)
    ensures var y := AtPlace(va, place); Canonical(y) && Node(y, 3) == Node(va, 3) && y % LARGE_PAGE == place
  {
    var y := AtPlace(va, place);
    assert y / LARGE_PAGE == va / LARGE_PAGE;
  }

  // The store hits a byte that the 2 MB page itself maps.
  lemma InsideHuge(m: Machine, va: Word)
    requires Tree(m) && HugeOn(m.mem, va, 2) && Canonical(va)
    ensures Walk(m.mem, AtPlace(va, 8 * Index(va, 3))) ==
            Mapped(EntryAddress(Frame2M(Used(m.mem, va, 2)), Index(va, 3)), true)
  {
    hide Node, Tree, TableAt, Frame2M, HugeOn, Walk;
    var y := AtPlace(va, 8 * Index(va, 3));
    AtPlaceFields(va, 8 * Index(va, 3));
    SameRegion(m.mem, va, y);
    HugeOnSame(m.mem, va, y);
    HugeWalk(m, y);
  }

  // The page at 0 holds no table.
  lemma FirstFrameOff(m: Machine, i: nat, e: Word)
    requires Tree(m) && i < ENTRIES
    ensures SameWalks(m.mem, Poke(m.mem, 0, i, e)) && (IdentityWindow(m.mem) ==> Safe(m.mem, 0, i))
  {
    hide Tree, TableAt, Walk, Unreached, Poke, SameWalks, IdentityWindow, Safe, Reads;
    LargeFrameUnreached(m, 0);
    UnreachedWrite(m, 0, i, e);
    if IdentityWindow(m.mem) {
      UnreachedSafe(m, 0, i);
    }
  }

  /** Over a 2 MB page map_4kb_page takes the page's frame for a table. It writes its entry there by
      the frame's address as a virtual one: for frame 0 into the page's own bytes, and no translation
      changes; for any other frame the first store faults. */
  lemma HugePageIgnored(m: Machine, va: Word, physical: Word)
    requires LoaderState(m) && HugeOn(m.mem, va, 2)
    ensures var (frame, i) := (Frame2M(Used(m.mem, va, 2)), Index(va, 3));
            && Map4KVia(m, va, physical) ==
               (if frame == 0 then Some(m.(mem := Poke(m.mem, 0, i, LeafEntry(physical)))) else None)
            && SameWalks(m.mem, Poke(m.mem, 0, i, LeafEntry(physical)))
            && (Canonical(va) ==> Walk(m.mem, AtPlace(va, 8 * i)) == Mapped(EntryAddress(frame, i), true))
  {
    hide Node, Index, Tree, TableAt, Map4KVia, LeafEntry, Frame2M, HugeOn, SameWalks, Poke, Walk, Canonical, AtPlace,
         Used, LeafVia, BuildRouteVia, BuildRoute, Safe, Map2MVia, Store, Pointer, IdentityWindow, LowerHalfFree,
         PointAt, Load, GetAddress, Frame1G;
    var frame, i := Frame2M(Used(m.mem, va, 2)), Index(va, 3);
    HugeDescent(m, va, 2);
    ViaParts(m, va, physical);
    FrameAligned(Used(m.mem, va, 2));
    FrameBelow(Used(m.mem, va, 2));
    FirstFrameOff(m, i, LeafEntry(physical));
    if frame == 0 {
      LeafIs(m, 0, i, physical);
    } else {
      AccessFaults(m.mem, frame, i);
      assert LeafVia(m, frame, i, physical) == None by { StoreFails(m, frame, i, physical); }
    }
    if Canonical(va) {
      InsideHuge(m, va);
    }
  }

  lemma StoreFails(m: Machine, t: nat, i: nat, physical: Word)
    requires forall e: Word :: Store(m.mem, Pointer(t, i), e) == None
    ensures LeafVia(m, t, i, physical) == None
  {
    hide Store, Pointer, PointAt;
  }

  lemma HugeOnSame(mem: Memory, x: Word, y: Word)
    requires HugeOn(mem, x, 2) && Node(x, 3) == Node(y, 3)
    ensures HugeOn(mem, y, 2)
  {
    SameRegion(mem, x, y);
  }

  // The canonical address with the translated bits of va.
  lemma CanonicalTwin(va: Word) returns (x: Word)
    ensures Canonical(x) && Node(x, 4) == Node(va, 4)
  {
    var low := va % 0x1_0000_0000_0000;
    x := if low < 0x8000_0000_0000 then low else 0xFFFF_0000_0000_0000 + low;
    assert va == va / 0x1_0000_0000_0000 * 0x1_0000_0000_0000 + low;
    assert va / PAGE == va / 0x1_0000_0000_0000 * 0x10_0000_0000 + low / PAGE;
    assert x / PAGE == (x - low) / 0x1_0000_0000_0000 * 0x10_0000_0000 + low / PAGE;
  }

  /** The page of va goes to the given frame. */
  ghost predicate PageGoesTo(mem: Memory, va: Word, physical: Word) {
    forall x: Word | Canonical(x) && Node(x, 4) == Node(va, 4) :: Walk(mem, x) == Mapped(physical + x % PAGE, true)
  }

  /** map_4kb_page returns, and the page of va goes to the frame it was given. */
  ghost predicate Maps4K(m: Machine, va: Word, physical: Word) {
    var r := Map4KVia(m, va, physical);
    r.Some? && PageGoesTo(r.value.mem, va, physical)
  }

  /** Away from 1 GB pages, map_4kb_page does what it is for if and only if no 2 MB page is over the
      address, or that page has frame 0 and sends the address's page to the given frame already. */
  lemma HugePageExact(m: Machine, va: Word, physical: Word)
    requires LoaderState(m) && Index(va, 0) != 0 && !HugeOn(m.mem, va, 1)
    requires physical % PAGE == 0 && physical < TWO_52
    requires m.it + PAGE * MissingTables(m.mem, va, 3) <= WINDOW
    ensures Maps4K(m, va, physical)
       <==> !HugeOn(m.mem, va, 2) || (Frame2M(Used(m.mem, va, 2)) == 0 && Index(va, 3) * PAGE == physical)
  {
    hide Node, Index, Tree, TableAt, Map4K, Map4KVia, Walk, Frame2M, HugeOn, MissingTables, IdentityWindow,
         LowerHalfFree, Poke, LeafEntry;
    if !HugeOn(m.mem, va, 2) {
      Map4KCorrect(m, va, physical);
      Map4KVirtual(m, va, physical);
    } else {
      HugePageIgnored(m, va, physical);
      forall x: Word | Canonical(x) && Node(x, 4) == Node(va, 4)
        ensures Walk(m.mem, x) == Mapped(Frame2M(Used(m.mem, va, 2)) + Index(va, 3) * PAGE + x % PAGE, true)
      {
        PageInHuge(m, va, x);
      }
      var x := CanonicalTwin(va);
    }
  }

  lemma PageInHuge(m: Machine, va: Word, x: Word)
    requires Tree(m) && HugeOn(m.mem, va, 2) && Canonical(x) && Node(x, 4) == Node(va, 4)
    ensures Walk(m.mem, x) == Mapped(Frame2M(Used(m.mem, va, 2)) + Index(va, 3) * PAGE + x % PAGE, true)
  {
    hide Node, Index, Tree, TableAt, Walk, Frame2M;
    NodeStep(x, 3);
    NodeStep(va, 3);
    HugeOnSame(m.mem, va, x);
    SameRegion(m.mem, va, x);
    HugeWalk(m, x);
    PlaceInLarge(x);
  }

  /** Both cases happen at the start of the kernel's region, where map_2mb_page has mapped a 2 MB page:
      with a frame from 2 MB on the call of map_4kb_page faults, with frame 0 it is made for nothing. */
  lemma HugePageWitness(mem: Memory, total: Word, large: Word, physical: Word)
    requires BootMemory(mem) && NumGigs(total) < ENTRIES && large % LARGE_PAGE == 0 && large < TWO_52
    ensures var m := Map2M(Booted(mem, total), KERNEL_REGION, large);
            && Map2MVia(Booted(mem, total), KERNEL_REGION, large) == Some(m)
            && HugeOn(m.mem, KERNEL_REGION, 2)
            && var r := Map4KVia(m, KERNEL_REGION, physical);
               if large == 0 then r.Some? && Walk(r.value.mem, KERNEL_REGION) == Mapped(0, true) else r == None
  {
    hide Node, Index, Tree, TableAt, Map4K, Map4KVia, Map2M, Map2MVia, Walk, Frame2M, HugeOn, MissingTables, Booted,
         NumGigs, IdentityWindow, Poke, LeafEntry, LowerHalfFree;
    KernelSlots(KERNEL_REGION);
    RegionMapped(mem, total, KERNEL_REGION, large);
    var m := Map2M(Booted(mem, total), KERNEL_REGION, large);
    HugePageIgnored(m, KERNEL_REGION, physical);
    HugeWalk(m, KERNEL_REGION);
    assert Walk(m.mem, KERNEL_REGION) == Mapped(large, true);
    assert KERNEL_REGION % LARGE_PAGE == 0;
  }

  // A 2 MB page over a region that has no tables yet.
  lemma RegionMapped(mem: Memory, total: Word, va: Word, large: Word)
    requires BootMemory(mem) && NumGigs(total) < ENTRIES && large % LARGE_PAGE == 0 && large < TWO_52
    requires WINDOW_SLOT < Index(va, 0)
    ensures var m := Map2M(Booted(mem, total), va, large);
            && Map2MVia(Booted(mem, total), va, large) == Some(m) && LoaderState(m) && HugeOn(m.mem, va, 2)
            && forall x: Word | Canonical(x) && Node(x, 3) == Node(va, 3) ::
                 Walk(m.mem, x) == Mapped(large + x % LARGE_PAGE, true)
  {
    hide Node, Index, Tree, TableAt, Map2M, Map2MVia, Walk, Frame2M, HugeOn, MissingTables, Booted, NumGigs,
         IdentityWindow, LowerHalfFree, BootMemory;
    var b := Booted(mem, total);
    BootWithWindow(mem, total);
    FreshRegion(mem, total, va);
    FewerMissing(b.mem, va);
    Map2MCorrect(b, va, large);
    Map2MVirtual(b, va, large);
    var ops := [Map(Page2M(va, large))];
    assert ops[..0] == [] && RunOps(b, ops) == Map2M(b, va, large);
    BootedRun(mem, total, ops);
  }

  lemma FewerMissing(mem: Memory, va: Word)
    ensures MissingTables(mem, va, 2) <= MissingTables(mem, va, 3)
  {
  }
}
