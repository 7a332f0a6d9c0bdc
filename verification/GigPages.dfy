/** The same inside a 1 GB page, where the routines take words of the page for table entries. */
module GigPages {
  import opened Bits
  import opened PageEntries
  import opened PageTables
  import opened Wrappers
  import opened PageTree
  import opened PageMapping
  import opened PhysicalMap
  import opened BootTables
  import opened MixedRuns
  import opened VirtualAccess
  import opened HugePages

  // The frame of the 1 GB page over va.
  function GigFrame(mem: Memory, va: Word): nat { Frame1G(Used(mem, va, 1)) }

  // Only the first 1 GB page has its frame below 2 MB.
  ghost predicate FirstGigabyte(mem: Memory, va: Word) { HugeOn(mem, va, 1) && GigFrame(mem, va) == 0 }

  // The word of the page that is taken for the entry of a P2 table.
  function FalseEntry(mem: Memory, va: Word): Word { Peek(mem, 0, Index(va, 2)) }

  // Where the routine takes the entry of the page to be, when that word is a pointer.
  function FalseTable(mem: Memory, va: Word): nat { GetAddress(FalseEntry(mem, va)) }

  lemma PointFails(mem: Memory, t: nat, i: nat, physical: Word)
    requires EntryAddress(t, i) < WINDOW && Walk(mem, EntryAddress(t, i)) == Fault
    ensures PointAt(mem, Pointer(t, i), physical) == None
  {
    hide Walk, SetAddress, SetPresent, SetWritable;
  }

  // The first store unmaps the word itself, and the next access faults.
  lemma SelfUnmapped(m: Machine, t: nat, i: nat, physical: Word)
    requires Tree(m) && IdentityWindow(m.mem) && t % 8 == 0 && EntryAddress(t, i) < WINDOW
    requires Reads(m.mem, EntryAddress(t, i), t, i)
    ensures Store(m.mem, Pointer(t, i), 0) == Some(Poke(m.mem, t, i, 0))
    ensures LeafVia(m, t, i, physical) == None
  {
    hide Tree, Walk, Reads, Poke, IdentityWindow, Store, Pointer, PointAt;
    StoreInWindow(m.mem, t, i, 0);
    ZeroedWord(m, EntryAddress(t, i), t, i);
    PointFails(Poke(m.mem, t, i, 0), t, i, physical);
  }

  /** Does the store that map_4kb_page makes through a word of the page go through? The word points
      below 2 MB, and the store does not unmap its own address. */
  predicate StoreReturns(mem: Memory, t: nat, i: nat) {
    EntryAddress(t, i) < WINDOW && !Reads(mem, EntryAddress(t, i), t, i)
  }

  /** All that map_4kb_page does over a 1 GB page. It takes the frame for a table: any frame but 0
      faults. At frame 0 it takes a word of the page for an entry. With the present bit clear a table
      is allocated and filled in that no walk reads; with the bit set, the entry is stored wherever the
      word points, if that store goes through. */
  lemma GigPageOutcome(m: Machine, va: Word, physical: Word)
    requires LoaderState(m) && HugeOn(m.mem, va, 1)
    requires GigFrame(m.mem, va) == 0 && !Present(FalseEntry(m.mem, va)) ==> m.it + PAGE <= WINDOW
    ensures var (w, t, i) := (FalseEntry(m.mem, va), FalseTable(m.mem, va), Index(va, 3));
            var r := Map4KVia(m, va, physical);
            if GigFrame(m.mem, va) != 0 then r == None
            else if !Present(w) then r == Some(Map4K(m, va, physical)) && SameWalks(m.mem, r.value.mem)
            else if !StoreReturns(m.mem, t, i) then r == None
            else r == Some(m.(mem := Poke(m.mem, t, i, LeafEntry(physical))))
  {
    hide Node, Index, Tree, TableAt, Map4K, Map4KVia, Map2M, Map2MVia, LeafEntry, LeafVia, Poke, Walk, GetAddress,
         Frame1G, Used, BuildRoute, BuildRouteVia, DescendVia, Descend, HugeOn, IdentityWindow, LowerHalfFree,
         SameWalks, Present, FalseEntry, Reads;
    var i, frame := Index(va, 3), GigFrame(m.mem, va);
    HugeDescent(m, va, 1);
    ViaParts(m, va, physical);
    RouteThree(m, va);
    if frame != 0 {
      FrameAligned(Used(m.mem, va, 1));
      FrameBelow(Used(m.mem, va, 1));
      assert frame >= GIGABYTE;
      AccessFaults(m.mem, frame, Index(va, 2));
      LoadFails(m, frame, Index(va, 2));
    } else if !Present(FalseEntry(m.mem, va)) {
      EmptyWord(m, va);
      AllocatesVia(m, Index(va, 2), i, physical);
      GigPageAllocates(m, Index(va, 2), i, LeafEntry(physical));
      MappersBuildRoutes(m, va, physical);
    } else {
      PointerWord(m, va);
      PointerStore(m, va, physical);
    }
  }

  lemma RouteThree(m: Machine, va: Word)
    ensures BuildRoute(m, va, 3) == Descend(BuildRoute(m, va, 2).0, BuildRoute(m, va, 2).1, Index(va, 2))
    ensures BuildRouteVia(m, va, 3) ==
            match BuildRouteVia(m, va, 2)
            case None => None
            case Some((n, t)) => DescendVia(n, t, Index(va, 2))
  {
    hide Index, Descend, DescendVia;
  }

  lemma LoadFails(m: Machine, t: nat, i: nat)
    requires Load(m.mem, Pointer(t, i)) == None
    ensures DescendVia(m, t, i) == None
  {
    hide Load, Pointer;
  }

  lemma EmptyWord(m: Machine, va: Word)
    ensures FalseEntry(m.mem, va) == Peek(m.mem, 0, Index(va, 2))
  {
  }

  // The word is read as an entry with the present bit.
  lemma PointerWord(m: Machine, va: Word)
    requires Tree(m) && IdentityWindow(m.mem) && Present(FalseEntry(m.mem, va))
    ensures DescendVia(m, 0, Index(va, 2)) == Some((m, FalseTable(m.mem, va)))
  {
    hide Index, Tree, Load, Pointer, GetAddress, IdentityWindow;
    LoadInWindow(m.mem, 0, Index(va, 2));
  }

  lemma PointerStore(m: Machine, va: Word, physical: Word)
    requires LoaderState(m)
    ensures var (t, i) := (FalseTable(m.mem, va), Index(va, 3));
            LeafVia(m, t, i, physical) ==
            if StoreReturns(m.mem, t, i) then Some(m.(mem := Poke(m.mem, t, i, LeafEntry(physical)))) else None
  {
    hide Index, Tree, LeafVia, Poke, LeafEntry, GetAddress, IdentityWindow, LowerHalfFree, Reads, Safe, Store, Pointer;
    var t, i := FalseTable(m.mem, va), Index(va, 3);
    FrameBelow(FalseEntry(m.mem, va));
    if EntryAddress(t, i) >= WINDOW {
      AccessFaults(m.mem, t, i);
      StoreFails(m, t, i, physical);
    } else if Reads(m.mem, EntryAddress(t, i), t, i) {
      SelfUnmapped(m, t, i, physical);
    } else {
      UnreadSafe(m, t, i);
      LeafIs(m, t, i, physical);
    }
  }

  // The table that is linked into the word and then filled.
  lemma AllocatesVia(m: Machine, i: nat, j: nat, physical: Word)
    requires Tree(m) && IdentityWindow(m.mem) && m.it + PAGE <= WINDOW && i < ENTRIES && j < ENTRIES
    requires !Present(Peek(m.mem, 0, i))
    ensures DescendVia(m, 0, i) == Some(Descend(m, 0, i))
    ensures var (n, t) := Descend(m, 0, i);
            LeafVia(n, t, j, physical) == Some(n.(mem := Poke(n.mem, t, j, LeafEntry(physical))))
  {
    hide Node, Index, Tree, TableAt, Poke, Walk, NewTable, NewTableVia, LinkEntry, LeafEntry, Unreached, Load, Pointer,
         PointAt, Safe, LeafVia, IdentityWindow, Present, SameBelow;
    var r := NewTable(m);
    LoadInWindow(m.mem, 0, i);
    NewTableVirtual(m);
    NewTableKeepsTree(m, 1);
    FirstFrameOff(r, i, 0);
    PointAtSafe(r.mem, 0, i, m.it % TWO_64);
    var link := LinkEntry(Peek(r.mem, 0, i), m.it % TWO_64);
    var linked := r.(mem := Poke(r.mem, 0, i, link));
    LargeFrameUnreached(r, 0);
    PokeUnreached(r, 0, i, link);
    IdentityKept(r.mem, linked.mem);
    StillUnreached(r.mem, linked.mem, m.it);
    WatermarkPlace(m);
    Aligned(m.it);
    UnreachedSafe(linked, m.it, j);
    LeafIs(linked, m.it, j, physical);
  }

  lemma IdentityKept(mem: Memory, mem': Memory)
    requires IdentityWindow(mem)
    requires forall d, n, i: nat | i < ENTRIES :: EntryAt(mem', d, n, i) == EntryAt(mem, d, n, i)
    ensures IdentityWindow(mem')
  {
    hide TableAt, EntryAt, Walk;
    EntriesSameWalks(mem, mem');
  }

  // The place of a page in a 1 GB page at 0.
  function GigPlace(va: Word): nat { Index(va, 2) * LARGE_PAGE + Index(va, 3) * PAGE }

  lemma PlaceInGig(x: Word)
    ensures x % GIGABYTE == GigPlace(x) + x % PAGE
  {
    hide Index;
    PlaceInLarge(x);
    GigDigits(x);
  }

  lemma GigDigits(x: Word)
    ensures x % GIGABYTE == Index(x, 2) * LARGE_PAGE + x % LARGE_PAGE
  {
    var q, i := x / GIGABYTE, x / LARGE_PAGE % 0x200;
    DivideTwice(x, 0x20_0000);
    assert x / LARGE_PAGE == q * 0x200 + i;
    assert x == q * GIGABYTE + (i * LARGE_PAGE + x % LARGE_PAGE);
  }

  lemma GigWalk(m: Machine, x: Word)
    requires Tree(m) && FirstGigabyte(m.mem, x) && Canonical(x)
    ensures Walk(m.mem, x) == Mapped(x % GIGABYTE, true)
  {
    hide Node, Index, Tree, TableAt, GetAddress, Frame4K, Frame1G, Reserved1G;
    HugeEntry(m, x, 1);
    StartOfRoute(m.mem, x);
    WalkReaches(m, x, 0, 1);
  }

  // Addresses of one 2 MB region are in the same 1 GB page, at the same place of it.
  lemma SameGig(mem: Memory, va: Word, x: Word)
    requires FirstGigabyte(mem, va) && Node(x, 3) == Node(va, 3)
    ensures FirstGigabyte(mem, x) && Index(x, 2) == Index(va, 2)
  {
    hide Node, Index, TableAt, Frame1G;
    NodeStep(x, 1);
    NodeStep(va, 1);
    NodeStep(x, 2);
    NodeStep(va, 2);
  }

  lemma PageInGig(m: Machine, va: Word, x: Word)
    requires Tree(m) && FirstGigabyte(m.mem, va) && Canonical(x) && Node(x, 4) == Node(va, 4)
    ensures Walk(m.mem, x) == Mapped(GigPlace(va) + x % PAGE, true)
  {
    hide Node, Index, Tree, TableAt, Walk, FirstGigabyte;
    NodeStep(x, 3);
    NodeStep(va, 3);
    SameGig(m.mem, va, x);
    GigWalk(m, x);
    PlaceInGig(x);
  }

  // The walks of a page over which a 1 GB page is mapped read the same two words.
  lemma PageReads(m: Machine, va: Word, x: Word, t: nat, i: nat)
    requires Tree(m) && HugeOn(m.mem, va, 1) && Node(x, 4) == Node(va, 4)
    ensures Reads(m.mem, x, t, i) <==> ReadsAt(m.mem, va, 0, t, i) || ReadsAt(m.mem, va, 1, t, i)
  {
    hide Node, Index, Tree, TableAt, Frame4K, SameWord;
    NodeStep(x, 0);
    NodeStep(va, 0);
    NodeStep(x, 1);
    NodeStep(va, 1);
    NodeStep(x, 2);
    NodeStep(va, 2);
    NodeStep(x, 3);
    NodeStep(va, 3);
    RouteStep(m.mem, x, 1);
    RouteStep(m.mem, x, 2);
    HugeEntry(m, va, 1);
    assert ReadsAt(m.mem, x, 0, t, i) == ReadsAt(m.mem, va, 0, t, i);
    assert ReadsAt(m.mem, x, 1, t, i) == ReadsAt(m.mem, va, 1, t, i);
    assert !ReadsAt(m.mem, x, 2, t, i) && !ReadsAt(m.mem, x, 3, t, i);
  }

  /** So over any 1 GB page the call does what it is for exactly when the page has frame 0 and sends the
      address's page to the given frame already, and the word read, if it is a pointer, leads to a
      store that goes through; unless that store is to one of the two entries on the address's own
      route, which GigPageOwnEntry is about. */
  lemma GigPageExact(m: Machine, va: Word, physical: Word)
    requires LoaderState(m) && HugeOn(m.mem, va, 1)
    requires GigFrame(m.mem, va) == 0 && !Present(FalseEntry(m.mem, va)) ==> m.it + PAGE <= WINDOW
    requires GigFrame(m.mem, va) == 0 && Present(FalseEntry(m.mem, va)) ==>
               !Reads(m.mem, va, FalseTable(m.mem, va), Index(va, 3))
    ensures Maps4K(m, va, physical)
       <==> && GigFrame(m.mem, va) == 0 && GigPlace(va) == physical
            && (Present(FalseEntry(m.mem, va)) ==> StoreReturns(m.mem, FalseTable(m.mem, va), Index(va, 3)))
  {
    hide Node, Index, Tree, TableAt, Map4K, Map4KVia, Walk, FalseEntry, FalseTable, GigPlace, Reads, Poke, LeafEntry,
         IdentityWindow, LowerHalfFree, Present, StoreReturns, HugeOn, GigFrame;
    GigPageOutcome(m, va, physical);
    var r := Map4KVia(m, va, physical);
    if r.Some? {
      forall x: Word | Canonical(x) && Node(x, 4) == Node(va, 4)
        ensures Walk(r.value.mem, x) == Mapped(GigPlace(va) + x % PAGE, true)
      {
        PageInGig(m, va, x);
        if Present(FalseEntry(m.mem, va)) {
          PageReads(m, va, x, FalseTable(m.mem, va), Index(va, 3));
          PageReads(m, va, va, FalseTable(m.mem, va), Index(va, 3));
          UnreadWord(m.mem, x, FalseTable(m.mem, va), Index(va, 3), LeafEntry(physical));
        }
      }
      var x := CanonicalTwin(va);
    }
  }

  /** When the store is to the entry at level d of the address's own route, the frame becomes the table
      of the next level, and the page goes wherever the words of the frame send it. */
  lemma GigPageOwnEntry(m: Machine, va: Word, d: nat, physical: Word, x: Word)
    requires LoaderState(m) && FirstGigabyte(m.mem, va)
    requires physical % PAGE == 0 && physical < TWO_52 && Present(FalseEntry(m.mem, va)) && d < 2
    requires ReadsAt(m.mem, va, d, FalseTable(m.mem, va), Index(va, 3))
    requires StoreReturns(m.mem, FalseTable(m.mem, va), Index(va, 3))
    requires Canonical(x) && Node(x, 4) == Node(va, 4)
    ensures var r := Map4KVia(m, va, physical);
            r.Some? && Walk(r.value.mem, x) == WalkFrom(r.value.mem, physical, d + 1, x, true)
  {
    hide Node, Index, Tree, TableAt, Map4K, Map4KVia, FalseEntry, FalseTable, Reads, Poke, LeafEntry, Walk, WalkFrom,
         IdentityWindow, LowerHalfFree, Present, StoreReturns, HugeOn, GigFrame, SameWord;
    GigPageOutcome(m, va, physical);
    SameNodes(va, x);
    OwnEntryWalk(m, x, d, FalseTable(m.mem, va), Index(va, 3), physical);
  }

  lemma SameNodes(va: Word, x: Word)
    requires Node(x, 4) == Node(va, 4)
    ensures forall k: nat | k < 2 :: Node(x, k) == Node(va, k) && Index(x, k) == Index(va, k)
  {
    hide Node, Index;
    NodeStep(x, 0);
    NodeStep(va, 0);
    NodeStep(x, 1);
    NodeStep(va, 1);
    NodeStep(x, 2);
    NodeStep(va, 2);
    NodeStep(x, 3);
    NodeStep(va, 3);
  }

  lemma OwnEntryWalk(m: Machine, x: Word, d: nat, t: nat, i: nat, physical: Word)
    requires Tree(m) && Canonical(x) && d < 2 && ReadsAt(m.mem, x, d, t, i)
    requires physical % PAGE == 0 && physical < TWO_52
    ensures var mem' := Poke(m.mem, t, i, LeafEntry(physical));
            Walk(mem', x) == WalkFrom(mem', physical, d + 1, x, true)
  {
    hide Node, Index, Tree, TableAt, LeafEntry, Frame4K, GetAddress;
    var mem' := Poke(m.mem, t, i, LeafEntry(physical));
    LeafEntryOk(physical);
    TableInMemory(m, d, Node(x, d), Index(x, d));
    StartOfRoute(m.mem, x);
    if d == 1 {
      EntryFits(m, 0, Node(x, 0), Index(x, 0));
      RouteStep(m.mem, x, 0);
      EntriesApart(m, 1, Node(x, 1), Index(x, 1), 0, Node(x, 0), Index(x, 0), LeafEntry(physical));
      assert mem' == Poke(m.mem, RouteTable(m.mem, x, 1).value, Index(x, 1), LeafEntry(physical));
    }
  }

  /** The 2 MB region of va goes to the given frame. */
  ghost predicate RegionGoesTo(mem: Memory, va: Word, physical: Word) {
    forall x: Word | Canonical(x) && Node(x, 3) == Node(va, 3) ::
      Walk(mem, x) == Mapped(physical + x % LARGE_PAGE, true)
  }

  /** map_2mb_page returns, and the 2 MB region of va goes to the frame it was given. */
  ghost predicate Maps2M(m: Machine, va: Word, physical: Word) {
    var r := Map2MVia(m, va, physical);
    r.Some? && RegionGoesTo(r.value.mem, va, physical)
  }

  /** map_2mb_page over a 1 GB page faults too unless the frame is 0; then it overwrites the word itself
      and changes no translation. */
  lemma GigPageRegion(m: Machine, va: Word, physical: Word)
    requires LoaderState(m) && HugeOn(m.mem, va, 1)
    ensures var i := Index(va, 2);
            && Map2MVia(m, va, physical) ==
               (if GigFrame(m.mem, va) == 0 then Some(m.(mem := Poke(m.mem, 0, i, HugeLeafEntry(physical)))) else None)
            && SameWalks(m.mem, Poke(m.mem, 0, i, HugeLeafEntry(physical)))
  {
    hide Node, Index, Tree, TableAt, Map4KVia, Map2MVia, Walk, Poke, LeafEntry, HugeLeafEntry, LeafVia, Frame1G, Used,
         BuildRoute, BuildRouteVia, Update, Pointer, IdentityWindow, LowerHalfFree, SameWalks, Safe, Store, HugeOn,
         GetAddress, PointAt;
    var i := Index(va, 2);
    HugeDescent(m, va, 1);
    ViaParts(m, va, physical);
    FirstFrameOff(m, i, HugeLeafEntry(physical));
    if GigFrame(m.mem, va) == 0 {
      LeafIs(m, 0, i, physical);
      LeafVirtual(m.mem, 0, i, physical);
    } else {
      FrameAligned(Used(m.mem, va, 1));
      FrameBelow(Used(m.mem, va, 1));
      assert GigFrame(m.mem, va) >= GIGABYTE;
      AccessFaults(m.mem, GigFrame(m.mem, va), i);
      StoreFails(m, GigFrame(m.mem, va), i, physical);
    }
  }

  /** map_2mb_page does what it is for if and only if no 1 GB page is over the address, or that page has
      frame 0 and sends the region to the given frame already. */
  lemma HugeRegionExact(m: Machine, va: Word, physical: Word)
    requires LoaderState(m) && Index(va, 0) != 0 && physical % LARGE_PAGE == 0 && physical < TWO_52
    requires m.it + PAGE * MissingTables(m.mem, va, 2) <= WINDOW
    ensures Maps2M(m, va, physical)
       <==> !HugeOn(m.mem, va, 1) || (GigFrame(m.mem, va) == 0 && Index(va, 2) * LARGE_PAGE == physical)
  {
    hide Node, Index, Tree, TableAt, Map2M, Map2MVia, Walk, HugeOn, MissingTables, IdentityWindow, LowerHalfFree, Poke,
         HugeLeafEntry, GigFrame;
    if !HugeOn(m.mem, va, 1) {
      Map2MCorrect(m, va, physical);
      Map2MVirtual(m, va, physical);
    } else {
      GigPageRegion(m, va, physical);
      if GigFrame(m.mem, va) == 0 {
        forall x: Word | Canonical(x) && Node(x, 3) == Node(va, 3)
          ensures Walk(m.mem, x) == Mapped(Index(va, 2) * LARGE_PAGE + x % LARGE_PAGE, true)
        {
          SameGig(m.mem, va, x);
          GigWalk(m, x);
          GigDigits(x);
        }
      }
      var x := CanonicalTwin(va);
      RouteStep(m.mem, x, 3);
      RouteStep(m.mem, va, 3);
    }
  }

  lemma GigPageAllocates(m: Machine, i: nat, j: nat, e: Word)
    requires Tree(m) && m.it + PAGE <= WINDOW && i < ENTRIES && j < ENTRIES && !Present(Peek(m.mem, 0, i))
    ensures var (n, t) := Descend(m, 0, i); SameWalks(m.mem, Poke(n.mem, t, j, e))
  {
    hide Node, Index, Tree, TableAt, Poke, Walk, NewTable, LinkEntry, Unreached;
    var r := NewTable(m);
    NewTableKeepsTree(m, 1);
    EntriesSameWalks(m.mem, r.mem);
    LargeFrameUnreached(r, 0);
    var link := LinkEntry(Peek(r.mem, 0, i), m.it % TWO_64);
    PokeUnreached(r, 0, i, link);
    var linked := Poke(r.mem, 0, i, link);
    EntriesSameWalks(r.mem, linked);
    WatermarkPlace(m);
    assert Unreached(linked, m.it) by { StillUnreached(r.mem, linked, m.it); }
    UnreachedWrite(r.(mem := linked), m.it, j, e);
  }

  lemma StillUnreached(mem: Memory, mem': Memory, t: nat)
    requires Unreached(mem, t) && forall d, n :: TableAt(mem', d, n) == TableAt(mem, d, n)
    ensures Unreached(mem', t)
  {
    hide TableAt;
  }

  // ---- After boot, with a gigabyte of memory ----

  // The window consists of 1 GB pages.
  lemma WindowIsGigPages(mem: Memory, total: Word, va: Word)
    requires BootMemory(mem) && NumGigs(total) < ENTRIES
    requires Node(va, 1) == WINDOW_SLOT && Index(va, 1) < NumGigs(total)
    ensures var m := Booted(mem, total);
            LoaderState(m) && m.it == 0x2_1000 && HugeOn(m.mem, va, 1) && GigFrame(m.mem, va) == Index(va, 1) * GIGABYTE
  {
    hide Node, Index, Tree, TableAt, PhysMap, Walk, Frame1G, NumGigs, GigEntry;
    BootTree(mem);
    BootWithWindow(mem, total);
    WindowEntries(Machine(mem, FIRST_NEW_TABLE), total);
    GigEntryOk(Index(va, 1));
  }

  /** After boot and setup_physical_map, a call for any address of the window past its first gigabyte
      faults. */
  lemma WindowCallsFault(mem: Memory, total: Word, va: Word, physical: Word)
    requires BootMemory(mem) && NumGigs(total) < ENTRIES
    requires Node(va, 1) == WINDOW_SLOT && 0 < Index(va, 1) < NumGigs(total)
    ensures Map4KVia(Booted(mem, total), va, physical) == None
    ensures Map2MVia(Booted(mem, total), va, physical) == None
  {
    hide Node, Index, Tree, TableAt, Booted, Walk, GigFrame, NumGigs, HugeOn, Map4KVia, Map2MVia, LoaderState;
    WindowIsGigPages(mem, total, va);
    GigPageOutcome(Booted(mem, total), va, physical);
    GigPageRegion(Booted(mem, total), va, physical);
  }

  lemma FirstPagesOfWindow(k: nat)
    requires k < ENTRIES
    ensures var va := WINDOW_BASE + k * PAGE;
            Node(va, 1) == WINDOW_SLOT && Index(va, 1) == 0 && Index(va, 2) == 0 && Index(va, 3) == k && Canonical(va)
  {
    assert (WINDOW_BASE + k * PAGE) / PAGE == 0xF_FFF8_0000_0000 + k;
    assert (WINDOW_BASE + k * PAGE) / LARGE_PAGE == 0x7FF_FC00_0000;
    assert (WINDOW_BASE + k * PAGE) / GIGABYTE == 0x3_FFFE_0000;
  }

  lemma FirstWordKept(mem: Memory)
    requires BootMemory(mem)
    ensures var r := Booted(mem, 0x4000_0000).mem; |r| == WORDS && r[0] == mem[0]
  {
    hide Index, GigEntry, LinkEntry;
    OneGigabyte();
    GigIndices(0);
    GigIndices(1);
    var n := NewTable(Machine(mem, FIRST_NEW_TABLE));
    assert FillGigs(n.mem, FIRST_NEW_TABLE, 0) == n.mem;
    assert FillGigs(n.mem, FIRST_NEW_TABLE, 1) == Poke(n.mem, FIRST_NEW_TABLE, 0, GigEntry(0));
  }

  // The table that the first word of memory names, for a page at the start of the window.
  lemma FirstWordRead(mem: Memory, k: nat, pages: nat)
    requires BootMemory(mem) && k < ENTRIES && pages < 0x10 && mem[0] == pages * PAGE + 3
    ensures var (m, va) := (Booted(mem, 0x4000_0000), WINDOW_BASE + k * PAGE);
            && LoaderState(m) && m.it == 0x2_1000 && HugeOn(m.mem, va, 1) && GigFrame(m.mem, va) == 0
            && Present(FalseEntry(m.mem, va)) && FalseTable(m.mem, va) == pages * PAGE && Index(va, 3) == k
  {
    hide Node, Index, Tree, TableAt, Booted, Walk, GigFrame, NumGigs, HugeOn, LoaderState, GetAddress;
    OneGigabyte();
    FirstPagesOfWindow(k);
    WindowIsGigPages(mem, 0x4000_0000, WINDOW_BASE + k * PAGE);
    FirstWordKept(mem);
    FlagsRead(pages, 3);
  }

  /** The store that does not go through does the worst: with a pointer to the P4 table in the first
      word of memory, mapping the first page of the window clears the P4 entry of the first 512 GB. The
      whole first 2 MB, the routine with it, is unmapped before the next access. */
  lemma GigPageWitness(mem: Memory, physical: Word)
    requires BootMemory(mem) && mem[0] == 0x1003
    ensures var m := Booted(mem, 0x4000_0000);
            && LoaderState(m) && HugeOn(m.mem, WINDOW_BASE, 1)
            && Store(m.mem, Pointer(P4_TABLE, 0), 0) == Some(Poke(m.mem, P4_TABLE, 0, 0))
            && (forall x: Word | x < WINDOW :: Walk(Poke(m.mem, P4_TABLE, 0, 0), x) == Fault)
            && Map4KVia(m, WINDOW_BASE, physical) == None
  {
    hide Node, Index, Tree, TableAt, Booted, Walk, GigFrame, HugeOn, Map4KVia, FalseEntry, FalseTable, Poke, Store,
         Pointer, Present, IdentityWindow, LowerHalfFree;
    var m := Booted(mem, 0x4000_0000);
    FirstWordRead(mem, 0, 1);
    forall x: Word | x < WINDOW
      ensures Reads(m.mem, x, P4_TABLE, 0)
    {
      StartOfRoute(m.mem, x);
      LowNode(x);
      FirstNode(x);
      assert ReadsAt(m.mem, x, 0, P4_TABLE, 0);
    }
    GigPageOutcome(m, WINDOW_BASE, physical);
    StoreInWindow(m.mem, P4_TABLE, 0, 0);
    forall x: Word | x < WINDOW {
      ZeroedWord(m, x, P4_TABLE, 0);
    }
  }

  /** And one that does go through maps another page: with a pointer to the P1 table, the call for page 5
      of the window leaves that page where it was and moves page 5 of the first 2 MB. */
  lemma GigPageMovesAnother(mem: Memory)
    requires BootMemory(mem) && mem[0] == 0x4003
    ensures var (m, va) := (Booted(mem, 0x4000_0000), WINDOW_BASE + 0x5000);
            && LoaderState(m) && Walk(m.mem, 0x5000) == Mapped(0x5000, true)
            && var r := Map4KVia(m, va, 0x9000);
               && r.Some? && Walk(r.value.mem, 0x5000) == Mapped(0x9000, true)
               && Walk(r.value.mem, va) == Mapped(0x5000, true)
  {
    hide Node, Index, Tree, TableAt, Booted, Walk, GigFrame, HugeOn, Map4KVia, FalseEntry, FalseTable, Poke, Present,
         LowerHalfFree, Reads, LeafEntry, GigPlace;
    var m, va := Booted(mem, 0x4000_0000), WINDOW_BASE + 0x5000;
    FirstWordRead(mem, 5, 4);
    FirstPagesOfWindow(5);
    P1Unread(mem);
    GigPageOutcome(m, va, 0x9000);
    P1Moves(mem);
    PageInGig(m, va, va);
    assert GigPlace(va) == 0x5000 by { FifthPlace(); }
    UnreadWord(m.mem, va, 0x4000, 5, LeafEntry(0x9000));
  }

  lemma FifthPlace()
    ensures GigPlace(WINDOW_BASE + 0x5000) == 0x5000 && (WINDOW_BASE + 0x5000) % PAGE == 0
  {
    hide Index;
    FirstPagesOfWindow(5);
  }

  lemma LowIndices(a: Word)
    requires a < WINDOW
    ensures Node(a, 1) == 0 && Node(a, 2) == 0 && Node(a, 3) == 0
    ensures Index(a, 0) == 0 && Index(a, 1) == 0 && Index(a, 2) == 0 && Index(a, 3) == a / PAGE
  {
  }

  // The tables of the first 2 MB are those of start.asm.
  lemma LowRoute(mem: Memory, a: Word, d: nat)
    requires BootMemory(mem) && a < WINDOW && d < 4
    ensures RouteTable(Booted(mem, 0x4000_0000).mem, a, d) == Some(0x1000 * (d + 1))
  {
    hide Node, Index, Tree, TableAt, PhysMap, NumGigs;
    OneGigabyte();
    BootTree(mem);
    WindowEntries(Machine(mem, FIRST_NEW_TABLE), 0x4000_0000);
    LowIndices(a);
    FirstNode(a);
    UnderRoute(a, 1, WINDOW_SLOT, d);
    BootTableAt(mem, d, Node(a, d));
  }

  lemma P1Unread(mem: Memory)
    requires BootMemory(mem)
    ensures var m := Booted(mem, 0x4000_0000).mem;
            StoreReturns(m, 0x4000, 5) && !Reads(m, WINDOW_BASE + 0x5000, 0x4000, 5)
  {
    hide Node, Index, Tree, TableAt, Booted, Frame4K, GigFrame, HugeOn, IdentityWindow, LowerHalfFree;
    var m := Booted(mem, 0x4000_0000).mem;
    var va := WINDOW_BASE + 0x5000;
    forall d: nat | d < 4
      ensures !ReadsAt(m, 0x4028, d, 0x4000, 5)
    {
      LowRoute(mem, 0x4028, d);
      LowIndices(0x4028);
    }
    OneGigabyte();
    FirstPagesOfWindow(5);
    WindowIsGigPages(mem, 0x4000_0000, va);
    PageReads(Booted(mem, 0x4000_0000), va, va, 0x4000, 5);
    WindowRoute(mem, va);
  }

  lemma WindowRoute(mem: Memory, va: Word)
    requires BootMemory(mem) && Node(va, 1) == WINDOW_SLOT && Index(va, 1) == 0
    ensures var m := Booted(mem, 0x4000_0000).mem; !ReadsAt(m, va, 0, 0x4000, 5) && !ReadsAt(m, va, 1, 0x4000, 5)
  {
    hide Node, Index, Tree, TableAt, PhysMap, NumGigs;
    OneGigabyte();
    BootTree(mem);
    WindowEntries(Machine(mem, FIRST_NEW_TABLE), 0x4000_0000);
    StartOfRoute(Booted(mem, 0x4000_0000).mem, va);
    FirstNode(va);
  }

  lemma P1Moves(mem: Memory)
    requires BootMemory(mem)
    ensures var m := Booted(mem, 0x4000_0000).mem;
            Walk(Poke(m, 0x4000, 5, LeafEntry(0x9000)), 0x5000) == Mapped(0x9000, true)
  {
    hide Node, Index, Tree, TableAt, Booted, NumGigs, Walk, LeafEntry, Poke, Frame4K;
    OneGigabyte();
    BootWithWindow(mem, 0x4000_0000);
    var m := Booted(mem, 0x4000_0000);
    LowRoute(mem, 0x5000, 3);
    LowIndices(0x5000);
    LeafEntryOk(0x9000);
    PokeLeaf(m, 3, 0, 5, LeafEntry(0x9000));
    LeafWalk(m, Poke(m.mem, 0x4000, 5, LeafEntry(0x9000)), 0x5000, 3, LeafEntry(0x9000), 0x5000);
  }
}
