/** paging.c as it runs: tables are cleared, linked and filled in place. */
module PageMapper {
  import opened Bits
  import opened PageEntries
  import opened PageTables
  import opened PageTree
  import opened PageMapping
  import opened PhysicalMap

  class Mapper {
    const words: array<Word>
    var it: nat

    ghost function State(): Machine
      reads this, words
    {
      Machine(words[..], it)
    }

    // new_page_table
    method NewPageTable() returns (val: nat)
      requires words.Length == WORDS && it % PAGE == 0 && it + PAGE <= WINDOW
      modifies this`it, words
      ensures val == old(it) && it == val + 4096 && State() == NewTable(old(State()))
      ensures forall j | 0 <= j < WORDS :: words[j] == if val / 8 <= j < val / 8 + 512 then 0 else old(words[j])
    {
      val := it;
      ghost var m := State();
      for i := 0 to ENTRIES
        invariant it == val
        invariant forall j | 0 <= j < WORDS ::
                    words[j] == if val / 8 <= j < val / 8 + i then 0 else m.mem[j]
      {
        words[val / 8 + i] := 0;
      }
      it := it + PAGE;
      assert words[..] == NewTable(m).mem;
    }

    // The "table not present, allocate a new page table" block, which the source writes out at each
    // level of both routines.
    method TableBelow(table: nat, index: nat) returns (child: nat)
      requires words.Length == WORDS && table / 8 + index < WORDS
      requires !Present(words[table / 8 + index]) ==> it % PAGE == 0 && it + PAGE <= WINDOW
      modifies this`it, words
      ensures (State(), child) == Descend(old(State()), table, index)
    {
      hide GetAddress, SetAddress, SetPresent, SetWritable;
      ghost var m := State();
      var i := table / 8 + index;
      if !Present(words[i]) {
        child := NewPageTable();
        words[i] := SetAddress(words[i], child);
        words[i] := SetPresent(words[i]);
        words[i] := SetWritable(words[i]);
        assert words[..] == NewTable(m).mem[i := LinkEntry(NewTable(m).mem[i], child)];
      } else {
        child := GetAddress(words[i]);
      }
    }

    method Map4kbPage(addr: Word, physical: Word)
      requires Tree(State()) && Mappable(State(), addr, 3)
      modifies this`it, words
      ensures State() == Map4K(old(State()), addr, physical)
    {
      hide Node, Index, Tree, Mappable, Descend, Map4K, Map2M;
      hide SetAddress, SetPresent, SetWritable, Present;
      ghost var m0 := State();
      ReadyToDescend(m0, addr, 0, 3);
      var p3table := TableBelow(P4_TABLE, Index(addr, 0));
      assert (State(), p3table) == BuildRoute(m0, addr, 1);
      ReadyToDescend(m0, addr, 1, 3);
      var p2table := TableBelow(p3table, Index(addr, 1));
      assert (State(), p2table) == BuildRoute(m0, addr, 2);
      ReadyToDescend(m0, addr, 2, 3);
      var p1table := TableBelow(p2table, Index(addr, 2));
      assert (State(), p1table) == BuildRoute(m0, addr, 3);
      ReadyForLeaf(m0, addr, 3);
      ghost var m := State();
      var i := p1table / 8 + Index(addr, 3);
      words[i] := 0;
      words[i] := SetAddress(words[i], physical);
      words[i] := SetPresent(words[i]);
      words[i] := SetWritable(words[i]);
      assert words[..] == m.mem[i := LeafEntry(physical)];
      MappersBuildRoutes(m0, addr, physical);
    }

    method Map2mbPage(addr: Word, physical: Word)
      requires Tree(State()) && Mappable(State(), addr, 2)
      modifies this`it, words
      ensures State() == Map2M(old(State()), addr, physical)
    {
      hide Node, Index, Tree, Mappable, Descend, Map4K, Map2M;
      hide SetAddress, SetPresent, SetWritable, SetHuge, Present;
      ghost var m0 := State();
      ReadyToDescend(m0, addr, 0, 2);
      var p3table := TableBelow(P4_TABLE, Index(addr, 0));
      assert (State(), p3table) == BuildRoute(m0, addr, 1);
      ReadyToDescend(m0, addr, 1, 2);
      var p2table := TableBelow(p3table, Index(addr, 1));
      assert (State(), p2table) == BuildRoute(m0, addr, 2);
      ReadyForLeaf(m0, addr, 2);
      ghost var m := State();
      var i := p2table / 8 + Index(addr, 2);
      words[i] := 0;
      words[i] := SetAddress(words[i], physical);
      words[i] := SetPresent(words[i]);
      words[i] := SetWritable(words[i]);
      words[i] := SetHuge(words[i]);
      assert words[..] == m.mem[i := HugeLeafEntry(physical)];
      MappersBuildRoutes(m0, addr, physical);
    }

    // setup_physical_map, up to the point where the new tables are in force
    method SetupPhysicalMap(total: Word)
      requires Tree(State()) && it + PAGE <= WINDOW
      modifies this`it, words
      ensures State() == PhysMap(old(State()), total)
    {
      hide Tree, Index, GigEntry, SetAddress, SetPresent, SetWritable;
      ghost var m := State();
      WatermarkPlace(m);
      var p3table := NewPageTable();
      for j := 0 to ENTRIES
        invariant it == p3table + PAGE && words.Length == WORDS && words[..] == NewTable(m).mem
      {
        words[p3table / 8 + j] := 0;
        assert words[..] == NewTable(m).mem;
      }
      var numGigs := (total + 0x3fff_ffff) % TWO_64 / GIGABYTE;
      var virtAddr: Word := WINDOW_BASE;
      var i := 0;
      while i < numGigs
        invariant i <= numGigs && virtAddr == GigAddress(i) && it == p3table + PAGE && words.Length == WORDS
        invariant words[..] == FillGigs(NewTable(m).mem, p3table, i)
      {
        var entry: Word := 0;
        entry := SetAddress(entry, i * GIGABYTE % TWO_64);
        entry := SetWritable(entry);
        entry := SetPresent(entry);
        entry := SetHuge(entry);
        assert entry == GigEntry(i) by { GigEntrySteps(i); }
        NextGigAddress(i);
        var k := p3table / 8 + Index(virtAddr, 1);
        words[k] := entry;
        assert words[..] == FillGigs(NewTable(m).mem, p3table, i)[k := entry];
        virtAddr := (virtAddr + GIGABYTE) % TWO_64;
        i := i + 1;
      }
      var p3entry: Word := 0;
      p3entry := SetAddress(p3entry, p3table);
      p3entry := SetPresent(p3entry);
      p3entry := SetWritable(p3entry);
      ghost var filled := words[..];
      words[P4_TABLE / 8 + Index(virtAddr, 0)] := p3entry;
      assert words[..] == Poke(filled, P4_TABLE, Index(virtAddr, 0), p3entry);
    }
  }

  lemma GigEntrySteps(i: nat)
    ensures GigEntry(i) == SetHuge(SetPresent(SetWritable(SetAddress(0, i * GIGABYTE % TWO_64))))
  {
  }

  lemma NextGigAddress(i: nat)
    ensures (GigAddress(i) + GIGABYTE) % TWO_64 == GigAddress(i + 1)
  {
  }

  /** At each step the entry is inside the table memory, and a missing table fits. */
  lemma ReadyToDescend(m0: Machine, va: Word, d: nat, depth: nat)
    requires Tree(m0) && d < depth < 4 && Mappable(m0, va, depth)
    ensures var (m, t) := BuildRoute(m0, va, d);
            var i := t / 8 + Index(va, d);
            && i < WORDS == |m.mem|
            && (!Present(m.mem[i]) ==> m.it % PAGE == 0 && m.it + PAGE <= WINDOW)
  {
    hide Node, Index, Tree, Descend, TableAt, Present, BuildRoute;
    MappableLess(m0, va, d, depth);
    MappableLess(m0, va, d + 1, depth);
    RouteIsBuilt(m0, va, d);
    var (m, t) := BuildRoute(m0, va, d);
    WatermarkPlace(m);
    TableInMemory(m, d, Node(va, d), Index(va, d));
    if !Present(m.mem[t / 8 + Index(va, d)]) {
      assert Used(m.mem, va, d) == m.mem[t / 8 + Index(va, d)];
      RouteStep(m.mem, va, d);
      assert Missing(m.mem, va, d + 1) == 1;
    }
  }

  lemma ReadyForLeaf(m0: Machine, va: Word, depth: nat)
    requires Tree(m0) && depth < 4 && Mappable(m0, va, depth)
    ensures var (m, t) := BuildRoute(m0, va, depth); t / 8 + Index(va, depth) < WORDS == |m.mem|
  {
    hide Node, Index, Tree, Descend, TableAt, BuildRoute;
    RouteIsBuilt(m0, va, depth);
    TableInMemory(BuildRoute(m0, va, depth).0, depth, Node(va, depth), Index(va, depth));
  }
}
