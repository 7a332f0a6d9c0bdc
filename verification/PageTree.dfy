/** The tree of tables that the walk can reach, the invariant that no table is reached twice, and
    what a single word written into the tree changes. */
module PageTree {
  import opened PageEntries
  import opened PageTables
  import opened Wrappers

  /** The table that translates region `node` of the tree's level `depth` (0 for the P4 table). */
  function TableAt(mem: Memory, depth: nat, node: nat): Option<nat> {
    if depth == 0 then (if node == 0 then Some(P4_TABLE) else None)
    else
      match TableAt(mem, depth - 1, node / ENTRIES)
      case None => None
      case Some(t) => Child(depth - 1, Peek(mem, t, node % ENTRIES))
  }

  // The table that an entry of a table at `depth` points to.
  function Child(depth: nat, e: Word): Option<nat> {
    if depth < 3 && Present(e) && !Huge(e) then Some(Frame4K(e)) else None
  }

  predicate EntryOk(depth: nat, e: Word) {
    e == 0 ||
    (Present(e) && Writable(e) && GetAddress(e) == Frame4K(e) &&
     (Huge(e) ==> (depth == 1 && !Reserved1G(e) && Frame1G(e) == Frame4K(e)) ||
                  (depth == 2 && !Reserved2M(e) && Frame2M(e) == Frame4K(e)) || depth == 3))
  }

  // The tables start.asm builds, or tables taken from the watermark.
  predicate TablePlace(it: nat, t: nat) {
    t % PAGE == 0 && (P4_TABLE <= t < 0x5000 || FIRST_NEW_TABLE <= t < it)
  }

  ghost predicate Tree(m: Machine) {
    && |m.mem| == WORDS && m.it % PAGE == 0 && FIRST_NEW_TABLE <= m.it <= WINDOW
    && (forall d, n {:trigger TableAt(m.mem, d, n)} :: TableAt(m.mem, d, n).Some? ==>
          TablePlace(m.it, TableAt(m.mem, d, n).value))
    && (forall d, n, d', n' {:trigger TableAt(m.mem, d, n), TableAt(m.mem, d', n')} ::
          TableAt(m.mem, d, n).Some? && TableAt(m.mem, d, n) == TableAt(m.mem, d', n') ==>
          d == d' && n == n')
    && (forall d, n, i: nat {:trigger Peek(m.mem, TableAt(m.mem, d, n).value, i)} ::
          TableAt(m.mem, d, n).Some? && i < ENTRIES ==>
          EntryOk(d, Peek(m.mem, TableAt(m.mem, d, n).value, i)))
  }

  // Is the table at (d', n') below entry `n % 512` of the parent of (d, n), or that very place?
  predicate Under(d: nat, n: nat, d': nat, n': nat) {
    if d' <= d then d' == d && n' == n else Under(d, n, d' - 1, n' / ENTRIES)
  }

  // Different entries of reachable tables are different words of memory.
  lemma EntriesApart(m: Machine, d: nat, n: nat, i: nat, d': nat, n': nat, i': nat, e: Word)
    requires Tree(m) && i < ENTRIES && i' < ENTRIES
    requires TableAt(m.mem, d, n).Some? && TableAt(m.mem, d', n').Some?
    ensures Peek(Poke(m.mem, TableAt(m.mem, d, n).value, i, e), TableAt(m.mem, d', n').value, i')
         == if d == d' && n == n' && i == i' then e else Peek(m.mem, TableAt(m.mem, d', n').value, i')
  {
    hide Frame4K, Frame2M, Frame1G, Reserved2M, Reserved1G, GetAddress;
    var t, t' := TableAt(m.mem, d, n).value, TableAt(m.mem, d', n').value;
    assert TablePlace(m.it, t) && TablePlace(m.it, t');
    WordsApart(t, i, t', i');
  }

  lemma WordsApart(t: nat, i: nat, t': nat, i': nat)
    requires t % PAGE == 0 && t' % PAGE == 0 && i < ENTRIES && i' < ENTRIES
    ensures t / 8 + i == t' / 8 + i' <==> t == t' && i == i'
    ensures t < WINDOW ==> t / 8 + i < WORDS
  {
    var k, k' := t / PAGE, t' / PAGE;
    assert t / 8 == k * ENTRIES && t' / 8 == k' * ENTRIES;
  }

  lemma TableInMemory(m: Machine, d: nat, n: nat, i: nat)
    requires Tree(m) && TableAt(m.mem, d, n).Some? && i < ENTRIES
    ensures var t := TableAt(m.mem, d, n).value; t / 8 + i < WORDS == |m.mem| && t + 8 * i < WINDOW && t % 8 == 0
  {
    hide Frame4K, Frame2M, Frame1G, Reserved2M, Reserved1G, GetAddress;
    var k := TableAt(m.mem, d, n).value / PAGE;
    assert TableAt(m.mem, d, n).value == k * PAGE && k * PAGE / 8 == k * ENTRIES;
  }

  /** Writing one entry leaves every table in place that is not below that entry. */
  lemma {:induction false} PokeKeepsTables(m: Machine, d: nat, n: nat, i: nat, e: Word, d': nat, n': nat)
    requires Tree(m) && i < ENTRIES && TableAt(m.mem, d, n).Some?
    requires !Under(d + 1, n * ENTRIES + i, d', n')
    ensures var mem' := Poke(m.mem, TableAt(m.mem, d, n).value, i, e);
            TableAt(mem', d', n') == TableAt(m.mem, d', n')
  {
    hide Frame4K, Frame2M, Frame1G, Reserved2M, Reserved1G, GetAddress;
    if d' > 0 {
      var p := n' / ENTRIES;
      PokeKeepsTables(m, d, n, i, e, d' - 1, p);
      if TableAt(m.mem, d' - 1, p).Some? {
        EntriesApart(m, d, n, i, d' - 1, p, n' % ENTRIES, e);
      }
    }
  }

  /** Below an entry without a table there are no tables. */
  lemma {:induction false} NoTablesUnder(mem: Memory, d: nat, n: nat, d': nat, n': nat)
    requires TableAt(mem, d, n).None? && Under(d, n, d', n')
    ensures TableAt(mem, d', n').None?
  {
    hide Frame4K, Frame2M, Frame1G, Reserved2M, Reserved1G, GetAddress;
    if d' > d {
      NoTablesUnder(mem, d, n, d' - 1, n' / ENTRIES);
    }
  }

  /** The entry that the walk uses at level `depth` in region `node`; absent tables count as empty. */
  function EntryAt(mem: Memory, depth: nat, node: nat, i: nat): Word {
    match TableAt(mem, depth, node)
    case None => 0
    case Some(t) => Peek(mem, t, i)
  }

  ghost predicate EmptyTable(mem: Memory, depth: nat, node: nat) {
    forall i: nat | i < ENTRIES :: EntryAt(mem, depth, node, i) == 0
  }

  lemma WatermarkPlace(m: Machine)
    requires Tree(m)
    ensures |m.mem| == WORDS && m.it % PAGE == 0 && FIRST_NEW_TABLE <= m.it <= WINDOW
  {
  }

  lemma EntryFits(m: Machine, d: nat, n: nat, i: nat)
    requires Tree(m) && i < ENTRIES
    ensures EntryOk(d, EntryAt(m.mem, d, n, i))
    ensures !Present(EntryAt(m.mem, d, n, i)) ==> EntryAt(m.mem, d, n, i) == 0
  {
  }

  ghost predicate Unreached(mem: Memory, t: nat) {
    forall d, n :: TableAt(mem, d, n) != Some(t)
  }

  // What a write of e into entry i of table (d, n) makes of the tree when e is no table pointer.
  ghost predicate Cut(mem: Memory, mem': Memory, d: nat, n: nat, i: nat, e: Word) {
    && (forall d', n' :: TableAt(mem', d', n') ==
         if Under(d + 1, n * ENTRIES + i, d', n') then None else TableAt(mem, d', n'))
    && (forall d', n', i': nat | i' < ENTRIES :: EntryAt(mem', d', n', i') ==
         if d' == d && n' == n && i' == i then e
         else if Under(d + 1, n * ENTRIES + i, d', n') then 0
         else EntryAt(mem, d', n', i'))
  }

  lemma NotUnderItself(d: nat, n: nat, d': nat, n': nat)
    requires d' <= d
    ensures !Under(d + 1, n, d', n')
  {
  }

  lemma PokeLeafTables(m: Machine, d: nat, n: nat, i: nat, e: Word, d': nat, n': nat)
    requires Tree(m) && i < ENTRIES && TableAt(m.mem, d, n).Some? && Child(d, e).None?
    ensures TableAt(Poke(m.mem, TableAt(m.mem, d, n).value, i, e), d', n') ==
            if Under(d + 1, n * ENTRIES + i, d', n') then None else TableAt(m.mem, d', n')
  {
    hide Frame4K, Frame2M, Frame1G, Reserved2M, Reserved1G, GetAddress;
    var mem' := Poke(m.mem, TableAt(m.mem, d, n).value, i, e);
    var c := n * ENTRIES + i;
    if Under(d + 1, c, d', n') {
      PokeKeepsTables(m, d, n, i, e, d, n);
      EntriesApart(m, d, n, i, d, n, i, e);
      NoTablesUnder(mem', d + 1, c, d', n');
    } else {
      PokeKeepsTables(m, d, n, i, e, d', n');
    }
  }

  lemma PokeLeafEntries(m: Machine, d: nat, n: nat, i: nat, e: Word, d': nat, n': nat, i': nat)
    requires Tree(m) && i < ENTRIES && i' < ENTRIES && TableAt(m.mem, d, n).Some? && Child(d, e).None?
    ensures EntryAt(Poke(m.mem, TableAt(m.mem, d, n).value, i, e), d', n', i') ==
            if d' == d && n' == n && i' == i then e
            else if Under(d + 1, n * ENTRIES + i, d', n') then 0
            else EntryAt(m.mem, d', n', i')
  {
    hide Frame4K, Frame2M, Frame1G, Reserved2M, Reserved1G, GetAddress;
    PokeLeafTables(m, d, n, i, e, d', n');
    if TableAt(m.mem, d', n').Some? {
      EntriesApart(m, d, n, i, d', n', i', e);
    }
    if d' == d && n' == n {
      NotUnderItself(d, n * ENTRIES + i, d', n');
    }
  }

  lemma PokeLeaf(m: Machine, d: nat, n: nat, i: nat, e: Word)
    requires Tree(m) && i < ENTRIES && TableAt(m.mem, d, n).Some?
    requires EntryOk(d, e) && Child(d, e).None?
    ensures var mem' := Poke(m.mem, TableAt(m.mem, d, n).value, i, e);
            Tree(m.(mem := mem')) && Cut(m.mem, mem', d, n, i, e)
  {
    hide Frame4K, Frame2M, Frame1G, Reserved2M, Reserved1G, GetAddress;
    forall d', n' {
      PokeLeafTables(m, d, n, i, e, d', n');
    }
    forall d', n', i': nat | i' < ENTRIES {
      PokeLeafEntries(m, d, n, i, e, d', n', i');
    }
    TreeFromEntries(m.(mem := Poke(m.mem, TableAt(m.mem, d, n).value, i, e)));
  }

  // What a write of a pointer to table t into entry i of table (d, n) makes of the tree, when t was
  // not part of it and holds no table pointers.
  ghost predicate Linked(mem: Memory, mem': Memory, d: nat, n: nat, i: nat, e: Word, t: nat) {
    var c := n * ENTRIES + i;
    && (forall d', n' :: TableAt(mem', d', n') ==
         if d' == d + 1 && n' == c then Some(t)
         else if Under(d + 1, c, d', n') then None
         else TableAt(mem, d', n'))
    && (forall d', n', i': nat | i' < ENTRIES :: EntryAt(mem', d', n', i') ==
         if d' == d && n' == n && i' == i then e
         else if d' == d + 1 && n' == c then Peek(mem, t, i')
         else if Under(d + 1, c, d', n') then 0
         else EntryAt(mem, d', n', i'))
  }

  // A table that can be linked in: off the tree, with well-formed entries and no pointers.
  ghost predicate Linkable(m: Machine, d: nat, t: nat) {
    && TablePlace(m.it, t) && Unreached(m.mem, t)
    && forall j: nat | j < ENTRIES :: EntryOk(d, Peek(m.mem, t, j)) && Child(d, Peek(m.mem, t, j)).None?
  }

  lemma PokeOtherTable(m: Machine, d: nat, n: nat, i: nat, e: Word, t: nat, j: nat)
    requires Tree(m) && i < ENTRIES && j < ENTRIES && TableAt(m.mem, d, n).Some?
    requires Unreached(m.mem, t) && t % PAGE == 0
    ensures Peek(Poke(m.mem, TableAt(m.mem, d, n).value, i, e), t, j) == Peek(m.mem, t, j)
  {
    hide Frame4K, Frame2M, Frame1G, Reserved2M, Reserved1G, GetAddress;
    WordsApart(TableAt(m.mem, d, n).value, i, t, j);
  }

  lemma PokeLinkTables(m: Machine, d: nat, n: nat, i: nat, e: Word, t: nat, d': nat, n': nat)
    requires Tree(m) && i < ENTRIES && TableAt(m.mem, d, n).Some?
    requires Child(d, e) == Some(t) && Linkable(m, d + 1, t)
    ensures TableAt(Poke(m.mem, TableAt(m.mem, d, n).value, i, e), d', n') ==
            if d' == d + 1 && n' == n * ENTRIES + i then Some(t)
            else if Under(d + 1, n * ENTRIES + i, d', n') then None
            else TableAt(m.mem, d', n')
  {
    hide Frame4K, Frame2M, Frame1G, Reserved2M, Reserved1G, GetAddress;
    var mem' := Poke(m.mem, TableAt(m.mem, d, n).value, i, e);
    var c := n * ENTRIES + i;
    if Under(d + 1, c, d', n') {
      PokeKeepsTables(m, d, n, i, e, d, n);
      EntriesApart(m, d, n, i, d, n, i, e);
      assert TableAt(mem', d + 1, c) == Some(t);
      forall j: nat | j < ENTRIES
        ensures Peek(mem', t, j) == Peek(m.mem, t, j)
      {
        PokeOtherTable(m, d, n, i, e, t, j);
      }
      LinkedBelow(mem', d + 1, c, t, d', n');
    } else {
      PokeKeepsTables(m, d, n, i, e, d', n');
    }
  }

  lemma PokeLinkEntries(m: Machine, d: nat, n: nat, i: nat, e: Word, t: nat, d': nat, n': nat, i': nat)
    requires Tree(m) && i < ENTRIES && i' < ENTRIES && TableAt(m.mem, d, n).Some?
    requires Child(d, e) == Some(t) && Linkable(m, d + 1, t)
    ensures EntryAt(Poke(m.mem, TableAt(m.mem, d, n).value, i, e), d', n', i') ==
            if d' == d && n' == n && i' == i then e
            else if d' == d + 1 && n' == n * ENTRIES + i then Peek(m.mem, t, i')
            else if Under(d + 1, n * ENTRIES + i, d', n') then 0
            else EntryAt(m.mem, d', n', i')
  {
    hide Frame4K, Frame2M, Frame1G, Reserved2M, Reserved1G, GetAddress;
    PokeLinkTables(m, d, n, i, e, t, d', n');
    PokeOtherTable(m, d, n, i, e, t, i');
    if TableAt(m.mem, d', n').Some? {
      EntriesApart(m, d, n, i, d', n', i', e);
    }
    if d' == d && n' == n {
      NotUnderItself(d, n * ENTRIES + i, d', n');
    }
  }

  lemma PokeLink(m: Machine, d: nat, n: nat, i: nat, e: Word, t: nat)
    requires Tree(m) && i < ENTRIES && TableAt(m.mem, d, n).Some?
    requires EntryOk(d, e) && Child(d, e) == Some(t) && Linkable(m, d + 1, t)
    ensures var mem' := Poke(m.mem, TableAt(m.mem, d, n).value, i, e);
            Tree(m.(mem := mem')) && Linked(m.mem, mem', d, n, i, e, t)
  {
    hide Frame4K, Frame2M, Frame1G, Reserved2M, Reserved1G, GetAddress;
    var mem' := Poke(m.mem, TableAt(m.mem, d, n).value, i, e);
    forall d', n' {
      PokeLinkTables(m, d, n, i, e, t, d', n');
    }
    forall d', n', i': nat | i' < ENTRIES
    {
      PokeLinkEntries(m, d, n, i, e, t, d', n', i');
    }
    TreeFromEntries(m.(mem := mem'));
  }

  // The clause on entries may be read off EntryAt.
  lemma TreeFromEntries(m: Machine)
    requires |m.mem| == WORDS && m.it % PAGE == 0 && FIRST_NEW_TABLE <= m.it <= WINDOW
    requires forall d, n {:trigger TableAt(m.mem, d, n)} :: TableAt(m.mem, d, n).Some? ==>
               TablePlace(m.it, TableAt(m.mem, d, n).value)
    requires forall d, n, d', n' {:trigger TableAt(m.mem, d, n), TableAt(m.mem, d', n')} ::
               TableAt(m.mem, d, n).Some? && TableAt(m.mem, d, n) == TableAt(m.mem, d', n') ==>
                 d == d' && n == n'
    requires forall d, n, i: nat :: i < ENTRIES ==> EntryOk(d, EntryAt(m.mem, d, n, i))
    ensures Tree(m)
  {
    hide Frame4K, Frame2M, Frame1G, Reserved2M, Reserved1G, GetAddress;
    forall d, n, i: nat {:trigger Peek(m.mem, TableAt(m.mem, d, n).value, i)}
      | TableAt(m.mem, d, n).Some? && i < ENTRIES
      ensures EntryOk(d, Peek(m.mem, TableAt(m.mem, d, n).value, i))
    {
      assert EntryOk(d, EntryAt(m.mem, d, n, i));
    }
  }

  lemma {:induction false} LinkedBelow(mem: Memory, d: nat, n: nat, t: nat, d': nat, n': nat)
    requires TableAt(mem, d, n) == Some(t) && Under(d, n, d', n')
    requires forall j: nat | j < ENTRIES :: Child(d, Peek(mem, t, j)).None?
    ensures TableAt(mem, d', n') == if d' == d then Some(t) else None
  {
    hide Frame4K, Frame2M, Frame1G, Reserved2M, Reserved1G, GetAddress;
    if d' > d + 1 {
      LinkedBelow(mem, d, n, t, d' - 1, n' / ENTRIES);
    }
  }

  /** Clearing the table at the watermark touches nothing that the walk can reach. */
  lemma NewTableKeepsTree(m: Machine, level: nat)
    requires Tree(m) && m.it + PAGE <= WINDOW
    ensures Tree(NewTable(m)) && Linkable(NewTable(m), level, m.it)
    ensures forall j: nat | j < ENTRIES :: Peek(NewTable(m).mem, m.it, j) == 0
    ensures forall d, n :: TableAt(NewTable(m).mem, d, n) == TableAt(m.mem, d, n)
    ensures forall d, n, i: nat | i < ENTRIES :: EntryAt(NewTable(m).mem, d, n, i) == EntryAt(m.mem, d, n, i)
  {
    hide Frame4K, Frame2M, Frame1G, Reserved2M, Reserved1G, GetAddress;
    var r := NewTable(m);
    forall t: nat, i: nat | TablePlace(m.it, t) && i < ENTRIES
      ensures Peek(r.mem, t, i) == Peek(m.mem, t, i)
    {
      BelowWatermark(m.it, t, i);
    }
    forall j: nat | j < ENTRIES
      ensures Peek(r.mem, m.it, j) == 0
    {
      WordsApart(m.it, j, m.it, j);
    }
    forall d, n
      ensures TableAt(r.mem, d, n) == TableAt(m.mem, d, n)
    {
      SameTables(m, r.mem, d, n);
    }
  }

  lemma BelowWatermark(it: nat, t: nat, i: nat)
    requires it % PAGE == 0 && FIRST_NEW_TABLE <= it && TablePlace(it, t) && i < ENTRIES
    ensures t / 8 + i < it / 8
  {
    var k, k' := t / PAGE, it / PAGE;
    assert t / 8 == k * ENTRIES && it / 8 == k' * ENTRIES && k < k';
  }

  lemma {:induction false} SameTables(m: Machine, mem': Memory, d: nat, n: nat)
    requires Tree(m)
    requires forall t: nat, i: nat | TablePlace(m.it, t) && i < ENTRIES :: Peek(mem', t, i) == Peek(m.mem, t, i)
    ensures TableAt(mem', d, n) == TableAt(m.mem, d, n)
  {
    hide Frame4K, Frame2M, Frame1G, Reserved2M, Reserved1G, GetAddress;
    if d > 0 {
      SameTables(m, mem', d - 1, n / ENTRIES);
    }
  }

  lemma {:induction false} SameReached(m: Machine, mem': Memory, d: nat, n: nat)
    requires Tree(m)
    requires forall d, n, i: nat | TableAt(m.mem, d, n).Some? && i < ENTRIES ::
               Peek(mem', TableAt(m.mem, d, n).value, i) == Peek(m.mem, TableAt(m.mem, d, n).value, i)
    ensures TableAt(mem', d, n) == TableAt(m.mem, d, n)
  {
    hide Frame4K, Frame2M, Frame1G, Reserved2M, Reserved1G, GetAddress;
    if d > 0 {
      SameReached(m, mem', d - 1, n / ENTRIES);
    }
  }

  /** Writing to a table that is not linked in changes nothing that the walk can reach. */
  lemma PokeUnreached(m: Machine, t: nat, i: nat, e: Word)
    requires Tree(m) && Unreached(m.mem, t) && t % PAGE == 0 && i < ENTRIES
    ensures var mem' := Poke(m.mem, t, i, e);
            && Tree(m.(mem := mem')) && Unreached(mem', t)
            && (forall d, n :: TableAt(mem', d, n) == TableAt(m.mem, d, n))
            && (forall d, n, j: nat | j < ENTRIES :: EntryAt(mem', d, n, j) == EntryAt(m.mem, d, n, j))
            && (t < WINDOW ==> forall j: nat | j < ENTRIES ::
                 Peek(mem', t, j) == if j == i then e else Peek(m.mem, t, j))
  {
    hide Frame4K, Frame2M, Frame1G, Reserved2M, Reserved1G, GetAddress;
    var mem' := Poke(m.mem, t, i, e);
    forall d, n, j: nat | TableAt(m.mem, d, n).Some? && j < ENTRIES
      ensures Peek(mem', TableAt(m.mem, d, n).value, j) == Peek(m.mem, TableAt(m.mem, d, n).value, j)
    {
      WordsApart(t, i, TableAt(m.mem, d, n).value, j);
    }
    forall d, n {
      SameReached(m, mem', d, n);
    }
    forall j: nat | j < ENTRIES && t < WINDOW
      ensures Peek(mem', t, j) == if j == i then e else Peek(m.mem, t, j)
    {
      WordsApart(t, i, t, j);
    }
    TreeFromEntries(m.(mem := mem'));
  }
}
