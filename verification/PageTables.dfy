/** Physical memory below 2 MB as an array of 64-bit words, the processor's walk through the page
    tables in it, and what one call of each mapping routine of paging.c does to it. */
module PageTables {
  import opened Bits
  import opened PageEntries

  // The loader runs on the identity mapping of the first 2 MB; its tables must lie there.
  const WINDOW: nat := 0x20_0000
  const WORDS: nat := 0x4_0000
  const P4_TABLE: nat := 0x1000
  const FIRST_NEW_TABLE: nat := 0x2_0000

  type Memory = seq<Word>

  /** The words of memory and the allocation watermark (the static `it` of new_page_table). */
  datatype Machine = Machine(mem: Memory, it: nat)

  // Entry i of the table at a byte address; memory outside the window reads as zero here.
  function Peek(mem: Memory, table: nat, i: nat): Word {
    if table / 8 + i < |mem| then mem[table / 8 + i] else 0
  }

  function Poke(mem: Memory, table: nat, i: nat, e: Word): (r: Memory)
    ensures |r| == |mem|
  {
    if table / 8 + i < |mem| then mem[table / 8 + i := e] else mem
  }

  // ---- The processor's walk (Intel SDM volume 3A, section 4.5) ----

  datatype Translation = Fault | Mapped(physical: nat, writable: bool)

  function Walk(mem: Memory, va: Word): Translation {
    if Canonical(va) then WalkFrom(mem, P4_TABLE, 0, va, true) else Fault
  }

  function WalkFrom(mem: Memory, table: nat, depth: nat, va: Word, writable: bool): Translation
    requires depth < 4
    decreases 4 - depth
  {
    var e := Peek(mem, table, Index(va, depth));
    var w := writable && Writable(e);
    if !Present(e) then Fault
    else if depth == 3 then Mapped(Frame4K(e) + va % PAGE, w)
    else if !Huge(e) then WalkFrom(mem, Frame4K(e), depth + 1, va, w)
    else if depth == 2 && !Reserved2M(e) then Mapped(Frame2M(e) + va % LARGE_PAGE, w)
    else if depth == 1 && !Reserved1G(e) then Mapped(Frame1G(e) + va % GIGABYTE, w)
    else Fault
  }

  // ---- The loader ----

  // new_page_table: clear the 512 words at the watermark and move it past them.
  function NewTable(m: Machine): (r: Machine)
    ensures |r.mem| == |m.mem| && r.it == m.it + PAGE
  {
    Machine(seq(|m.mem|, j requires 0 <= j < |m.mem| =>
                if m.it / 8 <= j < m.it / 8 + ENTRIES then 0 else m.mem[j]), m.it + PAGE)
  }

  // One "table not present / table present" step: the table below entry i, allocated if needed.
  function Descend(m: Machine, table: nat, i: nat): (r: (Machine, nat)) {
    if Present(Peek(m.mem, table, i)) then (m, GetAddress(Peek(m.mem, table, i)))
    else
      var n := NewTable(m);
      (n.(mem := Poke(n.mem, table, i, LinkEntry(Peek(n.mem, table, i), m.it % TWO_64))), m.it)
  }

  function Map4K(m: Machine, va: Word, physical: Word): Machine {
    var (m3, p3) := Descend(m, P4_TABLE, Index(va, 0));
    var (m2, p2) := Descend(m3, p3, Index(va, 1));
    var (m1, p1) := Descend(m2, p2, Index(va, 2));
    m1.(mem := Poke(m1.mem, p1, Index(va, 3), LeafEntry(physical)))
  }

  function Map2M(m: Machine, va: Word, physical: Word): Machine {
    var (m3, p3) := Descend(m, P4_TABLE, Index(va, 0));
    var (m2, p2) := Descend(m3, p3, Index(va, 1));
    m2.(mem := Poke(m2.mem, p2, Index(va, 2), HugeLeafEntry(physical)))
  }
}
