/** How many tables a contiguous mapping takes. */
module PageCounts {
  import opened Bits
  import opened PageEntries
  import opened PageTables
  import opened PageTree
  import opened PageMapping
  import opened PageRuns

  // Pages of 4 KB in the region of a table at `depth`.
  function Span(depth: nat): nat
    requires 1 <= depth <= 3
  {
    if depth == 3 then 512 else if depth == 2 then 0x4_0000 else 0x800_0000
  }

  /** The page loop of map_kernel: consecutive pages from base on, whatever frames they get. */
  predicate Contiguous(calls: seq<Call>, base: Word) {
    && base + |calls| * PAGE <= TWO_64
    && forall i | 0 <= i < |calls| :: calls[i].Page4K? && calls[i].va == base + i * PAGE
  }

  function AtLevel(tables: set<(nat, nat)>, depth: nat): set<nat> {
    set p | p in tables && p.0 == depth :: p.1
  }

  lemma {:induction false} WhichTables(mem: Memory, calls: seq<Call>, d: nat, q: nat)
    requires (d, q) in NewTables(mem, calls)
    ensures 1 <= d <= 3 && exists i | 0 <= i < |calls| :: OnRoute(calls[i].va, d, q)
  {
    hide Node, TableAt, NewOnRoute;
    var k := |calls| - 1;
    var c := calls[k];
    if (d, q) in NewTables(mem, calls[..k]) {
      WhichTables(mem, calls[..k], d, q);
      var i :| 0 <= i < k && OnRoute(calls[..k][i].va, d, q);
      assert OnRoute(calls[i].va, d, q);
    } else {
      InNewOnRoute(mem, c.va, c.Depth(), d, q);
      assert OnRoute(calls[k].va, d, q);
    }
  }

  lemma PageNumber(base: Word, i: nat)
    requires base + i * PAGE < TWO_64 && Node(base, 4) + i < 0x10_0000_0000
    ensures Node(base + i * PAGE, 4) == Node(base, 4) + i
  {
    var v, h := base / PAGE % 0x10_0000_0000, base / PAGE / 0x10_0000_0000;
    assert (base + i * PAGE) / PAGE == h * 0x10_0000_0000 + (v + i);
  }

  lemma NodeOfPage(x: Word, d: nat)
    requires 1 <= d <= 3
    ensures Node(x, d) == Node(x, 4) / Span(d)
  {
    hide Node, Index;
    NodeStep(x, 1);
    NodeStep(x, 2);
    NodeStep(x, 3);
  }

  lemma {:induction false} SmallSet(s: set<nat>, lo: nat, hi: nat)
    requires lo <= hi && forall q | q in s :: lo <= q < hi
    ensures |s| <= hi - lo
  {
    if s != {} {
      if hi - 1 in s {
        SmallSet(s - {hi - 1}, lo, hi - 1);
      } else if lo < hi {
        SmallSet(s, lo, hi - 1);
      }
    }
  }

  lemma Floors(v: nat, n: nat, span: nat)
    requires n > 0 && span in {512, 0x4_0000, 0x800_0000}
    ensures (v + n - 1) / span - v / span <= (n + span - 2) / span
  {
    var a, r := v / span, v % span;
    var b := (v + n - 1) / span;
    assert v == span * a + r;
    assert n + span - 2 >= (b - a) * span;
  }

  /** Mapping n > 0 contiguous pages takes at most (n + 510) / 512 + 1 P1 tables, and likewise for
      P2 and P3 tables with their larger spans. */
  lemma ContiguousTables(mem: Memory, calls: seq<Call>, base: Word, depth: nat)
    requires calls != [] && 1 <= depth <= 3
    requires Contiguous(calls, base) && Node(base, 4) + |calls| <= 0x10_0000_0000
    ensures |AtLevel(NewTables(mem, calls), depth)| <= (|calls| + Span(depth) - 2) / Span(depth) + 1
  {
    hide Node, NewTables;
    var n := |calls|;
    var s := AtLevel(NewTables(mem, calls), depth);
    var v, span := Node(base, 4), Span(depth);
    forall q | q in s
      ensures v / span <= q < (v + n - 1) / span + 1
    {
      WhichTables(mem, calls, depth, q);
      var i :| 0 <= i < n && OnRoute(calls[i].va, depth, q);
      PageNumber(base, i);
      NodeOfPage(base + i * PAGE, depth);
      MonotoneDivision(v, v + i, v + n - 1, depth);
    }
    MonotoneDivision(v, v, v + n - 1, depth);
    SmallSet(s, v / span, (v + n - 1) / span + 1);
    Floors(v, n, span);
  }

  lemma MonotoneDivision(x: nat, y: nat, z: nat, depth: nat)
    requires x <= y <= z && 1 <= depth <= 3
    ensures x / Span(depth) <= y / Span(depth) <= z / Span(depth)
  {
  }

  lemma {:induction false} ByLevel(s: set<(nat, nat)>)
    requires forall p | p in s :: 1 <= p.0 <= 3
    ensures |s| == |AtLevel(s, 1)| + |AtLevel(s, 2)| + |AtLevel(s, 3)|
  {
    if s == {} {
      assert AtLevel(s, 1) == {} && AtLevel(s, 2) == {} && AtLevel(s, 3) == {};
    }
    if s != {} {
      hide AtLevel;
      var p :| p in s;
      ByLevel(s - {p});
      LevelWithout(s, p, 1);
      LevelWithout(s, p, 2);
      LevelWithout(s, p, 3);
    }
  }

  lemma LevelWithout(s: set<(nat, nat)>, p: (nat, nat), d: nat)
    requires p in s
    ensures |AtLevel(s, d)| == |AtLevel(s - {p}, d)| + if p.0 == d then 1 else 0
  {
    var rest := AtLevel(s - {p}, d);
    forall q | q in AtLevel(s, d) && (d, q) != p
      ensures q in rest
    {
      assert (d, q) in s - {p};
    }
    if p.0 == d {
      assert p.1 !in rest && AtLevel(s, d) == rest + {p.1};
    } else {
      assert AtLevel(s, d) == rest;
    }
  }

  /** The three bounds together. */
  function TableBound(n: nat): nat {
    if n == 0 then 0 else ((n + 510) / 512 + 1) + ((n + 0x3_FFFE) / 0x4_0000 + 1) + ((n + 0x7FF_FFFE) / 0x800_0000 + 1)
  }

  lemma ContiguousCount(mem: Memory, calls: seq<Call>, base: Word)
    requires Contiguous(calls, base) && Node(base, 4) + |calls| <= 0x10_0000_0000
    ensures |NewTables(mem, calls)| <= TableBound(|calls|)
  {
    hide Node, AtLevel, Contiguous;
    if calls != [] {
      var s := NewTables(mem, calls);
      forall p | p in s
        ensures 1 <= p.0 <= 3
      {
        WhichTables(mem, calls, p.0, p.1);
      }
      ByLevel(s);
      ContiguousTables(mem, calls, base, 1);
      ContiguousTables(mem, calls, base, 2);
      ContiguousTables(mem, calls, base, 3);
    }
  }

  /** Mapping contiguous pages moves the watermark by at most one page for each table that the three
      bounds allow. */
  lemma ContiguousWatermark(m: Machine, calls: seq<Call>, base: Word)
    requires Contiguous(calls, base) && Node(base, 4) + |calls| <= 0x10_0000_0000
    requires Tree(m) && RunOk(m, calls)
    ensures Run(m, calls).it <= m.it + PAGE * TableBound(|calls|)
  {
    hide Node, Tree, RunOk, NewTables, Walk, Contiguous, TableBound;
    RunCorrect(m, calls);
    ContiguousCount(m.mem, calls, base);
  }

  // ---- Several runs after one another ----

  lemma {:induction false} TablesOfBoth(mem: Memory, a: seq<Call>, b: seq<Call>)
    ensures NewTables(mem, a + b) == NewTables(mem, a) + NewTables(mem, b)
    decreases |b|
  {
    hide NewOnRoute;
    if b == [] {
      assert a + b == a;
    } else {
      var k := |b| - 1;
      assert (a + b)[..|a + b| - 1] == a + b[..k];
      TablesOfBoth(mem, a, b[..k]);
    }
  }

  lemma CountBoth(mem: Memory, a: seq<Call>, b: seq<Call>)
    ensures |NewTables(mem, a + b)| <= |NewTables(mem, a)| + |NewTables(mem, b)|
  {
    hide NewTables;
    TablesOfBoth(mem, a, b);
    UnionSize(NewTables(mem, a), NewTables(mem, b));
  }

  lemma UnionSize<T>(a: set<T>, b: set<T>)
    ensures |a + b| <= |a| + |b|
  {
    assert a + b == a + (b - a);
    SubsetSize(b - a, b);
  }
}
