/** Whole runs of the mapping routines: what the processor translates at the end, and how many tables
    the run has taken. */
module PageRuns {
  import opened PageEntries
  import opened PageTables
  import opened Wrappers
  import opened PageTree
  import opened PageMapping

  datatype Call = Page4K(va: Word, physical: Word) | Page2M(va: Word, physical: Word) {

    // The level of the table whose entry the call writes.
    function Depth(): nat { if Page4K? then 3 else 2 }

    function Size(): nat { if Page4K? then PAGE else LARGE_PAGE }

    predicate Covers(x: Word) { Canonical(x) && Node(x, Depth() + 1) == Node(va, Depth() + 1) }
  }

  function Perform(m: Machine, c: Call): Machine {
    match c
    case Page4K(va, p) => Map4K(m, va, p)
    case Page2M(va, p) => Map2M(m, va, p)
  }

  function Run(m: Machine, calls: seq<Call>): Machine {
    if calls == [] then m else Perform(Run(m, calls[..|calls| - 1]), calls[|calls| - 1])
  }

  /** The simple thing a run refines: the last call whose page holds x decides. */
  function LastMapping(mem: Memory, calls: seq<Call>, x: Word): Translation {
    if calls == [] then Walk(mem, x)
    else
      var c := calls[|calls| - 1];
      if c.Covers(x) then Mapped(c.physical + x % c.Size(), true)
      else LastMapping(mem, calls[..|calls| - 1], x)
  }

  predicate LargeRegion(calls: seq<Call>, n: nat) {
    exists i | 0 <= i < |calls| :: calls[i].Page2M? && Node(calls[i].va, 3) == n
  }

  // The tables on va's route down to level `depth` that the starting state lacks.
  function NewOnRoute(mem: Memory, va: Word, depth: nat): set<(nat, nat)>
    requires depth < 4
  {
    if depth == 0 then {}
    else NewOnRoute(mem, va, depth - 1) + if Missing(mem, va, depth) == 1 then {(depth, Node(va, depth))} else {}
  }

  /** The distinct table positions that a run touches and that the starting state lacks. */
  function NewTables(mem: Memory, calls: seq<Call>): set<(nat, nat)> {
    if calls == [] then {}
    else
      var c := calls[|calls| - 1];
      NewTables(mem, calls[..|calls| - 1]) + NewOnRoute(mem, c.va, c.Depth())
  }

  /** A call may be made after the earlier ones: aligned frame below 2^52, and no huge page where a
      table is needed. */
  predicate CallOk(mem: Memory, earlier: seq<Call>, c: Call) {
    && c.physical % c.Size() == 0 && c.physical < TWO_52
    && !HugeOn(mem, c.va, 1)
    && (c.Page4K? ==> !HugeOn(mem, c.va, 2) && !LargeRegion(earlier, Node(c.va, 3)))
  }

  predicate RunOk(m: Machine, calls: seq<Call>) {
    && (forall i | 0 <= i < |calls| :: CallOk(m.mem, calls[..i], calls[i]))
    && m.it + PAGE * |NewTables(m.mem, calls)| <= WINDOW
  }

  ghost predicate RunInvariant(m: Machine, calls: seq<Call>, m': Machine) {
    && Tree(m') && m'.it == m.it + PAGE * |NewTables(m.mem, calls)|
    && TablesOfRun(m.mem, calls, m'.mem) && HugeOfRun(m.mem, calls, m'.mem)
    && (forall x: Word :: Walk(m'.mem, x) == LastMapping(m.mem, calls, x))
  }

  // A table position is taken when touched, and given up only to a 2 MB page over it.
  ghost predicate TablesOfRun(mem: Memory, calls: seq<Call>, mem': Memory) {
    forall d: nat, n: nat :: TableAt(mem', d, n).Some? <==>
      (TableAt(mem, d, n).Some? || (d, n) in NewTables(mem, calls)) && !(d == 3 && LargeRegion(calls, n))
  }

  ghost predicate HugeOfRun(mem: Memory, calls: seq<Call>, mem': Memory) {
    forall x: Word, d: nat :: HugeOn(mem', x, d) <==>
      HugeOn(mem, x, d) || (d == 2 && LargeRegion(calls, Node(x, 3)))
  }

  lemma {:induction false} CountNew(mem: Memory, mem': Memory, known: set<(nat, nat)>, va: Word, depth: nat)
    requires depth < 4
    requires forall d | 1 <= d <= depth ::
               RouteTable(mem', va, d).Some? <==> RouteTable(mem, va, d).Some? || (d, Node(va, d)) in known
    ensures |known + NewOnRoute(mem, va, depth)| == |known| + MissingTables(mem', va, depth)
    ensures forall p | p in NewOnRoute(mem, va, depth) :: 1 <= p.0 <= depth && p.1 == Node(va, p.0)
  {
    hide Node, TableAt, RouteTable, Missing;
    if depth == 0 {
      assert known + {} == known;
    } else {
      CountNew(mem, mem', known, va, depth - 1);
      var p := (depth, Node(va, depth));
      MissingIs(mem, va, depth);
      MissingIs(mem', va, depth);
      assert p !in NewOnRoute(mem, va, depth - 1);
      CountOne(known, NewOnRoute(mem, va, depth - 1), p, Missing(mem, va, depth));
    }
  }

  lemma MissingIs(mem: Memory, va: Word, d: nat)
    requires d < 4
    ensures Missing(mem, va, d) == if RouteTable(mem, va, d).Some? then 0 else 1
  {
  }

  lemma CountOne(known: set<(nat, nat)>, rest: set<(nat, nat)>, p: (nat, nat), missing: nat)
    requires p !in rest
    ensures var more := rest + if missing == 1 then {p} else {};
            |known + more| == |known + rest| + if missing == 1 && p !in known then 1 else 0
  {
    if p in known {
      assert known + (rest + {p}) == known + rest;
    }
    if missing == 1 {
      assert known + (rest + {p}) == (known + rest) + {p};
    } else {
      assert known + (rest + {}) == known + rest;
    }
  }

  lemma InNewOnRoute(mem: Memory, va: Word, depth: nat, d: nat, n: nat)
    requires depth < 4
    ensures (d, n) in NewOnRoute(mem, va, depth) <==>
            1 <= d <= depth && OnRoute(va, d, n) && TableAt(mem, d, n).None?
  {
    hide Node, TableAt;
  }

  // The tables a call finds missing are the ones it adds to the set.
  lemma CallCounts(m: Machine, calls: seq<Call>, m': Machine, c: Call)
    requires RunInvariant(m, calls, m') && CallOk(m.mem, calls, c)
    ensures |NewTables(m.mem, calls + [c])| == |NewTables(m.mem, calls)| + MissingTables(m'.mem, c.va, c.Depth())
    ensures forall d | 1 <= d < c.Depth() :: !HugeOn(m'.mem, c.va, d)
  {
    hide Node, TableAt, Tree, Walk;
    assert (calls + [c])[..|calls|] == calls;
    assert forall d | 1 <= d <= c.Depth() :: !(d == 3 && LargeRegion(calls, Node(c.va, d)));
    CountNew(m.mem, m'.mem, NewTables(m.mem, calls), c.va, c.Depth());
  }

  lemma LargeRegionGrows(calls: seq<Call>, c: Call, n: nat)
    ensures LargeRegion(calls + [c], n) <==> LargeRegion(calls, n) || (c.Page2M? && Node(c.va, 3) == n)
  {
    hide Node;
    var all := calls + [c];
    if LargeRegion(calls, n) {
      var i :| 0 <= i < |calls| && calls[i].Page2M? && Node(calls[i].va, 3) == n;
      assert all[i] == calls[i];
    }
    if c.Page2M? && Node(c.va, 3) == n {
      assert all[|calls|] == c;
    }
  }

  lemma StepTables(mem: Memory, calls: seq<Call>, mem': Memory, c: Call, mem'': Memory)
    requires TablesOfRun(mem, calls, mem')
    requires c.Page4K? ==> TablesAdded(mem', mem'', c.va, 3) && !LargeRegion(calls, Node(c.va, 3))
    requires c.Page2M? ==> TablesReplaced(mem', mem'', c.va)
    ensures TablesOfRun(mem, calls + [c], mem'')
  {
    hide Node, TableAt, NewOnRoute;
    assert (calls + [c])[..|calls|] == calls;
    OnlyRoot(mem, c.va);
    forall d: nat, n: nat
      ensures TableAt(mem'', d, n).Some? <==>
              (TableAt(mem, d, n).Some? || (d, n) in NewTables(mem, calls + [c])) &&
              !(d == 3 && LargeRegion(calls + [c], n))
    {
      LargeRegionGrows(calls, c, n);
      InNewOnRoute(mem, c.va, c.Depth(), d, n);
    }
  }

  lemma StepHuge(mem: Memory, calls: seq<Call>, mem': Memory, c: Call, mem'': Memory)
    requires HugeOfRun(mem, calls, mem')
    requires if c.Page4K? then SameHuge(mem', mem'') else HugeAdded(mem', mem'', c.va)
    ensures HugeOfRun(mem, calls + [c], mem'')
  {
    hide Node, HugeOn;
    forall x: Word, d: nat
      ensures HugeOn(mem'', x, d) <==> HugeOn(mem, x, d) || (d == 2 && LargeRegion(calls + [c], Node(x, 3)))
    {
      LargeRegionGrows(calls, c, Node(x, 3));
    }
  }

  lemma RunStep(m: Machine, calls: seq<Call>, m': Machine, c: Call)
    requires RunInvariant(m, calls, m') && CallOk(m.mem, calls, c)
    requires m.it + PAGE * |NewTables(m.mem, calls + [c])| <= WINDOW
    ensures RunInvariant(m, calls + [c], Perform(m', c))
  {
    hide Node, TableAt, Tree, Walk, Map4K, Map2M, NewOnRoute, HugeOn;
    CallCounts(m, calls, m', c);
    assert (calls + [c])[..|calls|] == calls;
    if c.Page4K? {
      Map4KCorrect(m', c.va, c.physical);
    } else {
      Map2MCorrect(m', c.va, c.physical);
    }
    StepTables(m.mem, calls, m'.mem, c, Perform(m', c).mem);
    StepHuge(m.mem, calls, m'.mem, c, Perform(m', c).mem);
  }

  /** Every run: the processor's walk is the map in which the last call wins, the tables stay a tree,
      and the watermark has moved by one page per distinct missing table position touched. */
  lemma {:induction false} RunCorrect(m: Machine, calls: seq<Call>)
    requires Tree(m) && RunOk(m, calls)
    ensures RunInvariant(m, calls, Run(m, calls))
  {
    hide Node, TableAt, Tree, Walk, Map4K, Map2M, NewOnRoute, CallOk, HugeOn;
    if calls != [] {
      var k := |calls| - 1;
      var front, c := calls[..k], calls[k];
      assert front + [c] == calls;
      assert forall i | 0 <= i < k :: front[..i] == calls[..i];
      assert NewTables(m.mem, front) <= NewTables(m.mem, calls);
      SubsetSize(NewTables(m.mem, front), NewTables(m.mem, calls));
      RunCorrect(m, front);
      RunStep(m, front, Run(m, front), c);
    }
  }

  lemma RunWalk(m: Machine, calls: seq<Call>, x: Word)
    requires Tree(m) && RunOk(m, calls)
    ensures Walk(Run(m, calls).mem, x) == LastMapping(m.mem, calls, x)
  {
    hide Tree, RunOk, Run, Walk, LastMapping, TablesOfRun, HugeOfRun;
    RunCorrect(m, calls);
  }

  lemma {:induction false} SubsetSize<T>(a: set<T>, b: set<T>)
    requires a <= b
    ensures |a| <= |b|
  {
    if a != {} {
      var x :| x in a;
      SubsetSize(a - {x}, b - {x});
    }
  }

  /** A call of a legal run finds its preconditions met. */
  lemma CanCall(m: Machine, calls: seq<Call>, k: nat)
    requires Tree(m) && RunOk(m, calls) && k < |calls|
    ensures var (n, c) := (Run(m, calls[..k]), calls[k]);
            && Tree(n) && Mappable(n, c.va, c.Depth()) && Run(m, calls[..k + 1]) == Perform(n, c)
            && c.physical % c.Size() == 0 && c.physical < TWO_52
  {
    hide Tree, Map4K, Map2M, Node, TableAt, Walk, NewTables, MissingTables, HugeOn, Mappable, LargeRegion;
    var front, c := calls[..k], calls[k];
    assert forall i | 0 <= i < k :: front[..i] == calls[..i];
    FewerTables(m.mem, calls, k);
    FewerTables(m.mem, calls, k + 1);
    assert front + [c] == calls[..k + 1] && calls[..k + 1][..k] == front;
    RunCorrect(m, front);
    CallCounts(m, front, Run(m, front), c);
    NextFits(m, front, Run(m, front), c);
  }

  lemma NextFits(m: Machine, calls: seq<Call>, n: Machine, c: Call)
    requires RunInvariant(m, calls, n)
    requires |NewTables(m.mem, calls + [c])| == |NewTables(m.mem, calls)| + MissingTables(n.mem, c.va, c.Depth())
    requires m.it + PAGE * |NewTables(m.mem, calls + [c])| <= WINDOW
    requires forall d | 1 <= d < c.Depth() :: !HugeOn(n.mem, c.va, d)
    ensures Mappable(n, c.va, c.Depth())
  {
    hide Node, TableAt, Walk, NewTables, MissingTables, HugeOn, Tree;
  }

  lemma {:induction false} FewerTables(mem: Memory, calls: seq<Call>, k: nat)
    requires k <= |calls|
    ensures |NewTables(mem, calls[..k])| <= |NewTables(mem, calls)|
    decreases |calls|
  {
    hide NewOnRoute;
    if k < |calls| {
      var front := calls[..|calls| - 1];
      FewerTables(mem, front, k);
      assert front[..k] == calls[..k];
      SubsetSize(NewTables(mem, front), NewTables(mem, calls));
    } else {
      assert calls[..k] == calls;
    }
  }

  lemma {:induction false} UncoveredStays(mem: Memory, calls: seq<Call>, x: Word)
    requires forall i | 0 <= i < |calls| :: !calls[i].Covers(x)
    ensures LastMapping(mem, calls, x) == Walk(mem, x)
  {
    hide Node, Walk;
    if calls != [] {
      UncoveredStays(mem, calls[..|calls| - 1], x);
    }
  }
}
