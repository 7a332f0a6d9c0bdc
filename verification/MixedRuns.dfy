/** Runs in which setup_physical_map and the mappers are called in any order. */
module MixedRuns {
  import opened PageEntries
  import opened PageTables
  import opened Wrappers
  import opened PageTree
  import opened PageMapping
  import opened PhysicalMap
  import opened PageRuns
  import opened BootTables

  datatype Op = Setup(total: Word) | Map(call: Call) {
    // Tables taken, at most.
    function Room(m: Machine): nat {
      match this
      case Setup(_) => 1
      case Map(c) => MissingTables(m.mem, c.va, c.Depth())
    }
  }

  function Apply(m: Machine, op: Op): Machine {
    match op
    case Setup(total) => PhysMap(m, total)
    case Map(c) => Perform(m, c)
  }

  function RunOps(m: Machine, ops: seq<Op>): Machine {
    if ops == [] then m else Apply(RunOps(m, ops[..|ops| - 1]), ops[|ops| - 1])
  }

  /** What a call needs of the state it finds: see PhysMapCorrect, Map4KCorrect and Map2MCorrect. */
  predicate OpOk(m: Machine, op: Op) {
    match op
    case Setup(total) => m.it + PAGE <= WINDOW && NumGigs(total) < ENTRIES
    case Map(c) => Mappable(m, c.va, c.Depth()) && c.physical % c.Size() == 0 && c.physical < TWO_52
  }

  predicate OpsOk(m: Machine, ops: seq<Op>) {
    ops == [] || (OpsOk(m, ops[..|ops| - 1]) && OpOk(RunOps(m, ops[..|ops| - 1]), ops[|ops| - 1]))
  }

  predicate InWindow(x: Word) { Canonical(x) && Node(x, 1) == WINDOW_SLOT }

  // What x is translated to after a call, given what it was translated to before.
  function Decides(op: Op, x: Word, before: Translation): Translation {
    match op
    case Setup(total) =>
      if !InWindow(x) then before
      else if Index(x, 1) < NumGigs(total) then Mapped(x - WINDOW_BASE, true)
      else Fault
    case Map(c) => if c.Covers(x) then Mapped(c.physical + x % c.Size(), true) else before
  }

  /** What a mixed run refines: the last call that decides about x, setup_physical_map deciding about
      the whole of l4 slot 256. */
  function LastOp(mem: Memory, ops: seq<Op>, x: Word): Translation {
    if ops == [] then Walk(mem, x)
    else Decides(ops[|ops| - 1], x, LastOp(mem, ops[..|ops| - 1], x))
  }

  // One call from any tree of tables.
  lemma ApplyOp(m: Machine, op: Op)
    requires Tree(m) && OpOk(m, op)
    ensures Tree(Apply(m, op)) && Apply(m, op).it == m.it + PAGE * op.Room(m)
    ensures forall x: Word :: Walk(Apply(m, op).mem, x) == Decides(op, x, Walk(m.mem, x))
  {
    hide Node, Index, Tree, Walk, Map4K, Map2M, PhysMap, NumGigs, MissingTables, HugeOn;
    match op
    case Setup(total) =>
      PhysMapCorrect(m, total);
      forall x: Word
        ensures Walk(Apply(m, op).mem, x) == Decides(op, x, Walk(m.mem, x))
      {
        assert WindowOnly(m, PhysMap(m, total), NumGigs(total), x);
      }
    case Map(Page4K(va, p)) => Map4KCorrect(m, va, p);
    case Map(Page2M(va, p)) => Map2MCorrect(m, va, p);
  }

  /** Every mixed run: the tables stay a tree and the last call that decides about an address wins. */
  lemma {:induction false} MixedRunCorrect(m: Machine, ops: seq<Op>)
    requires Tree(m) && OpsOk(m, ops)
    ensures Tree(RunOps(m, ops)) && m.it <= RunOps(m, ops).it
    ensures forall x: Word :: Walk(RunOps(m, ops).mem, x) == LastOp(m.mem, ops, x)
  {
    hide Tree, Walk, Apply, OpOk, Decides, Op.Room;
    if ops != [] {
      var k := |ops| - 1;
      MixedRunCorrect(m, ops[..k]);
      ApplyOp(RunOps(m, ops[..k]), ops[k]);
    }
  }

  // ---- The identity window ----

  /** Neither a mapping into l4 slot 0 nor, as it maps slot 256, setup_physical_map. */
  predicate AvoidsSlotZero(op: Op) { op.Map? ==> Index(op.call.va, 0) != 0 }

  lemma WindowSlotApart(x: Word)
    requires x < WINDOW
    ensures !InWindow(x)
  {
  }

  lemma KeepsIdentity(m: Machine, op: Op)
    requires Tree(m) && OpOk(m, op) && IdentityWindow(m.mem) && AvoidsSlotZero(op)
    ensures IdentityWindow(Apply(m, op).mem)
  {
    hide Node, Index, Tree, Walk, Apply, OpOk, NumGigs, InWindow, Op.Room;
    ApplyOp(m, op);
    forall x: Word | x < WINDOW
      ensures Walk(Apply(m, op).mem, x) == Mapped(x, true)
    {
      WindowSlotApart(x);
      assert Walk(Apply(m, op).mem, x) == Decides(op, x, Walk(m.mem, x));
      if op.Map? { OtherSlot(op.call, x); }
    }
  }

  /** The mappers follow physical table pointers as virtual addresses. A mixed run that avoids l4 slot
      0 keeps the identity mapping this relies on: every entry of every reachable table lies in the
      first 2 MB and is still found, writable, at its physical address. */
  lemma {:induction false} PointersNameTables(m: Machine, ops: seq<Op>)
    requires Tree(m) && OpsOk(m, ops) && IdentityWindow(m.mem)
    requires forall i | 0 <= i < |ops| :: AvoidsSlotZero(ops[i])
    ensures IdentityWindow(RunOps(m, ops).mem)
    ensures var mem := RunOps(m, ops).mem;
            forall d, n, i: nat | TableAt(mem, d, n).Some? && i < ENTRIES ::
              var a := EntryAddress(TableAt(mem, d, n).value, i);
              a < WINDOW && Walk(mem, a) == Mapped(a, true)
  {
    hide Node, Index, Tree, Walk, TableAt, Apply, OpOk, AvoidsSlotZero;
    MixedRunCorrect(m, ops);
    if ops != [] {
      var k := |ops| - 1;
      MixedRunCorrect(m, ops[..k]);
      PointersNameTables(m, ops[..k]);
      KeepsIdentity(RunOps(m, ops[..k]), ops[k]);
    }
    var r := RunOps(m, ops);
    forall d, n, i: nat | TableAt(r.mem, d, n).Some? && i < ENTRIES
      ensures EntryAddress(TableAt(r.mem, d, n).value, i) < WINDOW
    {
      TableInMemory(r, d, n, i);
    }
  }

  // ---- Runs of the mappers alone ----

  function MapOps(calls: seq<Call>): (ops: seq<Op>)
    ensures |ops| == |calls| && forall i | 0 <= i < |calls| :: ops[i] == Map(calls[i])
  {
    seq(|calls|, i requires 0 <= i < |calls| => Map(calls[i]))
  }

  /** A legal run of the mappers is a legal mixed run, to the same end. */
  lemma {:induction false} RunIsMixed(m: Machine, calls: seq<Call>, k: nat)
    requires Tree(m) && RunOk(m, calls) && k <= |calls|
    ensures OpsOk(m, MapOps(calls[..k])) && RunOps(m, MapOps(calls[..k])) == Run(m, calls[..k])
  {
    hide Tree, RunOk, Perform, Mappable;
    if k > 0 {
      RunIsMixed(m, calls, k - 1);
      CanCall(m, calls, k - 1);
      assert MapOps(calls[..k])[..k - 1] == MapOps(calls[..k - 1]);
    }
  }
}
