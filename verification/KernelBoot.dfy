/** From start.asm to the loaded kernel: conditions on the file's headers under which map_kernel runs,
    every access made through the tables it is building, and what the kernel then reads. */
module KernelBoot {
  import opened Bits
  import opened PageEntries
  import opened PageTables
  import opened Wrappers
  import opened PageTree
  import opened PageMapping
  import opened PageRuns
  import opened PageCounts
  import opened PhysicalMap
  import opened BootTables
  import opened MixedRuns
  import opened VirtualAccess
  import opened MemoryRoutines
  import opened KernelImage
  import opened KernelLoads

  // ---- What the headers must say ----

  /** All pages of the segment, the one too many included, lie in the kernel's region or above it. */
  predicate InKernelRegion(g: Segment) {
    g.vaddr >= KERNEL_REGION && g.vaddr + PAGE * g.NumPages() <= TWO_64
  }

  predicate AllInKernelRegion(segments: seq<Segment>) {
    forall g | g in segments && g.Load() :: InKernelRegion(g)
  }

  // Tables that the segments can take, at most.
  function TableRoom(segments: seq<Segment>): nat {
    if segments == [] then 0
    else
      var g := segments[|segments| - 1];
      TableRoom(segments[..|segments| - 1]) + if g.Load() then TableBound(g.NumPages()) else 0
  }

  /** The tables start at 0x21000 and end below the buffer, which lies in the memory that the window
      covers and the frame mask can name. */
  predicate BufferFits(segments: seq<Segment>, base: nat, length: nat, gigs: nat) {
    && 0x2_1000 + PAGE * TableRoom(segments) <= WINDOW
    && 0x2_1000 + PAGE * TableRoom(segments) <= base
    && base + length <= gigs * GIGABYTE && gigs < ENTRIES
  }

  lemma RegionFits(g: Segment)
    requires InKernelRegion(g)
    ensures PagesFit(g)
  {
    hide Segment.NumPages;
    var v := g.vaddr / PAGE;
    assert v + g.NumPages() <= 0x10_0000_0000_0000;
    assert v >= 0xF_FFF9_0000_0000;
    assert v % 0x10_0000_0000 == v - 0xFFFF * 0x10_0000_0000;
  }

  // ---- The calls are legal ----

  // A page of the kernel's region, and a frame that the mask lets through.
  predicate KernelCall(c: Call) {
    c.Page4K? && c.va >= KERNEL_REGION && c.physical % PAGE == 0 && c.physical < TWO_52
  }

  lemma MaskedFrame(x: Word)
    ensures FrameMask(x) % PAGE == 0 && FrameMask(x) < 0x2000_0000_0000
  {
    hide FrameMask;
    FrameMaskField(x);
  }

  lemma SegmentKernelCalls(code: Word, g: Segment, stride: nat)
    requires InKernelRegion(g) && stride in {AS_WRITTEN, CORRECTED}
    ensures forall c | c in SegmentCalls(code, g, stride, g.NumPages()) :: KernelCall(c)
  {
    hide SegmentCalls, FirstFrame, Segment.NumPages;
    var calls := SegmentCalls(code, g, stride, g.NumPages());
    forall i: nat | i < |calls|
      ensures KernelCall(calls[i])
    {
      CallAt(code, g, stride, i, g.NumPages());
      FrameInRange(code, g, stride, i);
    }
  }

  lemma FrameInRange(code: Word, g: Segment, stride: nat, i: nat)
    requires InKernelRegion(g) && stride in {AS_WRITTEN, CORRECTED} && i < g.NumPages()
    ensures var frame := FirstFrame(code, g) + stride * i; frame < TWO_52 && frame % PAGE == 0
    ensures g.vaddr + PAGE * i < TWO_64
  {
    hide FrameMask, Segment.NumPages;
    MaskedFrame((code + g.offset - g.align) % TWO_64);
    assert PAGE * i < TWO_64 - KERNEL_REGION;
    AlignedStep(FirstFrame(code, g), stride, i);
  }

  lemma AlignedStep(frame: nat, stride: nat, i: nat)
    requires frame % PAGE == 0 && stride in {AS_WRITTEN, CORRECTED}
    ensures (frame + stride * i) % PAGE == 0 && stride * i <= PAGE * i
  {
  }

  lemma {:induction false} AllKernelCalls(code: Word, segments: seq<Segment>, stride: nat)
    requires AllInKernelRegion(segments) && stride in {AS_WRITTEN, CORRECTED}
    ensures forall c | c in KernelCalls(code, segments, stride) :: KernelCall(c)
  {
    hide SegmentCalls, KernelCall, InKernelRegion;
    if segments != [] {
      var k := |segments| - 1;
      assert forall g | g in segments[..k] :: g in segments;
      AllKernelCalls(code, segments[..k], stride);
      if segments[k].Load() {
        SegmentKernelCalls(code, segments[k], stride);
      }
    }
  }

  lemma {:induction false} RoomForTables(mem: Memory, code: Word, segments: seq<Segment>, stride: nat)
    requires AllInKernelRegion(segments)
    ensures |NewTables(mem, KernelCalls(code, segments, stride))| <= TableRoom(segments)
  {
    hide SegmentCalls, InKernelRegion, NewTables, TableBound, Contiguous, Node, Segment.NumPages;
    if segments == [] {
      assert KernelCalls(code, segments, stride) == [];
      assert |NewTables(mem, [])| == 0 by { NoCalls(mem); }
    } else {
      var k := |segments| - 1;
      var g, front := segments[k], segments[..k];
      assert forall h | h in front :: h in segments;
      RoomForTables(mem, code, front, stride);
      if g.Load() {
        var mine := SegmentCalls(code, g, stride, g.NumPages());
        RegionFits(g);
        SegmentIsContiguous(code, g, stride, g.NumPages());
        ContiguousCount(mem, mine, g.vaddr);
        CountBoth(mem, KernelCalls(code, front, stride), mine);
      } else {
        assert KernelCalls(code, segments, stride) == KernelCalls(code, front, stride);
      }
    }
  }

  lemma NoCalls(mem: Memory)
    ensures NewTables(mem, []) == {}
  {
  }

  lemma KernelCallOk(mem: Memory, total: Word, earlier: seq<Call>, c: Call)
    requires BootMemory(mem) && NumGigs(total) < ENTRIES && KernelCall(c)
    requires forall e | e in earlier :: KernelCall(e)
    ensures CallOk(Booted(mem, total).mem, earlier, c)
  {
    hide Node, Index, Booted, NumGigs, HugeOn, BootMemory;
    KernelSlots(c.va);
    FreshRegion(mem, total, c.va);
    assert forall i | 0 <= i < |earlier| :: KernelCall(earlier[i]);
  }

  /** From the tables that boot and setup_physical_map leave, the headers alone decide that every call
      of map_kernel is legal and that its tables end below the buffer. */
  lemma KernelFits(mem: Memory, total: Word, base: nat, exe: nat, length: nat, segments: seq<Segment>, stride: nat)
    requires BootMemory(mem) && exe <= length && stride in {AS_WRITTEN, CORRECTED}
    requires AllInKernelRegion(segments) && BufferFits(segments, base, length, NumGigs(total))
    ensures Built(Booted(mem, total), base, exe, segments, stride)
  {
    hide Node, Index, Booted, NumGigs, HugeOn, BootMemory, Tree, KernelCalls, KernelCall, CallOk, NewTables, Walk,
         PhysicalToVirtual, TableRoom, Run;
    var m := Booted(mem, total);
    var calls := KernelCalls(PhysicalToVirtual(base + exe), segments, stride);
    BootWithWindow(mem, total);
    AllKernelCalls(PhysicalToVirtual(base + exe), segments, stride);
    RoomForTables(m.mem, PhysicalToVirtual(base + exe), segments, stride);
    forall i | 0 <= i < |calls|
      ensures CallOk(m.mem, calls[..i], calls[i])
    {
      KernelCallOk(mem, total, calls[..i], calls[i]);
    }
    RunCorrect(m, calls);
    GigsBelowMask(NumGigs(total), base, length);
    assert Run(m, calls).it <= base;
    assert CallsFit(m, calls, base);
  }

  // ---- The window while the kernel is mapped ----

  /** Every byte of physical memory from `base` on is found in the window. */
  ghost predicate WindowOver(mem: Memory, base: nat, length: nat) {
    forall p: nat | base <= p < base + length :: InPlace(mem, p)
  }

  predicate InPlace(mem: Memory, p: nat) {
    p + WINDOW_BASE < TWO_64 && Walk(mem, p + WINDOW_BASE) == Mapped(p, true)
  }

  lemma KernelCallElsewhere(c: Call, p: nat)
    requires KernelCall(c) && p < 0x80_0000_0000
    ensures p + WINDOW_BASE < TWO_64 && !c.Covers(p + WINDOW_BASE) && Index(c.va, 0) != 0
  {
    hide Node, Index;
    KernelSlots(c.va);
    WindowNode(p);
    FirstNode(c.va);
    SlotsApart(c.va, p + WINDOW_BASE, 4);
  }

  lemma WindowKept(mem: Memory, total: Word, base: nat, length: nat, calls: seq<Call>)
    requires BootMemory(mem) && RunOk(Booted(mem, total), calls) && (forall c | c in calls :: KernelCall(c))
    requires base + length <= NumGigs(total) * GIGABYTE && NumGigs(total) < ENTRIES
    ensures WindowOver(Run(Booted(mem, total), calls).mem, base, length)
  {
    hide Node, Booted, NumGigs, BootMemory, Tree, KernelCall, Walk, RunOk, Run, LastMapping, Call.Covers;
    var m := Booted(mem, total);
    BootWithWindow(mem, total);
    RunCorrect(m, calls);
    forall p: nat | base <= p < base + length
      ensures InPlace(Run(m, calls).mem, p)
    {
      forall i | 0 <= i < |calls|
        ensures !calls[i].Covers(p + WINDOW_BASE)
      {
        KernelCallElsewhere(calls[i], p);
      }
      assert p + WINDOW_BASE < TWO_64;
      UncoveredStays(m.mem, calls, p + WINDOW_BASE);
    }
  }

  // ---- Copies through the window ----

  function StoreByte(mem: Memory, ram: seq<Byte>, base: nat, a: Word, b: Byte): (r: Option<seq<Byte>>)
    ensures r.Some? ==> |r.value| == |ram|
  {
    match Walk(mem, a)
    case Mapped(p, writable) =>
      if writable && base <= p < base + |ram| then Some(ram[p - base := b]) else None
    case Fault => None
  }

  // A copy of n bytes from one virtual address to another, byte by byte.
  function CopyVia(mem: Memory, ram: seq<Byte>, base: nat, dst: Word, src: Word, n: nat): Option<seq<Byte>> {
    if n == 0 then Some(ram)
    else
      var before :- CopyVia(mem, ram, base, dst, src, n - 1);
      var b :- LoadByte(mem, before, base, (src + n - 1) % TWO_64);
      StoreByte(mem, before, base, (dst + n - 1) % TWO_64, b)
  }

  lemma {:induction false} CopyVirtual(mem: Memory, ram: seq<Byte>, base: nat, dst: nat, src: nat, n: nat)
    requires WindowOver(mem, base, |ram|) && dst + n <= src && src + n <= |ram| && base + |ram| < 0x8000_0000_0000
    ensures CopyVia(mem, ram, base, base + dst + WINDOW_BASE, base + src + WINDOW_BASE, n) ==
            Some(Copied(ram, dst, src, n))
  {
    hide Walk, Copied, LoadByte, StoreByte, WindowOver;
    if n > 0 {
      CopyVirtual(mem, ram, base, dst, src, n - 1);
      CopiedNext(ram, dst, src, n);
      ByteVirtual(mem, Copied(ram, dst, src, n - 1), base, dst + n - 1, src + n - 1, ram[src + n - 1]);
    } else {
      assert Copied(ram, dst, src, 0) == ram by { NothingCopied(ram, dst, src); }
    }
  }

  lemma NothingCopied(ram: seq<Byte>, dst: nat, src: nat)
    requires dst <= |ram| && src <= |ram|
    ensures Copied(ram, dst, src, 0) == ram
  {
  }

  lemma CopiedNext(ram: seq<Byte>, dst: nat, src: nat, n: nat)
    requires n > 0 && dst + n <= src && src + n <= |ram|
    ensures Copied(ram, dst, src, n) == Copied(ram, dst, src, n - 1)[dst + n - 1 := ram[src + n - 1]]
    ensures Copied(ram, dst, src, n - 1)[src + n - 1] == ram[src + n - 1]
  {
  }

  // One byte from place to place in memory, by window addresses.
  lemma ByteVirtual(mem: Memory, ram: seq<Byte>, base: nat, dst: nat, src: nat, b: Byte)
    requires WindowOver(mem, base, |ram|) && dst < |ram| && src < |ram| && base + |ram| < 0x8000_0000_0000
    ensures var (from, at) := (base + src + WINDOW_BASE, base + dst + WINDOW_BASE);
            && from == from % TWO_64 && LoadByte(mem, ram, base, from) == Some(ram[src])
            && at == at % TWO_64 && StoreByte(mem, ram, base, at, b) == Some(ram[dst := b])
  {
    hide Walk;
    assert InPlace(mem, base + src) && InPlace(mem, base + dst);
  }

  // ---- map_kernel through the window ----

  /** The segments in order: each is copied, then mapped, by accesses through the tables as they are at
      the time. */
  function KernelVia(m: Machine, ram: seq<Byte>, base: nat, code: Word, file: Word, segments: seq<Segment>)
    : Option<(Machine, seq<Byte>)>
  {
    if segments == [] then Some((m, ram))
    else
      var (n, before) :- KernelVia(m, ram, base, code, file, segments[..|segments| - 1]);
      var g := segments[|segments| - 1];
      if !g.Load() then Some((n, before))
      else
        var copied :- CopyVia(n.mem, before, base, (code + g.offset - g.align) % TWO_64, (file + g.offset) % TWO_64,
                              g.filesz);
        var r :- RunVia(n, MapOps(SegmentCalls(code, g, AS_WRITTEN, g.NumPages())));
        Some((r, copied))
  }

  lemma {:induction false} OpsBoth(m: Machine, a: seq<Op>, b: seq<Op>)
    ensures OpsOk(m, a + b) <==> OpsOk(m, a) && OpsOk(RunOps(m, a), b)
    ensures RunOps(m, a + b) == RunOps(RunOps(m, a), b)
    decreases |b|
  {
    hide Apply, OpOk;
    if b == [] {
      assert a + b == a;
    } else {
      var k := |b| - 1;
      assert (a + b)[..|a + b| - 1] == a + b[..k];
      OpsBoth(m, a, b[..k]);
    }
  }

  // A run of kernel calls as a mixed run, from any legal prefix on.
  lemma CallsVirtual(m: Machine, before: seq<Call>, mine: seq<Call>)
    requires Tree(m) && IdentityWindow(m.mem) && RunOk(m, before + mine)
    requires forall c | c in before + mine :: KernelCall(c)
    ensures RunVia(Run(m, before), MapOps(mine)) == Some(Run(m, before + mine))
  {
    hide Tree, Walk, RunOk, Run, OpsOk, RunOps, RunVia, IdentityWindow, Index, KernelCall;
    var all, k := before + mine, |before|;
    RunIsMixed(m, all, k);
    RunIsMixed(m, all, |all|);
    assert all[..k] == before && all[..|all|] == all;
    assert MapOps(all) == MapOps(before) + MapOps(mine);
    OpsBoth(m, MapOps(before), MapOps(mine));
    forall c | c in all
      ensures Index(c.va, 0) != 0
    {
      KernelCallElsewhere(c, 0);
    }
    forall i | 0 <= i < |before|
      ensures AvoidsSlotZero(MapOps(before)[i])
    {
      assert before[i] in all;
    }
    forall i | 0 <= i < |mine|
      ensures AvoidsSlotZero(MapOps(mine)[i])
    {
      assert mine[i] in all;
    }
    MixedRunCorrect(m, MapOps(before));
    PointersNameTables(m, MapOps(before));
    VirtualRun(RunOps(m, MapOps(before)), MapOps(mine));
  }

  lemma PrefixRun(m: Machine, before: seq<Call>, after: seq<Call>)
    requires RunOk(m, before + after)
    ensures RunOk(m, before)
  {
    hide CallOk;
    var all := before + after;
    assert all[..|before|] == before;
    assert forall i | 0 <= i < |before| :: before[..i] == all[..i];
    FewerTables(m.mem, all, |before|);
  }

  // The window addresses of the copy and of the file.
  lemma WindowAddresses(base: nat, exe: nat, elf: nat, length: nat, g: Segment)
    requires base + length < 0x2000_0000_0000 && Placed(length, exe, elf, g)
    ensures base + exe < TWO_64 && base + elf < TWO_64
    ensures (PhysicalToVirtual(base + exe) + g.offset - g.align) % TWO_64 == base + CopyDst(exe, g) + WINDOW_BASE
    ensures (PhysicalToVirtual(base + elf) + g.offset) % TWO_64 == base + (elf + g.offset) + WINDOW_BASE
  {
    hide PhysicalToVirtual;
    OrIsAddition(base + exe);
    OrIsAddition(base + elf);
  }

  lemma GigsBelowMask(gigs: nat, base: nat, length: nat)
    requires gigs < ENTRIES && base + length <= gigs * GIGABYTE
    ensures base + length < 0x2000_0000_0000
  {
  }

  /** What the headers must say, and where the buffer and the file must be. */
  ghost predicate Bootable(mem: Memory, total: Word, s: seq<Byte>, base: nat, exe: nat, elf: nat,
                           segments: seq<Segment>) {
    && BootMemory(mem) && exe <= elf <= |s| && AllInKernelRegion(segments)
    && BufferFits(segments, base, |s|, NumGigs(total)) && AllPlaced(|s|, exe, elf, segments)
  }

  // One more segment through the window.
  lemma NextSegment(mem: Memory, total: Word, s: seq<Byte>, base: nat, exe: nat, elf: nat, segments: seq<Segment>,
                    before: seq<Byte>)
    requires Bootable(mem, total, s, base, exe, elf, segments) && segments != [] && |before| == |s|
    requires segments[|segments| - 1].Load()
    ensures base + exe < TWO_64 && base + elf < TWO_64
    ensures var (m, g, code) := (Booted(mem, total), segments[|segments| - 1], PhysicalToVirtual(base + exe));
            var n := Run(m, KernelCalls(code, segments[..|segments| - 1], AS_WRITTEN));
            && 0 <= CopyDst(exe, g) && elf + g.offset + g.filesz <= |s| && CopyDst(exe, g) + g.filesz <= |s|
            && CopyVia(n.mem, before, base, (code + g.offset - g.align) % TWO_64,
                       (PhysicalToVirtual(base + elf) + g.offset) % TWO_64, g.filesz) ==
               Some(Copied(before, CopyDst(exe, g), elf + g.offset, g.filesz))
            && RunVia(n, MapOps(SegmentCalls(code, g, AS_WRITTEN, g.NumPages()))) ==
               Some(Run(m, KernelCalls(code, segments, AS_WRITTEN)))
  {
    hide Tree, Walk, RunOk, Run, RunVia, IdentityWindow, KernelCall, BootMemory, Booted, NumGigs, PhysicalToVirtual,
         SegmentCalls, CopyVia, Copied, AllInKernelRegion, TableRoom, NewTables, WindowOver;
    var k := |segments| - 1;
    var m, g, code := Booted(mem, total), segments[k], PhysicalToVirtual(base + exe);
    var front := KernelCalls(code, segments[..k], AS_WRITTEN);
    var mine := SegmentCalls(code, g, AS_WRITTEN, g.NumPages());
    assert KernelCalls(code, segments, AS_WRITTEN) == front + mine;
    KernelFits(mem, total, base, exe, |s|, segments, AS_WRITTEN);
    AllKernelCalls(code, segments, AS_WRITTEN);
    BootWithWindow(mem, total);
    CallsVirtual(m, front, mine);
    PrefixRun(m, front, mine);
    assert forall c | c in front :: c in front + mine;
    WindowKept(mem, total, base, |s|, front);
    GigsBelowMask(NumGigs(total), base, |s|);
    assert Placed(|s|, exe, elf, g);
    WindowAddresses(base, exe, elf, |s|, g);
    CopyVirtual(Run(m, front).mem, before, base, CopyDst(exe, g), elf + g.offset, g.filesz);
  }

  /** map_kernel from the booted state, every access through the tables it is building: nothing faults,
      and memory and tables end as MapKernel, which works on physical memory, leaves them. */
  lemma {:induction false} KernelVirtual(mem: Memory, total: Word, s: seq<Byte>, base: nat, exe: nat, elf: nat,
                                         segments: seq<Segment>)
    requires Bootable(mem, total, s, base, exe, elf, segments)
    ensures base + exe < TWO_64 && base + elf < TWO_64
    ensures KernelVia(Booted(mem, total), s, base, PhysicalToVirtual(base + exe), PhysicalToVirtual(base + elf),
                      segments) ==
            Some((Run(Booted(mem, total), KernelCalls(PhysicalToVirtual(base + exe), segments, AS_WRITTEN)),
                  CopySegments(s, exe, elf, segments)))
  {
    hide Tree, Walk, RunOk, RunVia, BootMemory, Booted, NumGigs, PhysicalToVirtual, SegmentCalls, CopyVia, Copied,
         Perform, TableBound;
    GigsBelowMask(NumGigs(total), base, |s|);
    if segments != [] {
      var k := |segments| - 1;
      assert forall h | h in segments[..k] :: h in segments;
      KernelVirtual(mem, total, s, base, exe, elf, segments[..k]);
      CopyLast(s, exe, elf, segments);
      if segments[k].Load() {
        NextSegment(mem, total, s, base, exe, elf, segments, CopySegments(s, exe, elf, segments[..k]));
      } else {
        var code := PhysicalToVirtual(base + exe);
        assert KernelCalls(code, segments, AS_WRITTEN) == KernelCalls(code, segments[..k], AS_WRITTEN);
      }
    }
  }

  /** So MapKernel, which starts where boot and setup_physical_map end, may be called on such a file. */
  lemma KernelMayRun(mem: Memory, total: Word, s: seq<Byte>, base: nat, exe: nat, elf: nat)
    requires HeadersInside(s, elf) && Bootable(mem, total, s, base, exe, elf, AllSegments(s, elf))
    ensures KernelOk(Booted(mem, total), s, base, exe, elf)
  {
    hide AllSegments, KernelCalls, PhysicalToVirtual, HeadersInside, BootMemory, Booted, NumGigs, CallsFit, TableRoom;
    KernelFits(mem, total, base, exe, |s|, AllSegments(s, elf), AS_WRITTEN);
    GigsBelowMask(NumGigs(total), base, |s|);
  }

  lemma RegionIsUpper(segments: seq<Segment>, j: nat)
    requires AllInKernelRegion(segments) && j < |segments|
    requires forall h | j < h < |segments| && segments[h].Load() :: PagesApart(segments[j], segments[h])
    ensures UpperApart(segments, j)
  {
    hide PagesApart, PagesFit, Segment.NumPages;
    forall h | 0 <= h < |segments| && segments[h].Load()
      ensures InUpperHalf(segments[h])
    {
      assert InKernelRegion(segments[h]);
      RegionFits(segments[h]);
    }
  }

  /** From power-on to the first load of the kernel: after start.asm, setup_physical_map and map_kernel,
      all through their own tables, byte k of page i of a segment reads as byte k of the copy of its
      first page. */
  lemma BootedImage(mem: Memory, total: Word, s: seq<Byte>, base: nat, exe: nat, elf: nat, segments: seq<Segment>,
                    j: nat, i: nat, k: nat)
    requires Bootable(mem, total, s, base, exe, elf, segments) && Regular(s, base, exe, elf, segments, j)
    requires forall h | j < h < |segments| && segments[h].Load() :: PagesApart(segments[j], segments[h])
    requires i < segments[j].NumPages() && k < PAGE && BufferPlace(exe, segments[j].offset + k) < elf
    ensures base + exe < TWO_64 && base + elf < TWO_64
    ensures var y := segments[j].offset + k;
            && 0 <= BufferPlace(exe, y) && (Covered(segments, y) ==> elf + y < |s|)
            && var end := KernelVia(Booted(mem, total), s, base, PhysicalToVirtual(base + exe),
                                    PhysicalToVirtual(base + elf), segments);
            && end.Some?
            && LoadByte(end.value.0.mem, end.value.1, base, PageByte(segments[j], i, k)) ==
               Some(ImageAt(s, exe, elf, segments, y))
  {
    hide Tree, Walk, RunOk, Run, BootMemory, Booted, NumGigs, PhysicalToVirtual, KernelCalls, KernelVia, CopySegments,
         BufferFits, ImageAt, Covered, LastOver, CallsFit, AllInKernelRegion, Segment.NumPages;
    KernelFits(mem, total, base, exe, |s|, segments, AS_WRITTEN);
    KernelVirtual(mem, total, s, base, exe, elf, segments);
    RegionIsUpper(segments, j);
    PageOf(segments, j, i, k);
    EveryPageIsTheFirst(Booted(mem, total), s, base, exe, elf, segments, j, i, PageByte(segments[j], i, k));
    CopiedImage(s, base, exe, elf, segments, j, segments[j].offset + k);
  }

  // ---- A segment of two pages ----

  const TWO_PAGES: Segment := Segment(1, 0x1000, KERNEL_REGION, 0x1800, 0x1800, 0x1000)

  lemma TwoPagesFit(s: seq<Byte>)
    requires |s| == 0x8000
    ensures TWO_PAGES.NumPages() == 2 && AllInKernelRegion([TWO_PAGES]) && AllPlaced(|s|, 0, 0x4000, [TWO_PAGES])
    ensures BufferFits([TWO_PAGES], 0x10_0000, |s|, 1) && Regular(s, 0x10_0000, 0, 0x4000, [TWO_PAGES], 0)
  {
    assert [TWO_PAGES][..0] == [];
    assert TableRoom([TWO_PAGES][..0]) == 0;
    assert TableRoom([TWO_PAGES]) == 6;
  }

  /** For instance: with a gigabyte of memory, the buffer at 1 MB and the file 16 KB above it, the first
      byte of the second page of this segment is read as the first byte of the first page. */
  lemma TwoPageSegment(mem: Memory, s: seq<Byte>)
    requires BootMemory(mem) && |s| == 0x8000
    ensures TWO_PAGES.NumPages() == 2
    ensures var end := KernelVia(Booted(mem, 0x4000_0000), s, 0x10_0000, PhysicalToVirtual(0x10_0000),
                                 PhysicalToVirtual(0x10_4000), [TWO_PAGES]);
            && end.Some?
            && LoadByte(end.value.0.mem, end.value.1, 0x10_0000, KERNEL_REGION) == Some(s[0x5000])
            && LoadByte(end.value.0.mem, end.value.1, 0x10_0000, KERNEL_REGION + 0x1000) == Some(s[0x5000])
  {
    hide Walk, BootMemory, Booted, PhysicalToVirtual, KernelVia, BufferFits, AllInKernelRegion, LoadByte, Regular,
         AllPlaced;
    TwoPagesFit(s);
    OneGigabyte();
    var end := KernelVia(Booted(mem, 0x4000_0000), s, 0x10_0000, PhysicalToVirtual(0x10_0000),
                         PhysicalToVirtual(0x10_4000), [TWO_PAGES]);
    BootedImage(mem, 0x4000_0000, s, 0x10_0000, 0, 0x4000, [TWO_PAGES], 0, 0, 0);
    BootedImage(mem, 0x4000_0000, s, 0x10_0000, 0, 0x4000, [TWO_PAGES], 0, 1, 0);
    assert Takes([TWO_PAGES][0], 0x1000);
    assert Covered([TWO_PAGES], 0x1000);
    assert ImageAt(s, 0, 0x4000, [TWO_PAGES], 0x1000) == s[0x5000];
  }

  // ---- Two segments close together in the file ----

  const SHORT: Segment := Segment(1, 0x1000, KERNEL_REGION, 0x200, 0x800, 0x1000)
  const NEXT: Segment := Segment(1, 0x1400, KERNEL_REGION + 0x1400, 0x100, 0x100, 0x1000)

  lemma CloseSegmentsFit(s: seq<Byte>)
    requires |s| == 0x8000
    ensures SHORT.NumPages() == 1 && AllInKernelRegion([SHORT, NEXT]) && AllPlaced(|s|, 0, 0x4000, [SHORT, NEXT])
    ensures BufferFits([SHORT, NEXT], 0x10_0000, |s|, 1) && Regular(s, 0x10_0000, 0, 0x4000, [SHORT, NEXT], 0)
    ensures PagesApart(SHORT, NEXT)
  {
    assert NEXT.NumPages() == 1;
    assert [SHORT, NEXT][..1] == [SHORT] && [SHORT][..0] == [];
    assert TableRoom([SHORT]) == 3 by { assert TableRoom([SHORT][..0]) == 0; }
    assert TableRoom([SHORT, NEXT]) == 6;
  }

  /** The first segment has 0x200 bytes in the file and should be zero from there to 0x800; but its byte
      0x400 is read as the first byte of the second segment, which is mapped elsewhere. */
  lemma CloseSegments(mem: Memory, s: seq<Byte>)
    requires BootMemory(mem) && |s| == 0x8000
    ensures SHORT.filesz <= 0x400 < SHORT.memsz
    ensures var end := KernelVia(Booted(mem, 0x4000_0000), s, 0x10_0000, PhysicalToVirtual(0x10_0000),
                                 PhysicalToVirtual(0x10_4000), [SHORT, NEXT]);
            end.Some? && LoadByte(end.value.0.mem, end.value.1, 0x10_0000, KERNEL_REGION + 0x400) == Some(s[0x5400])
  {
    hide Walk, BootMemory, Booted, PhysicalToVirtual, KernelVia, BufferFits, AllInKernelRegion, LoadByte, Regular,
         AllPlaced, PagesApart;
    CloseSegmentsFit(s);
    OneGigabyte();
    BootedImage(mem, 0x4000_0000, s, 0x10_0000, 0, 0x4000, [SHORT, NEXT], 0, 0, 0x400);
    assert Takes([SHORT, NEXT][1], 0x1400);
    assert Covered([SHORT, NEXT], 0x1400);
    assert ImageAt(s, 0, 0x4000, [SHORT, NEXT], 0x1400) == s[0x5400];
  }
}
