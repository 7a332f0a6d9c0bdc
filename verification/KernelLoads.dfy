/** What a load through the address space that map_kernel builds returns. */
module KernelLoads {
  import opened Bits
  import opened PageEntries
  import opened PageTables
  import opened Wrappers
  import opened PageTree
  import opened PageMapping
  import opened PageRuns
  import opened PageCounts
  import opened PhysicalMap
  import opened MemoryRoutines
  import opened KernelImage

  // ---- The buffer after the copies ----

  predicate SameAlign(segments: seq<Segment>, align: Word) {
    forall g | g in segments && g.Load() :: g.align == align
  }

  predicate Takes(g: Segment, y: int) { g.Load() && g.offset <= y < g.offset + g.filesz }

  /** Some load segment takes its bytes from file offset y. */
  predicate Covered(segments: seq<Segment>, y: int) {
    exists j | 0 <= j < |segments| :: Takes(segments[j], y)
  }

  /** Wherever load segments overlap or in whatever order they come, each byte below the file is the
      file byte `align` above its place when a segment covers that, and what it was otherwise. */
  lemma {:induction false} ImageByte(s: seq<Byte>, exe: nat, elf: nat, segments: seq<Segment>, align: Word, p: nat)
    requires AllPlaced(|s|, exe, elf, segments) && SameAlign(segments, align)
    requires p < elf <= |s|
    ensures var y := p - exe + align;
            && (Covered(segments, y) ==> 0 <= elf + y < |s|)
            && CopySegments(s, exe, elf, segments)[p] == if Covered(segments, y) then s[elf + y] else s[p]
  {
    if segments != [] {
      hide Copied, CopySegments, Covered, Placed, Takes;
      var k := |segments| - 1;
      var front, g, y := segments[..k], segments[k], p - exe + align;
      PlacedPart(|s|, exe, elf, segments, k);
      assert forall h | h in front :: h in segments;
      ImageByte(s, exe, elf, front, align, p);
      CoveredStep(segments, y);
      CopyLast(s, exe, elf, segments);
      if g.Load() {
        FileKept(s, exe, elf, front);
        LastCopyByte(s, CopySegments(s, exe, elf, front), exe, elf, g, p);
      }
    } else {
      assert CopySegments(s, exe, elf, segments) == s;
    }
  }

  // One copy from the file, which the copies before it have left as it was.
  lemma LastCopyByte(s: seq<Byte>, before: seq<Byte>, exe: nat, elf: nat, g: Segment, p: nat)
    requires |before| == |s| && elf <= |s| && before[elf..] == s[elf..]
    requires g.Load() && Placed(|s|, exe, elf, g) && p < elf
    ensures var y := p - exe + g.align;
            && (Takes(g, y) ==> 0 <= elf + y < |s|)
            && Copied(before, CopyDst(exe, g), elf + g.offset, g.filesz)[p] ==
               if Takes(g, y) then s[elf + y] else before[p]
  {
    hide Copied;
    var dst, y := CopyDst(exe, g), p - exe + g.align;
    CopiedByte(before, dst, elf + g.offset, g.filesz, p);
    if Takes(g, y) {
      SameFromFile(s, before, elf, elf + g.offset + (p - dst));
    }
  }

  lemma SameFromFile(s: seq<Byte>, s': seq<Byte>, elf: nat, at: nat)
    requires |s| == |s'| && elf <= at < |s| && s[elf..] == s'[elf..]
    ensures s[at] == s'[at]
  {
    assert s[at] == s[elf..][at - elf];
  }

  lemma CoveredStep(segments: seq<Segment>, y: int)
    requires segments != []
    ensures var k := |segments| - 1; Covered(segments, y) <==> Covered(segments[..k], y) || Takes(segments[k], y)
  {
    var k := |segments| - 1;
    if Covered(segments, y) {
      var j :| 0 <= j < |segments| && Takes(segments[j], y);
      assert j < k ==> segments[..k][j] == segments[j];
    }
    if Covered(segments[..k], y) {
      var j :| 0 <= j < k && Takes(segments[..k][j], y);
      assert segments[j] == segments[..k][j];
    }
  }

  lemma CopiedByte(m: seq<Byte>, dst: nat, src: nat, n: nat, p: nat)
    requires dst + n <= |m| && src + n <= |m| && p < |m|
    ensures Copied(m, dst, src, n)[p] == if dst <= p < dst + n then m[src + (p - dst)] else m[p]
  {
  }

  // ---- The mappings ----

  /** Page i of the segment is the page of x. */
  predicate MapsPage(g: Segment, i: nat, x: Word) {
    g.Load() && i < g.NumPages() && Node((g.vaddr + PAGE * i) % TWO_64, 4) == Node(x, 4)
  }

  /** Page i of segment j is the last one mapped over x. */
  ghost predicate LastOver(segments: seq<Segment>, j: nat, i: nat, x: Word)
    requires j < |segments|
  {
    && MapsPage(segments[j], i, x)
    && (forall i': nat | i < i' :: !MapsPage(segments[j], i', x))
    && (forall j': nat, i': nat | j < j' < |segments| :: !MapsPage(segments[j'], i', x))
  }

  predicate PagesFit(g: Segment) {
    g.vaddr + PAGE * g.NumPages() <= TWO_64 && Node(g.vaddr, 4) + g.NumPages() <= 0x10_0000_0000
  }

  // The page ranges do not meet, the page too many that NumPages may count included.
  predicate PagesApart(g: Segment, h: Segment) {
    Node(g.vaddr, 4) + g.NumPages() <= Node(h.vaddr, 4) || Node(h.vaddr, 4) + h.NumPages() <= Node(g.vaddr, 4)
  }

  /** Segments whose page ranges do not meet are each the last over all of their pages. */
  lemma ApartIsLast(segments: seq<Segment>, j: nat, i: nat, x: Word)
    requires j < |segments| && segments[j].Load() && i < segments[j].NumPages()
    requires Node(x, 4) == Node(segments[j].vaddr, 4) + i
    requires forall h | 0 <= h < |segments| && segments[h].Load() :: PagesFit(segments[h])
    requires forall h | j < h < |segments| && segments[h].Load() :: PagesApart(segments[j], segments[h])
    ensures LastOver(segments, j, i, x)
  {
    hide Node, Segment.NumPages;
    forall h: nat, k: nat | h < |segments|
      ensures MapsPage(segments[h], k, x) <==>
              segments[h].Load() && k < segments[h].NumPages() && Node(segments[h].vaddr, 4) + k == Node(x, 4)
    {
      if segments[h].Load() && k < segments[h].NumPages() {
        assert PagesFit(segments[h]);
        PageNumber(segments[h].vaddr, k);
      }
    }
  }

  lemma {:induction false} SkipCalls(mem: Memory, before: seq<Call>, after: seq<Call>, x: Word)
    requires forall c | c in after :: !c.Covers(x)
    ensures LastMapping(mem, before + after, x) == LastMapping(mem, before, x)
    decreases |after|
  {
    hide Node, Walk;
    var all := before + after;
    if after == [] {
      assert all == before;
    } else {
      var k := |after| - 1;
      assert all[..|all| - 1] == before + after[..k] && all[|all| - 1] == after[k];
      assert forall c | c in after[..k] :: c in after;
      SkipCalls(mem, before, after[..k], x);
    }
  }

  lemma {:induction false} OtherSegment(code: Word, g: Segment, stride: nat, n: nat, x: Word)
    requires n <= g.NumPages() && forall i: nat :: !MapsPage(g, i, x)
    requires g.Load()
    ensures forall c | c in SegmentCalls(code, g, stride, n) :: !c.Covers(x)
  {
    hide Node, FirstFrame;
    if n > 0 {
      OtherSegment(code, g, stride, n - 1, x);
      assert !MapsPage(g, n - 1, x);
    }
  }

  lemma {:induction false} SegmentLast(mem: Memory, before: seq<Call>, code: Word, g: Segment, stride: nat, n: nat,
                                       i: nat, x: Word)
    requires i < n <= g.NumPages() && MapsPage(g, i, x) && Canonical(x)
    requires forall i': nat | i < i' :: !MapsPage(g, i', x)
    ensures LastMapping(mem, before + SegmentCalls(code, g, stride, n), x) ==
            Mapped((FirstFrame(code, g) + stride * i) % TWO_64 + x % PAGE, true)
    decreases n
  {
    hide Node, FirstFrame, Walk;
    var mine := SegmentCalls(code, g, stride, n);
    var all := before + mine;
    assert all[|all| - 1] == mine[n - 1] && all[..|all| - 1] == before + SegmentCalls(code, g, stride, n - 1);
    if i < n - 1 {
      assert !MapsPage(g, n - 1, x);
      SegmentLast(mem, before, code, g, stride, n - 1, i, x);
    }
  }

  lemma {:induction false} KernelLast(mem: Memory, code: Word, segments: seq<Segment>, stride: nat, j: nat, i: nat,
                                      x: Word)
    requires j < |segments| && LastOver(segments, j, i, x) && Canonical(x)
    ensures LastMapping(mem, KernelCalls(code, segments, stride), x) ==
            Mapped((FirstFrame(code, segments[j]) + stride * i) % TWO_64 + x % PAGE, true)
    decreases |segments|
  {
    hide Node, FirstFrame, Walk, SegmentCalls, LastMapping, MapsPage;
    var k := |segments| - 1;
    var g, front := segments[k], segments[..k];
    if j == k {
      assert g.Load() && i < g.NumPages() by { MapsLoad(g, i, x); }
      SegmentLast(mem, KernelCalls(code, front, stride), code, g, stride, g.NumPages(), i, x);
    } else {
      assert LastOver(front, j, i, x);
      KernelLast(mem, code, front, stride, j, i, x);
      if g.Load() {
        OtherSegment(code, g, stride, g.NumPages(), x);
        SkipCalls(mem, KernelCalls(code, front, stride), SegmentCalls(code, g, stride, g.NumPages()), x);
      } else {
        assert KernelCalls(code, segments, stride) == KernelCalls(code, front, stride);
      }
    }
  }

  lemma MapsLoad(g: Segment, i: nat, x: Word)
    requires MapsPage(g, i, x)
    ensures g.Load() && i < g.NumPages()
  {
  }

  // ---- Loads ----

  // A load at x when memory from `base` on is `ram`.
  function LoadByte(mem: Memory, ram: seq<Byte>, base: nat, x: Word): Option<Byte> {
    match Walk(mem, x)
    case Mapped(p, _) => if base <= p < base + |ram| then Some(ram[p - base]) else None
    case Fault => None
  }

  /** The state in which map_kernel leaves the tables: legal calls, and tables clear of the buffer. */
  ghost predicate Built(m: Machine, base: nat, exe: nat, segments: seq<Segment>, stride: nat) {
    && Tree(m) && base + exe < TWO_64
    && CallsFit(m, KernelCalls(PhysicalToVirtual(base + exe), segments, stride), base)
  }

  function KernelMemory(m: Machine, base: nat, exe: nat, segments: seq<Segment>, stride: nat): Memory
    requires base + exe < TWO_64
  {
    Run(m, KernelCalls(PhysicalToVirtual(base + exe), segments, stride)).mem
  }

  /** The usual layout: everything page-aligned, `align` one page, physical memory below 2^45. */
  predicate Regular(s: seq<Byte>, base: nat, exe: nat, elf: nat, segments: seq<Segment>, j: nat) {
    && j < |segments| && segments[j].Load()
    && SameAlign(segments, PAGE) && AllPlaced(|s|, exe, elf, segments) && elf <= |s|
    && (base + exe) % PAGE == 0 && segments[j].offset % PAGE == 0 && segments[j].vaddr % PAGE == 0
    && base + |s| < 0x2000_0000_0000
  }

  // The place in memory, and the physical address, of the copy of file offset y.
  function BufferPlace(exe: nat, y: nat): int { exe + y - PAGE }

  function CopyPlace(base: nat, exe: nat, y: nat): int { base + BufferPlace(exe, y) }

  lemma FrameOfSegment(s: seq<Byte>, base: nat, exe: nat, elf: nat, segments: seq<Segment>, j: nat)
    requires Regular(s, base, exe, elf, segments, j)
    ensures base + exe < TWO_64
    ensures FirstFrame(PhysicalToVirtual(base + exe), segments[j]) == CopyPlace(base, exe, segments[j].offset)
    ensures CopyPlace(base, exe, segments[j].offset) % PAGE == 0
  {
    hide PhysicalToVirtual, FrameMask;
    var g := segments[j];
    assert Placed(|s|, exe, elf, g) && g.align == PAGE;
    var p := CopyPlace(base, exe, g.offset);
    OrIsAddition(base + exe);
    OrIsAddition(p);
    FrameMaskExact(p);
    AlignedSum(base + exe, g.offset);
    assert PhysicalToVirtual(base + exe) + g.offset - g.align == PhysicalToVirtual(p);
  }

  lemma AlignedSum(a: nat, b: nat)
    requires a % PAGE == 0 && b % PAGE == 0
    ensures (a + b - PAGE) % PAGE == 0
  {
  }

  // ---- The page loop as written ----

  /** Every page of a segment is the segment's first frame. */
  lemma EveryPageIsTheFirst(m: Machine, s: seq<Byte>, base: nat, exe: nat, elf: nat, segments: seq<Segment>, j: nat,
                            i: nat, x: Word)
    requires Regular(s, base, exe, elf, segments, j) && Built(m, base, exe, segments, AS_WRITTEN)
    requires LastOver(segments, j, i, x) && Canonical(x)
    ensures Walk(KernelMemory(m, base, exe, segments, AS_WRITTEN), x) ==
            Mapped(CopyPlace(base, exe, segments[j].offset) + x % PAGE, true)
  {
    hide Node, Walk, PhysicalToVirtual, FirstFrame, KernelCalls, Run, RunOk, Tree, LastMapping, LastOver, SameAlign,
         AllPlaced;
    BuiltWalk(m, base, exe, segments, AS_WRITTEN, j, i, x);
    FrameOfSegment(s, base, exe, elf, segments, j);
    assert CopyPlace(base, exe, segments[j].offset) < TWO_64 by { MaskedBelow(base, exe, segments[j]); }
  }

  // What the last call over x gives it.
  lemma BuiltWalk(m: Machine, base: nat, exe: nat, segments: seq<Segment>, stride: nat, j: nat, i: nat, x: Word)
    requires Built(m, base, exe, segments, stride) && j < |segments| && LastOver(segments, j, i, x) && Canonical(x)
    ensures Walk(KernelMemory(m, base, exe, segments, stride), x) ==
            Mapped((FirstFrame(PhysicalToVirtual(base + exe), segments[j]) + stride * i) % TWO_64 + x % PAGE, true)
  {
    hide Node, Walk, PhysicalToVirtual, FirstFrame, KernelCalls, Run, RunOk, Tree, LastMapping, LastOver;
    var code := PhysicalToVirtual(base + exe);
    RunWalk(m, KernelCalls(code, segments, stride), x);
    KernelLast(m.mem, code, segments, stride, j, i, x);
  }

  lemma MaskedBelow(base: nat, exe: nat, g: Segment)
    requires base + exe < TWO_64
    ensures FirstFrame(PhysicalToVirtual(base + exe), g) < TWO_64
  {
    hide PhysicalToVirtual, FrameMask;
    FrameMaskField((PhysicalToVirtual(base + exe) + g.offset - g.align) % TWO_64);
  }

  /** Page i of the segment goes to the frame that holds its own part of the copy. */
  predicate OwnFrame(mem: Memory, base: nat, exe: nat, g: Segment, i: nat, x: Word) {
    match Walk(mem, x)
    case Mapped(p, writable) => writable && p == CopyPlace(base, exe, g.offset) + PAGE * i + x % PAGE
    case Fault => false
  }

  /** A page gets its own frame exactly when it is the first page. */
  lemma OnlyFirstPageRight(m: Machine, s: seq<Byte>, base: nat, exe: nat, elf: nat, segments: seq<Segment>, j: nat,
                           i: nat, x: Word)
    requires Regular(s, base, exe, elf, segments, j) && Built(m, base, exe, segments, AS_WRITTEN)
    requires LastOver(segments, j, i, x) && Canonical(x)
    ensures OwnFrame(KernelMemory(m, base, exe, segments, AS_WRITTEN), base, exe, segments[j], i, x) <==> i == 0
  {
    hide Node, Walk, PhysicalToVirtual, KernelMemory, Built, LastOver;
    EveryPageIsTheFirst(m, s, base, exe, elf, segments, j, i, x);
  }

  // Page ranges in the upper half of the address space, each apart from segment j's.
  predicate UpperApart(segments: seq<Segment>, j: nat)
    requires j < |segments|
  {
    && (forall h | 0 <= h < |segments| && segments[h].Load() :: InUpperHalf(segments[h]))
    && (forall h | j < h < |segments| && segments[h].Load() :: PagesApart(segments[j], segments[h]))
  }

  predicate InUpperHalf(g: Segment) { g.vaddr >= WINDOW_BASE && PagesFit(g) }

  // Address k of the segment is in page k / PAGE and, unless a later segment is mapped over it, ends there.
  lemma PageOf(segments: seq<Segment>, j: nat, i: nat, k: nat)
    requires j < |segments| && segments[j].Load() && UpperApart(segments, j)
    requires segments[j].vaddr % PAGE == 0 && k < PAGE && i < segments[j].NumPages()
    ensures var x := segments[j].vaddr + PAGE * i + k;
            x < TWO_64 && Canonical(x) && x % PAGE == k && LastOver(segments, j, i, x)
  {
    hide Node, Segment.NumPages, LastOver, PagesApart;
    var g := segments[j];
    assert InUpperHalf(g);
    assert g.vaddr + PAGE * i + k < g.vaddr + PAGE * g.NumPages();
    InPage(g.vaddr, i, k);
    PageNumber(g.vaddr, i);
    SamePage(g.vaddr + PAGE * i, k);
    assert forall h | 0 <= h < |segments| && segments[h].Load() :: InUpperHalf(segments[h]) && PagesFit(segments[h]);
    ApartIsLast(segments, j, i, g.vaddr + PAGE * i + k);
  }

  // So is byte k of the segment, in page k / PAGE.
  lemma PageOfByte(segments: seq<Segment>, j: nat, k: nat)
    requires j < |segments| && segments[j].Load() && UpperApart(segments, j)
    requires segments[j].vaddr % PAGE == 0 && k < segments[j].memsz < TWO_64 - PAGE
    ensures k == PAGE * (k / PAGE) + k % PAGE && k % PAGE <= k
    ensures var x := segments[j].vaddr + k;
            x < TWO_64 && Canonical(x) && x % PAGE == k % PAGE && LastOver(segments, j, k / PAGE, x)
  {
    hide Node, UpperApart, LastOver, Canonical, Segment.NumPages;
    PageBefore(segments[j], k);
    PageOf(segments, j, k / PAGE, k % PAGE);
  }

  lemma PageBefore(g: Segment, k: nat)
    requires k < g.memsz < TWO_64 - PAGE
    ensures k / PAGE < g.NumPages()
  {
    NumPagesExact(g);
  }

  lemma SamePage(v: Word, k: nat)
    requires v % PAGE == 0 && k < PAGE && v + k < TWO_64
    ensures Node(v + k, 4) == Node(v, 4)
  {
  }

  /** So all pages of a segment get their own frames if and only if it has no more than one: by the
      rounding, if it is less than 4096 bytes long (or within 4096 bytes of 2^64). */
  lemma SinglePageExact(m: Machine, s: seq<Byte>, base: nat, exe: nat, elf: nat, segments: seq<Segment>, j: nat)
    requires Regular(s, base, exe, elf, segments, j) && Built(m, base, exe, segments, AS_WRITTEN)
    requires UpperApart(segments, j)
    ensures var g := segments[j];
            (forall i: nat, k: nat | i < g.NumPages() && k < PAGE ::
              OwnFrame(KernelMemory(m, base, exe, segments, AS_WRITTEN), base, exe, g, i, PageByte(g, i, k)))
            <==> g.memsz < PAGE || g.memsz >= TWO_64 - PAGE
  {
    hide Node, Walk, PhysicalToVirtual, KernelMemory, CallsFit, KernelCalls, LastOver, OwnFrame, UpperApart,
         Segment.NumPages, AllPlaced, SameAlign;
    var g := segments[j];
    var mem := KernelMemory(m, base, exe, segments, AS_WRITTEN);
    forall i: nat, k: nat | i < g.NumPages() && k < PAGE
      ensures OwnFrame(mem, base, exe, g, i, PageByte(g, i, k)) <==> i == 0
    {
      PageOf(segments, j, i, k);
      OnlyFirstPageRight(m, s, base, exe, elf, segments, j, i, PageByte(g, i, k));
    }
    NumPagesExact(g);
    if g.NumPages() > 1 {
      assert !OwnFrame(mem, base, exe, g, 1, PageByte(g, 1, 0));
    }
  }

  // Byte k of page i of the segment.
  function PageByte(g: Segment, i: nat, k: nat): Word {
    (g.vaddr + PAGE * i + k) % TWO_64
  }

  /** The page too many: with a size that is a multiple of 4 KB, the page after the segment is mapped to
      the segment's first frame as well, over the first page of any earlier segment placed there. */
  lemma ExtraPageOverrides(m: Machine, s: seq<Byte>, base: nat, exe: nat, elf: nat, segments: seq<Segment>, h: nat,
                           j: nat, k: nat)
    requires Regular(s, base, exe, elf, segments, j) && Built(m, base, exe, segments, AS_WRITTEN)
    requires h < j && segments[h].vaddr == segments[j].vaddr + segments[j].memsz && UpperApart(segments, j)
    requires segments[j].memsz % PAGE == 0 && segments[j].memsz < TWO_64 - PAGE && k < PAGE
    requires segments[h].vaddr + k < TWO_64
    ensures var (mem, x) := (KernelMemory(m, base, exe, segments, AS_WRITTEN), segments[h].vaddr + k);
            && Walk(mem, x) == Mapped(CopyPlace(base, exe, segments[j].offset) + k, true)
            && (OwnFrame(mem, base, exe, segments[h], 0, x) <==> segments[h].offset == segments[j].offset)
  {
    hide Node, Walk, PhysicalToVirtual, KernelMemory, CallsFit, KernelCalls, LastOver, UpperApart, AllPlaced, SameAlign,
         Segment.NumPages;
    var n := ExtraPage(segments[j]);
    PageOf(segments, j, n, k);
    EveryPageIsTheFirst(m, s, base, exe, elf, segments, j, n, segments[h].vaddr + k);
  }

  lemma ExtraPage(g: Segment) returns (n: nat)
    requires g.memsz % PAGE == 0 && g.memsz < TWO_64 - PAGE
    ensures g.memsz == PAGE * n && n < g.NumPages()
  {
    n := g.memsz / PAGE;
    NumPagesExact(g);
  }

  // ---- The image ----

  // What the copies leave at the place of file offset y: the file's byte if a segment covers y.
  function ImageAt(s: seq<Byte>, exe: nat, elf: nat, segments: seq<Segment>, y: nat): Byte
    requires 0 <= BufferPlace(exe, y) < |s| && (Covered(segments, y) ==> elf + y < |s|)
  {
    if Covered(segments, y) then s[elf + y] else s[BufferPlace(exe, y)]
  }

  lemma CopiedImage(s: seq<Byte>, base: nat, exe: nat, elf: nat, segments: seq<Segment>, j: nat, y: nat)
    requires Regular(s, base, exe, elf, segments, j) && segments[j].offset <= y && BufferPlace(exe, y) < elf
    ensures var p := BufferPlace(exe, y);
            && 0 <= p && (Covered(segments, y) ==> elf + y < |s|)
            && CopySegments(s, exe, elf, segments)[p] == ImageAt(s, exe, elf, segments, y)
    ensures y < segments[j].offset + segments[j].filesz ==> Covered(segments, y)
  {
    hide CopySegments;
    assert Placed(|s|, exe, elf, segments[j]);
    ImageByte(s, exe, elf, segments, PAGE, BufferPlace(exe, y));
    assert y < segments[j].offset + segments[j].filesz ==> Takes(segments[j], y);
  }

  /** The segment image, for the code as it stands: byte k of the first page is read from the copy of
      file offset `offset + k`. */
  lemma FirstPageImage(m: Machine, s: seq<Byte>, base: nat, exe: nat, elf: nat, segments: seq<Segment>, j: nat, k: nat,
                       x: Word)
    requires Regular(s, base, exe, elf, segments, j) && Built(m, base, exe, segments, AS_WRITTEN)
    requires x == segments[j].vaddr + k && k < PAGE && LastOver(segments, j, 0, x) && Canonical(x)
    requires BufferPlace(exe, segments[j].offset + k) < elf
    ensures var (ram, y) := (CopySegments(s, exe, elf, segments), segments[j].offset + k);
            && 0 <= BufferPlace(exe, y) && (Covered(segments, y) ==> elf + y < |s|)
            && (k < segments[j].filesz ==> Covered(segments, y))
            && LoadByte(KernelMemory(m, base, exe, segments, AS_WRITTEN), ram, base, x) ==
               Some(ImageAt(s, exe, elf, segments, y))
  {
    hide Node, Walk, PhysicalToVirtual, KernelMemory, Built, LastOver, CopySegments, Covered, ImageAt;
    EveryPageIsTheFirst(m, s, base, exe, elf, segments, j, 0, x);
    assert x % PAGE == k;
    CopiedImage(s, base, exe, elf, segments, j, segments[j].offset + k);
  }

  /** With the marked correction (the frame advancing with the page) that is so throughout the segment. */
  lemma CorrectedImage(m: Machine, s: seq<Byte>, base: nat, exe: nat, elf: nat, segments: seq<Segment>, j: nat, i: nat,
                       k: nat, x: Word)
    requires Regular(s, base, exe, elf, segments, j) && Built(m, base, exe, segments, CORRECTED)
    requires x == segments[j].vaddr + PAGE * i + k && k < PAGE && LastOver(segments, j, i, x) && Canonical(x)
    requires BufferPlace(exe, segments[j].offset + PAGE * i + k) < elf
    ensures var (ram, y) := (CopySegments(s, exe, elf, segments), segments[j].offset + PAGE * i + k);
            && 0 <= BufferPlace(exe, y) && (Covered(segments, y) ==> elf + y < |s|)
            && (PAGE * i + k < segments[j].filesz ==> Covered(segments, y))
            && LoadByte(KernelMemory(m, base, exe, segments, CORRECTED), ram, base, x) ==
               Some(ImageAt(s, exe, elf, segments, y))
  {
    hide Node, Walk, PhysicalToVirtual, KernelMemory, Built, LastOver, CopySegments, Covered, ImageAt, AllPlaced,
         SameAlign;
    CorrectedWalk(m, s, base, exe, elf, segments, j, i, x);
    InPage(segments[j].vaddr, i, k);
    CopiedImage(s, base, exe, elf, segments, j, segments[j].offset + PAGE * i + k);
  }

  lemma CorrectedWalk(m: Machine, s: seq<Byte>, base: nat, exe: nat, elf: nat, segments: seq<Segment>, j: nat, i: nat,
                      x: Word)
    requires Regular(s, base, exe, elf, segments, j) && Built(m, base, exe, segments, CORRECTED)
    requires LastOver(segments, j, i, x) && Canonical(x) && BufferPlace(exe, segments[j].offset + PAGE * i) < elf
    ensures var p := CopyPlace(base, exe, segments[j].offset) + PAGE * i;
            p >= 0 && Walk(KernelMemory(m, base, exe, segments, CORRECTED), x) == Mapped(p + x % PAGE, true)
  {
    hide Node, Walk, PhysicalToVirtual, FirstFrame, KernelMemory, CallsFit, LastOver, AllPlaced, SameAlign;
    FrameOfSegment(s, base, exe, elf, segments, j);
    BuiltWalk(m, base, exe, segments, CORRECTED, j, i, x);
  }

  lemma InPage(v: nat, i: nat, k: nat)
    requires v % PAGE == 0 && k < PAGE
    ensures (v + PAGE * i + k) % PAGE == k
  {
  }

  /** A load of byte k of the segment returns what an ELF loader owes the program. */
  predicate ByteDue(mem: Memory, ram: seq<Byte>, base: nat, s: seq<Byte>, elf: nat, g: Segment, k: nat) {
    && (k < g.filesz ==> elf + g.offset + k < |s|)
    && LoadByte(mem, ram, base, (g.vaddr + k) % TWO_64) == Some(if k < g.filesz then s[elf + g.offset + k] else 0)
  }

  /** A segment has a byte other than zero at the file offset that byte k of g would have. */
  predicate Overlaid(s: seq<Byte>, elf: nat, segments: seq<Segment>, g: Segment, k: nat) {
    Covered(segments, g.offset + k) && elf + g.offset + k < |s| && s[elf + g.offset + k] != 0
  }

  // The segment's image in memory lies in the buffer, which was zero there.
  predicate ZeroedFor(s: seq<Byte>, exe: nat, elf: nat, g: Segment) {
    && BufferPlace(exe, g.offset + g.memsz) <= elf <= |s|
    && forall y: nat | g.offset <= y < g.offset + g.memsz && 0 <= BufferPlace(exe, y) :: s[BufferPlace(exe, y)] == 0
  }

  /** Even then the rest of the segment, between its size in the file and its size in memory, is
      zero only where no other segment has non-zero bytes at the same file offsets: all copies go by
      file offset. Exactly then every byte of the segment is what the program is owed. */
  lemma CorrectedImageExact(m: Machine, s: seq<Byte>, base: nat, exe: nat, elf: nat, segments: seq<Segment>, j: nat)
    requires Regular(s, base, exe, elf, segments, j) && Built(m, base, exe, segments, CORRECTED)
    requires UpperApart(segments, j) && ZeroedFor(s, exe, elf, segments[j])
    requires segments[j].filesz <= segments[j].memsz < TWO_64 - PAGE
    ensures var (g, ram, mem) := (segments[j], CopySegments(s, exe, elf, segments),
                                  KernelMemory(m, base, exe, segments, CORRECTED));
            (forall k: nat | k < g.memsz :: ByteDue(mem, ram, base, s, elf, g, k))
            <==> (forall k: nat | g.filesz <= k < g.memsz :: !Overlaid(s, elf, segments, g, k))
  {
    hide Node, Walk, PhysicalToVirtual, KernelMemory, Built, LastOver, CopySegments, Covered, UpperApart, LoadByte;
    var (g, ram, mem) := (segments[j], CopySegments(s, exe, elf, segments),
                          KernelMemory(m, base, exe, segments, CORRECTED));
    forall k: nat | k < g.memsz
      ensures ByteDue(mem, ram, base, s, elf, g, k) <==> k < g.filesz || !Overlaid(s, elf, segments, g, k)
    {
      CorrectedByte(m, s, base, exe, elf, segments, j, k);
      assert g.offset <= g.offset + k < g.offset + g.memsz;
    }
  }

  lemma CorrectedByte(m: Machine, s: seq<Byte>, base: nat, exe: nat, elf: nat, segments: seq<Segment>, j: nat, k: nat)
    requires Regular(s, base, exe, elf, segments, j) && Built(m, base, exe, segments, CORRECTED)
    requires UpperApart(segments, j) && BufferPlace(exe, segments[j].offset + segments[j].memsz) <= elf
    requires k < segments[j].memsz < TWO_64 - PAGE
    ensures var (g, y) := (segments[j], segments[j].offset + k);
            && 0 <= BufferPlace(exe, y) && (Covered(segments, y) ==> elf + y < |s|)
            && (k < g.filesz ==> Covered(segments, y))
            && LoadByte(KernelMemory(m, base, exe, segments, CORRECTED), CopySegments(s, exe, elf, segments), base,
                        (g.vaddr + k) % TWO_64) == Some(ImageAt(s, exe, elf, segments, y))
  {
    hide Node, Walk, PhysicalToVirtual, KernelMemory, Built, LastOver, CopySegments, Covered, UpperApart, LoadByte,
         ImageAt;
    PageOfByte(segments, j, k);
    CorrectedImage(m, s, base, exe, elf, segments, j, k / PAGE, k % PAGE, segments[j].vaddr + k);
  }

  // ---- The segment as written ----

  // What the copies leave at file offset y of a zeroed buffer.
  function Held(s: seq<Byte>, elf: nat, segments: seq<Segment>, y: nat): Byte {
    if Covered(segments, y) && elf + y < |s| then s[elf + y] else 0
  }

  /** Byte k of the segment is, in the file, what the copies leave at its place in the first page. */
  predicate FirstPageHolds(s: seq<Byte>, elf: nat, segments: seq<Segment>, g: Segment, k: nat) {
    && (k < g.filesz ==> elf + g.offset + k < |s|)
    && Held(s, elf, segments, g.offset + k % PAGE) == if k < g.filesz then s[elf + g.offset + k] else 0
  }

  lemma WrittenByte(m: Machine, s: seq<Byte>, base: nat, exe: nat, elf: nat, segments: seq<Segment>, j: nat, k: nat)
    requires Regular(s, base, exe, elf, segments, j) && Built(m, base, exe, segments, AS_WRITTEN)
    requires UpperApart(segments, j) && ZeroedFor(s, exe, elf, segments[j])
    requires k < segments[j].memsz < TWO_64 - PAGE
    ensures var g := segments[j];
            LoadByte(KernelMemory(m, base, exe, segments, AS_WRITTEN), CopySegments(s, exe, elf, segments), base,
                     (g.vaddr + k) % TWO_64) == Some(Held(s, elf, segments, g.offset + k % PAGE))
  {
    hide Node, Walk, PhysicalToVirtual, KernelMemory, CallsFit, LastOver, CopySegments, Covered, UpperApart, AllPlaced,
         SameAlign;
    var g, r := segments[j], k % PAGE;
    PageOfByte(segments, j, k);
    EveryPageIsTheFirst(m, s, base, exe, elf, segments, j, k / PAGE, g.vaddr + k);
    CopiedImage(s, base, exe, elf, segments, j, g.offset + r);
    assert g.offset <= g.offset + r < g.offset + g.memsz;
  }

  /** For the code as it stands and a zeroed buffer, whatever the segment's size: every byte of it is
      what the program is owed if and only if its first page, as the copies leave it, repeats
      throughout the segment in the file. */
  lemma WrittenImageExact(m: Machine, s: seq<Byte>, base: nat, exe: nat, elf: nat, segments: seq<Segment>, j: nat)
    requires Regular(s, base, exe, elf, segments, j) && Built(m, base, exe, segments, AS_WRITTEN)
    requires UpperApart(segments, j) && ZeroedFor(s, exe, elf, segments[j])
    requires segments[j].filesz <= segments[j].memsz < TWO_64 - PAGE
    ensures var (g, ram, mem) := (segments[j], CopySegments(s, exe, elf, segments),
                                  KernelMemory(m, base, exe, segments, AS_WRITTEN));
            (forall k: nat | k < g.memsz :: ByteDue(mem, ram, base, s, elf, g, k))
            <==> (forall k: nat | k < g.memsz :: FirstPageHolds(s, elf, segments, g, k))
  {
    hide Node, Walk, PhysicalToVirtual, KernelMemory, CallsFit, KernelCalls, LastOver, CopySegments, Covered,
         UpperApart, LoadByte, AllPlaced, SameAlign, ZeroedFor, Held;
    var (g, ram, mem) := (segments[j], CopySegments(s, exe, elf, segments),
                          KernelMemory(m, base, exe, segments, AS_WRITTEN));
    forall k: nat | k < g.memsz
      ensures ByteDue(mem, ram, base, s, elf, g, k) <==> FirstPageHolds(s, elf, segments, g, k)
    {
      WrittenByte(m, s, base, exe, elf, segments, j, k);
    }
  }

  /** In particular, for a segment of at most one page: if and only if no load segment has a byte other
      than zero at a file offset between the segment's size in the file and its size in memory. */
  lemma OnePageImageExact(m: Machine, s: seq<Byte>, base: nat, exe: nat, elf: nat, segments: seq<Segment>, j: nat)
    requires Regular(s, base, exe, elf, segments, j) && Built(m, base, exe, segments, AS_WRITTEN)
    requires UpperApart(segments, j) && ZeroedFor(s, exe, elf, segments[j])
    requires segments[j].filesz <= segments[j].memsz <= PAGE
    ensures var (g, ram, mem) := (segments[j], CopySegments(s, exe, elf, segments),
                                  KernelMemory(m, base, exe, segments, AS_WRITTEN));
            (forall k: nat | k < g.memsz :: ByteDue(mem, ram, base, s, elf, g, k))
            <==> (forall k: nat | g.filesz <= k < g.memsz :: !Overlaid(s, elf, segments, g, k))
  {
    hide Node, Walk, PhysicalToVirtual, KernelMemory, Built, LastOver, CopySegments, Covered, UpperApart, LoadByte,
         ByteDue;
    WrittenImageExact(m, s, base, exe, elf, segments, j);
    var g := segments[j];
    forall k: nat | k < g.memsz
      ensures FirstPageHolds(s, elf, segments, g, k) <==> k < g.filesz || !Overlaid(s, elf, segments, g, k)
    {
      assert k % PAGE == k;
      if k < g.filesz {
        CopiedImage(s, base, exe, elf, segments, j, g.offset + k);
      }
    }
  }
}
