/** map_kernel: copying the load segments of an ELF file into a buffer and mapping their pages, and
    what a load through the resulting address space returns. */
module KernelImage {
  import opened Bits
  import opened PageEntries
  import opened PageTables
  import opened PageTree
  import opened PageMapping
  import opened PageRuns
  import opened PageCounts
  import opened PageMapper
  import opened PhysicalMap
  import opened MemoryRoutines

  // ---- The file ----

  datatype Segment = Segment(kind: nat, offset: Word, vaddr: Word, filesz: Word, memsz: Word, align: Word) {
    predicate Load() { kind == 1 }

    // The size, less what it has over a multiple of 4 KB, plus 4 KB, in 64 bits.
    function NumPages(): nat { (memsz + PAGE - memsz % PAGE) % TWO_64 / PAGE }
  }

  /** The rounding gives the number of pages that hold the segment exactly when the size is no
      multiple of 4 KB and the sum does not wrap. */
  lemma NumPagesExact(g: Segment)
    ensures g.NumPages() == (g.memsz + 0xFFF) / PAGE <==> g.memsz % PAGE != 0 && g.memsz < TWO_64 - PAGE
    ensures g.NumPages() ==
            if g.memsz >= TWO_64 - PAGE then 0
            else (g.memsz + 0xFFF) / PAGE + if g.memsz % PAGE == 0 then 1 else 0
  {
    var q, r := g.memsz / PAGE, g.memsz % PAGE;
    assert g.memsz == q * PAGE + r;
    assert g.memsz + PAGE - r == (q + 1) * PAGE;
    assert (g.memsz + 0xFFF) / PAGE == if r == 0 then q else q + 1;
  }

  /** For instance, two pages for a segment of 4096 bytes, and one for an empty segment. */
  lemma OnePageTooMany(offset: Word, vaddr: Word, filesz: Word, align: Word)
    ensures Segment(1, offset, vaddr, filesz, 0x1000, align).NumPages() == 2
    ensures Segment(1, offset, vaddr, filesz, 0, align).NumPages() == 1
  {
  }

  // A little-endian field of n bytes.
  function Field(s: seq<Byte>, at: nat, n: nat): nat
    requires at + n <= |s|
    decreases n
  {
    if n == 0 then 0 else s[at] + 0x100 * Field(s, at + 1, n - 1)
  }

  lemma {:induction false} FieldFits(s: seq<Byte>, at: nat, n: nat)
    requires at + n <= |s|
    ensures Field(s, at, n) < Pow2(8 * n)
    decreases n
  {
    if n > 0 {
      FieldFits(s, at + 1, n - 1);
      BytePow(n);
    }
  }

  lemma BytePow(n: nat)
    requires n > 0
    ensures Pow2(8 * n) == 0x100 * Pow2(8 * (n - 1))
  {
    hide Pow2;
    PowAdd(8, 8 * (n - 1));
    BytePowers();
  }

  function U64(s: seq<Byte>, at: nat): Word
    requires at + 8 <= |s|
  {
    FieldFits(s, at, 8);
    Powers();
    Field(s, at, 8)
  }

  const FILE_HEADER: nat := 64
  const PROGRAM_HEADER: nat := 56

  // ELF64ProgramHeader
  function SegmentAt(s: seq<Byte>, at: nat): Segment
    requires at + PROGRAM_HEADER <= |s|
  {
    Segment(Field(s, at, 4), U64(s, at + 8), U64(s, at + 16), U64(s, at + 32), U64(s, at + 40), U64(s, at + 48))
  }

  // The program header table, of which the do-while loop always visits the first entry.
  function TableStart(s: seq<Byte>, elf: nat): nat
    requires elf + FILE_HEADER <= |s|
  {
    elf + U64(s, elf + 32)
  }

  function HeaderSize(s: seq<Byte>, elf: nat): nat
    requires elf + FILE_HEADER <= |s|
  {
    Field(s, elf + 54, 2)
  }

  function HeaderCount(s: seq<Byte>, elf: nat): nat
    requires elf + FILE_HEADER <= |s|
  {
    if Field(s, elf + 56, 2) == 0 then 1 else Field(s, elf + 56, 2)
  }

  predicate HeadersInside(s: seq<Byte>, elf: nat) {
    && elf + FILE_HEADER <= |s|
    && TableStart(s, elf) + HeaderSize(s, elf) * (HeaderCount(s, elf) - 1) + PROGRAM_HEADER <= |s|
  }

  lemma FileInside(s: seq<Byte>, elf: nat)
    requires HeadersInside(s, elf)
    ensures elf + FILE_HEADER <= |s|
  {
  }

  lemma HeaderInside(s: seq<Byte>, elf: nat, j: nat)
    requires HeadersInside(s, elf) && j < HeaderCount(s, elf)
    ensures elf + FILE_HEADER <= |s| && HeaderSize(s, elf) * j >= 0
    ensures TableStart(s, elf) + HeaderSize(s, elf) * j + PROGRAM_HEADER <= |s|
  {
    hide TableStart, HeaderSize, HeaderCount;
    assert HeaderSize(s, elf) * j <= HeaderSize(s, elf) * (HeaderCount(s, elf) - 1);
  }

  function HeaderPlace(s: seq<Byte>, elf: nat, j: nat): (at: nat)
    requires HeadersInside(s, elf) && elf + FILE_HEADER <= |s| && j < HeaderCount(s, elf)
    ensures at + PROGRAM_HEADER <= |s|
  {
    hide TableStart, HeaderSize, HeaderCount, HeadersInside;
    HeaderInside(s, elf, j);
    TableStart(s, elf) + HeaderSize(s, elf) * j
  }

  function Segments(s: seq<Byte>, elf: nat, n: nat): (r: seq<Segment>)
    requires HeadersInside(s, elf) && n <= HeaderCount(s, elf)
    ensures |r| == n
  {
    hide HeadersInside, HeaderCount, SegmentAt;
    if n == 0 then []
    else Segments(s, elf, n - 1) + [SegmentAt(s, HeaderPlace(s, elf, n - 1))]
  }

  // ---- The copies ----

  // Where the copy of the segment goes: below the buffer when the offset is less than `align`.
  function CopyDst(exe: nat, g: Segment): int { exe + g.offset - g.align }

  /** The segment's bytes are in memory, and their copy ends below the file. */
  predicate Placed(length: nat, exe: nat, elf: nat, g: Segment) {
    && exe <= elf && 0 <= CopyDst(exe, g)
    && elf + g.offset + g.filesz <= length
    && CopyDst(exe, g) + g.filesz <= elf
  }

  predicate AllPlaced(length: nat, exe: nat, elf: nat, segments: seq<Segment>) {
    forall g | g in segments && g.Load() :: Placed(length, exe, elf, g)
  }

  function CopySegments(s: seq<Byte>, exe: nat, elf: nat, segments: seq<Segment>): (r: seq<Byte>)
    requires AllPlaced(|s|, exe, elf, segments)
    ensures |r| == |s|
  {
    if segments == [] then s
    else
      var k := |segments| - 1;
      var g := segments[k];
      assert forall h | h in segments[..k] :: h in segments;
      var before := CopySegments(s, exe, elf, segments[..k]);
      if g.Load() then Copied(before, CopyDst(exe, g), elf + g.offset, g.filesz) else before
  }

  // ---- The mappings ----

  // What the loop adds to the frame for each page: nothing as the source stands.
  const AS_WRITTEN: nat := 0
  // Marked correction, not in the source: the frame advances with the page.
  const CORRECTED: nat := 0x1000

  // The buffer is addressed through the window; `code` is its virtual address.
  function FirstFrame(code: Word, g: Segment): nat {
    FrameMask((code + g.offset - g.align) % TWO_64)
  }

  function SegmentCalls(code: Word, g: Segment, stride: nat, n: nat): (r: seq<Call>)
    ensures |r| == n
  {
    if n == 0 then []
    else
      SegmentCalls(code, g, stride, n - 1) +
        [Page4K((g.vaddr + PAGE * (n - 1)) % TWO_64, (FirstFrame(code, g) + stride * (n - 1)) % TWO_64)]
  }

  function KernelCalls(code: Word, segments: seq<Segment>, stride: nat): seq<Call> {
    if segments == [] then []
    else
      var k := |segments| - 1;
      var g := segments[k];
      KernelCalls(code, segments[..k], stride) +
        if g.Load() then SegmentCalls(code, g, stride, g.NumPages()) else []
  }

  // ---- map_kernel ----

  function AllSegments(s: seq<Byte>, elf: nat): seq<Segment>
    requires HeadersInside(s, elf)
  {
    hide HeaderCount;
    FileInside(s, elf);
    Segments(s, elf, HeaderCount(s, elf))
  }

  /** The calls are legal, and the tables they take end below physical address `base`. */
  ghost predicate CallsFit(m: Machine, calls: seq<Call>, base: nat) {
    RunOk(m, calls) && Run(m, calls).it <= base
  }

  /** What map_kernel takes for granted: the headers and segments lie in memory, no copy reaches the
      file, the calls it makes are legal, and the tables they take stay clear of the buffer. */
  ghost predicate KernelOk(m: Machine, s: seq<Byte>, base: nat, exe: nat, elf: nat) {
    hide AllSegments, KernelCalls, PhysicalToVirtual, HeadersInside;
    && HeadersInside(s, elf) && exe <= elf <= |s| && base + |s| < TWO_64
    && AllPlaced(|s|, exe, elf, AllSegments(s, elf))
    && CallsFit(m, KernelCalls(PhysicalToVirtual(base + exe), AllSegments(s, elf), AS_WRITTEN), base)
  }

  function TotalSize(segments: seq<Segment>): (r: nat)
    ensures r < TWO_64
  {
    if segments == [] then 0
    else
      var g := segments[|segments| - 1];
      (TotalSize(segments[..|segments| - 1]) + if g.Load() then g.memsz else 0) % TWO_64
  }

  lemma {:induction false} FieldSame(s: seq<Byte>, s': seq<Byte>, elf: nat, at: nat, n: nat)
    requires |s| == |s'| && elf <= at && at + n <= |s| && s[elf..] == s'[elf..]
    ensures Field(s, at, n) == Field(s', at, n)
    decreases n
  {
    if n > 0 {
      assert s[at] == s[elf..][at - elf] == s'[at];
      FieldSame(s, s', elf, at + 1, n - 1);
    }
  }

  lemma SegmentSame(s: seq<Byte>, s': seq<Byte>, elf: nat, at: nat)
    requires |s| == |s'| && elf <= at && at + PROGRAM_HEADER <= |s| && s[elf..] == s'[elf..]
    ensures SegmentAt(s, at) == SegmentAt(s', at)
  {
    hide Field;
    FieldSame(s, s', elf, at, 4);
    FieldSame(s, s', elf, at + 8, 8);
    FieldSame(s, s', elf, at + 16, 8);
    FieldSame(s, s', elf, at + 32, 8);
    FieldSame(s, s', elf, at + 40, 8);
    FieldSame(s, s', elf, at + 48, 8);
  }

  // Copies end below the file, so they leave it as it is.
  lemma {:induction false} FileKept(s: seq<Byte>, exe: nat, elf: nat, segments: seq<Segment>)
    requires AllPlaced(|s|, exe, elf, segments) && elf <= |s|
    ensures CopySegments(s, exe, elf, segments)[elf..] == s[elf..]
  {
    if segments != [] {
      hide Copied;
      var k := |segments| - 1;
      assert forall h | h in segments[..k] :: h in segments;
      FileKept(s, exe, elf, segments[..k]);
      var g := segments[k];
      if g.Load() {
        var before := CopySegments(s, exe, elf, segments[..k]);
        CopiedAbove(before, CopyDst(exe, g), elf + g.offset, g.filesz, elf);
      }
    }
  }

  lemma CopiedAbove(m: seq<Byte>, dst: nat, src: nat, n: nat, limit: nat)
    requires dst + n <= limit <= |m| && src + n <= |m|
    ensures Copied(m, dst, src, n)[limit..] == m[limit..]
  {
  }

  // ---- The loops of map_kernel ----

  // The page loop makes consecutive calls, so the bounds on tables hold for it.
  lemma SegmentIsContiguous(code: Word, g: Segment, stride: nat, n: nat)
    requires g.vaddr + n * PAGE <= TWO_64
    ensures Contiguous(SegmentCalls(code, g, stride, n), g.vaddr)
  {
    hide FirstFrame, SegmentCalls;
    var calls := SegmentCalls(code, g, stride, n);
    forall i | 0 <= i < n
      ensures calls[i].Page4K? && calls[i].va == g.vaddr + i * PAGE
    {
      CallAt(code, g, stride, i, n);
    }
  }

  lemma {:induction false} SegmentPrefix(code: Word, g: Segment, stride: nat, i: nat, n: nat)
    requires i <= n
    ensures SegmentCalls(code, g, stride, n)[..i] == SegmentCalls(code, g, stride, i)
    decreases n
  {
    hide FirstFrame;
    if i < n {
      SegmentPrefix(code, g, stride, i, n - 1);
      assert SegmentCalls(code, g, stride, n)[..i] == SegmentCalls(code, g, stride, n - 1)[..i];
    }
  }

  lemma {:induction false} KernelPrefix(code: Word, segments: seq<Segment>, stride: nat, j: nat)
    requires j <= |segments|
    ensures KernelCalls(code, segments[..j], stride) <= KernelCalls(code, segments, stride)
    decreases |segments|
  {
    hide SegmentCalls;
    if j < |segments| {
      var front := segments[..|segments| - 1];
      KernelPrefix(code, front, stride, j);
      assert front[..j] == segments[..j];
    } else {
      assert segments[..j] == segments;
    }
  }

  // The inner loop: the pages of one load segment.
  method MapPages(mapper: Mapper, code: Word, g: Segment, ghost m: Machine, ghost before: seq<Call>,
                  ghost all: seq<Call>)
    requires Tree(m) && RunOk(m, all) && before + SegmentCalls(code, g, AS_WRITTEN, g.NumPages()) <= all
    requires mapper.State() == Run(m, before)
    modifies mapper`it, mapper.words
    ensures mapper.State() == Run(m, before + SegmentCalls(code, g, AS_WRITTEN, g.NumPages()))
  {
    hide Tree, RunOk, Run, Map4K, Mappable, SegmentCalls, FirstFrame;
    ghost var n := g.NumPages();
    ghost var mine := SegmentCalls(code, g, AS_WRITTEN, n);
    var numPages := g.NumPages();
    SegmentPrefix(code, g, AS_WRITTEN, 0, n);
    assert before + mine[..0] == before;
    for i := 0 to numPages
      invariant mapper.State() == Run(m, before + mine[..i])
    {
      var vaddr := (g.vaddr + PAGE * i) % TWO_64;
      var frame := FirstFrame(code, g) % TWO_64;
      SegmentPrefix(code, g, AS_WRITTEN, i + 1, n);
      assert mine[i] == Page4K(vaddr, frame) by { PageCall(code, g, i); }
      ghost var k := |before| + i;
      assert all[..k] == before + mine[..i] && all[k] == mine[i];
      assert all[..k + 1] == before + mine[..i + 1];
      CanCall(m, all, k);
      mapper.Map4kbPage(vaddr, frame);
    }
    assert mine[..n] == mine;
  }

  lemma PageCall(code: Word, g: Segment, i: nat)
    requires i < g.NumPages()
    ensures SegmentCalls(code, g, AS_WRITTEN, g.NumPages())[i] ==
            Page4K((g.vaddr + PAGE * i) % TWO_64, FirstFrame(code, g) % TWO_64)
  {
    CallAt(code, g, AS_WRITTEN, i, g.NumPages());
  }

  lemma {:induction false} CallAt(code: Word, g: Segment, stride: nat, i: nat, n: nat)
    requires i < n
    ensures SegmentCalls(code, g, stride, n)[i] ==
            Page4K((g.vaddr + PAGE * i) % TWO_64, (FirstFrame(code, g) + stride * i) % TWO_64)
    decreases n
  {
    hide FirstFrame;
    if i < n - 1 {
      CallAt(code, g, stride, i, n - 1);
    }
  }

  lemma SegmentStep(s: seq<Byte>, elf: nat, j: nat)
    requires HeadersInside(s, elf) && elf + FILE_HEADER <= |s| && j < HeaderCount(s, elf)
    ensures AllSegments(s, elf)[..j + 1] == AllSegments(s, elf)[..j] + [SegmentAt(s, HeaderPlace(s, elf, j))]
    ensures AllSegments(s, elf)[j] == SegmentAt(s, HeaderPlace(s, elf, j))
    ensures |AllSegments(s, elf)| == HeaderCount(s, elf)
  {
    hide HeadersInside, HeaderCount, HeaderPlace, SegmentAt;
    SegmentsPrefix(s, elf, j, HeaderCount(s, elf));
    SegmentsPrefix(s, elf, j + 1, HeaderCount(s, elf));
  }

  lemma {:induction false} SegmentsPrefix(s: seq<Byte>, elf: nat, j: nat, n: nat)
    requires HeadersInside(s, elf) && elf + FILE_HEADER <= |s| && j <= n <= HeaderCount(s, elf)
    ensures Segments(s, elf, n)[..j] == Segments(s, elf, j)
    decreases n
  {
    hide HeadersInside, HeaderCount, HeaderPlace, SegmentAt;
    if j < n {
      SegmentsPrefix(s, elf, j, n - 1);
      assert Segments(s, elf, n)[..j] == Segments(s, elf, n - 1)[..j];
    }
  }

  lemma KernelStep(code: Word, segments: seq<Segment>, j: nat)
    requires j < |segments|
    ensures KernelCalls(code, segments[..j + 1], AS_WRITTEN) ==
            if segments[j].Load() then
              KernelCalls(code, segments[..j], AS_WRITTEN) +
                SegmentCalls(code, segments[j], AS_WRITTEN, segments[j].NumPages())
            else KernelCalls(code, segments[..j], AS_WRITTEN)
    ensures TotalSize(segments[..j + 1]) ==
            if segments[j].Load() then (TotalSize(segments[..j]) + segments[j].memsz) % TWO_64
            else TotalSize(segments[..j])
  {
    hide SegmentCalls;
    assert segments[..j + 1][..j] == segments[..j];
  }

  lemma PlacedPart(length: nat, exe: nat, elf: nat, segments: seq<Segment>, j: nat)
    requires AllPlaced(length, exe, elf, segments) && j <= |segments|
    ensures AllPlaced(length, exe, elf, segments[..j])
    ensures j < |segments| && segments[j].Load() ==> Placed(length, exe, elf, segments[j])
  {
    assert forall g | g in segments[..j] :: g in segments;
  }

  lemma CopyLast(s: seq<Byte>, exe: nat, elf: nat, segments: seq<Segment>)
    requires segments != [] && AllPlaced(|s|, exe, elf, segments)
    requires AllPlaced(|s|, exe, elf, segments[..|segments| - 1])
    ensures var g := segments[|segments| - 1];
            CopySegments(s, exe, elf, segments) ==
            if g.Load() then
              Copied(CopySegments(s, exe, elf, segments[..|segments| - 1]), CopyDst(exe, g), elf + g.offset, g.filesz)
            else CopySegments(s, exe, elf, segments[..|segments| - 1])
  {
    hide Copied;
  }

  // The body of the outer loop for one load segment.
  method LoadSegment(mapper: Mapper, ram: array<Byte>, base: nat, exe: nat, elf: nat, g: Segment,
                     ghost m: Machine, ghost before: seq<Call>, ghost all: seq<Call>)
    requires ram as object != mapper.words && base + exe < TWO_64 && Placed(ram.Length, exe, elf, g)
    requires Tree(m) && RunOk(m, all) && mapper.State() == Run(m, before)
    requires before + SegmentCalls(PhysicalToVirtual(base + exe), g, AS_WRITTEN, g.NumPages()) <= all
    modifies mapper`it, mapper.words, ram
    ensures ram[..] == Copied(old(ram[..]), CopyDst(exe, g), elf + g.offset, g.filesz)
    ensures mapper.State() == Run(m, before + SegmentCalls(PhysicalToVirtual(base + exe), g, AS_WRITTEN, g.NumPages()))
  {
    hide Tree, RunOk, Run, SegmentCalls, PhysicalToVirtual;
    Memcpy(ram, CopyDst(exe, g), elf + g.offset, g.filesz);
    MapPages(mapper, PhysicalToVirtual(base + exe), g, m, before, all);
  }

  /** map_kernel. `ram` is physical memory from `base` on, above the tables; the buffer and the
      file are at `exe` and `elf` in it and are addressed through the window. */
  method MapKernel(mapper: Mapper, ram: array<Byte>, base: nat, exe: nat, elf: nat)
    returns (entry: Word, kernelSize: nat)
    requires ram as object != mapper.words && Tree(mapper.State())
    requires KernelOk(mapper.State(), ram[..], base, exe, elf)
    modifies mapper`it, mapper.words, ram
    ensures var (s, code) := (old(ram[..]), PhysicalToVirtual(base + exe));
            && mapper.State() == Run(old(mapper.State()), KernelCalls(code, AllSegments(s, elf), AS_WRITTEN))
            && ram[..] == CopySegments(s, exe, elf, AllSegments(s, elf))
            && kernelSize == TotalSize(AllSegments(s, elf))
            && elf + FILE_HEADER <= |s| && entry == U64(s, elf + 24)
  {
    hide Tree, RunOk, Run, KernelCalls, SegmentCalls, PhysicalToVirtual, HeadersInside, AllSegments, HeaderCount,
         HeaderPlace, CopySegments, SegmentAt, AllPlaced, TotalSize, Placed, Copied, U64, Field;
    ghost var s, m := ram[..], mapper.State();
    var code := PhysicalToVirtual(base + exe);
    FileInside(s, elf);
    ghost var segments := AllSegments(s, elf);
    ghost var all := KernelCalls(code, segments, AS_WRITTEN);
    StartOfLoops(m, s, base, exe, elf);
    CountOf(s, elf);
    var phdrIt := elf + U64(ram[..], elf + 32);
    var counter: nat := 0;
    kernelSize := 0;
    while true
      invariant counter < |segments| == HeaderCount(s, elf)
      invariant phdrIt == HeaderPlace(s, elf, counter)
      invariant AllPlaced(|s|, exe, elf, segments[..counter])
      invariant ram[..] == CopySegments(s, exe, elf, segments[..counter])
      invariant mapper.State() == Run(m, KernelCalls(code, segments[..counter], AS_WRITTEN))
      invariant kernelSize == TotalSize(segments[..counter])
      decreases |segments| - counter
    {
      FileKept(s, exe, elf, segments[..counter]);
      PlaceAbove(s, elf, counter);
      SegmentSame(s, ram[..], elf, phdrIt);
      var g := SegmentAt(ram[..], phdrIt);
      SegmentStep(s, elf, counter);
      KernelStep(code, segments, counter);
      KernelPrefix(code, segments, AS_WRITTEN, counter + 1);
      PlacedPart(|s|, exe, elf, segments, counter);
      PlacedPart(|s|, exe, elf, segments, counter + 1);
      ghost var part := segments[..counter + 1];
      assert part[..|part| - 1] == segments[..counter] && part[|part| - 1] == g;
      CopyLast(s, exe, elf, part);
      if g.kind == 1 {
        ghost var before := KernelCalls(code, segments[..counter], AS_WRITTEN);
        LoadSegment(mapper, ram, base, exe, elf, g, m, before, all);
        kernelSize := (kernelSize + g.memsz) % TWO_64;
      }
      counter := counter + 1;
      FileKept(s, exe, elf, segments[..counter]);
      FieldSame(s, ram[..], elf, elf + 54, 2);
      FieldSame(s, ram[..], elf, elf + 56, 2);
      phdrIt := phdrIt + Field(ram[..], elf + 54, 2);
      if counter >= Field(ram[..], elf + 56, 2) {
        break;
      }
      PlaceStep(s, elf, counter);
    }
    assert segments[..counter] == segments;
    EntrySame(s, ram[..], elf);
    entry := U64(ram[..], elf + 24);
  }

  lemma EntrySame(s: seq<Byte>, s': seq<Byte>, elf: nat)
    requires elf + FILE_HEADER <= |s| == |s'| && s[elf..] == s'[elf..]
    ensures U64(s, elf + 24) == U64(s', elf + 24)
  {
    hide Field;
    FieldSame(s, s', elf, elf + 24, 8);
  }

  lemma CountOf(s: seq<Byte>, elf: nat)
    requires elf + FILE_HEADER <= |s|
    ensures HeaderCount(s, elf) > 0
    ensures HeaderCount(s, elf) == Field(s, elf + 56, 2) || (HeaderCount(s, elf) == 1 && Field(s, elf + 56, 2) == 0)
  {
    hide Field;
  }

  lemma PlaceAbove(s: seq<Byte>, elf: nat, j: nat)
    requires HeadersInside(s, elf) && elf + FILE_HEADER <= |s| && j < HeaderCount(s, elf)
    ensures elf <= HeaderPlace(s, elf, j)
  {
    hide HeadersInside, HeaderCount, HeaderSize, U64;
  }

  lemma PlaceStep(s: seq<Byte>, elf: nat, j: nat)
    requires HeadersInside(s, elf) && elf + FILE_HEADER <= |s| && 0 < j < HeaderCount(s, elf)
    ensures HeaderPlace(s, elf, j) == HeaderPlace(s, elf, j - 1) + Field(s, elf + 54, 2)
  {
    hide HeadersInside, HeaderCount, U64, Field;
    var h := HeaderSize(s, elf);
    assert h * j == h * (j - 1) + h;
  }

  lemma StartOfLoops(m: Machine, s: seq<Byte>, base: nat, exe: nat, elf: nat)
    requires KernelOk(m, s, base, exe, elf) && elf + FILE_HEADER <= |s|
    ensures var segments := AllSegments(s, elf);
            && |segments| == HeaderCount(s, elf) > 0 && HeaderPlace(s, elf, 0) == elf + U64(s, elf + 32)
            && AllPlaced(|s|, exe, elf, segments) && AllPlaced(|s|, exe, elf, segments[..0])
            && CopySegments(s, exe, elf, segments[..0]) == s
            && Run(m, KernelCalls(PhysicalToVirtual(base + exe), segments[..0], AS_WRITTEN)) == m
            && TotalSize(segments[..0]) == 0
  {
    hide HeadersInside, PhysicalToVirtual, RunOk, U64, Field, SegmentAt;
    CountOf(s, elf);
    SegmentStep(s, elf, 0);
    ZeroTimes(HeaderSize(s, elf));
    assert AllSegments(s, elf)[..0] == [];
  }

  lemma ZeroTimes(h: nat)
    ensures h * 0 == 0
  {
  }
}
