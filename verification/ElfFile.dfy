/** ELF-64 files as the format lays them out, printed field by field, and what map_kernel reads in
    them. */
module ElfFile {
  import opened Bits
  import opened PageEntries
  import opened PageTables
  import opened Wrappers
  import opened PageTree
  import opened PageRuns
  import opened PageMapper
  import opened PhysicalMap
  import opened BootTables
  import opened MemoryRoutines
  import opened KernelImage
  import opened KernelLoads
  import opened KernelBoot

  // ---- The format ----

  // A number in n bytes, low-order byte first.
  function Printed(v: nat, n: nat): (b: seq<Byte>)
    ensures |b| == n
  {
    if n == 0 then [] else [v % 0x100] + Printed(v / 0x100, n - 1)
  }

  type Half = v: nat | v < 0x1_0000
  type Word32 = v: nat | v < TWO_32

  datatype FileHeader = FileHeader(ident: seq<Byte>, kind: Half, machine: Half, version: Word32, entry: Word,
                                   phoff: Word, shoff: Word, flags: Word32, ehsize: Half, phentsize: Half, phnum: Half,
                                   shentsize: Half, shnum: Half, shstrndx: Half)

  datatype ProgramHeader = ProgramHeader(kind: Word32, flags: Word32, offset: Word, vaddr: Word, paddr: Word,
                                         filesz: Word, memsz: Word, align: Word)

  // A field: a number and its width in bytes.
  datatype Item = Item(value: nat, width: nat)

  // The first n fields, one behind the other, and how long they are.
  function PrintedItems(items: seq<Item>, n: nat): (b: seq<Byte>)
    requires n <= |items|
    ensures |b| == Width(items, n)
  {
    if n == 0 then [] else PrintedItems(items, n - 1) + Printed(items[n - 1].value, items[n - 1].width)
  }

  function Width(items: seq<Item>, n: nat): nat
    requires n <= |items|
  {
    if n == 0 then 0 else Width(items, n - 1) + items[n - 1].width
  }

  // The fields of the file header after its identification.
  function FileHeaderItems(h: FileHeader): seq<Item> {
    [Item(h.kind, 2), Item(h.machine, 2), Item(h.version, 4), Item(h.entry, 8), Item(h.phoff, 8), Item(h.shoff, 8),
     Item(h.flags, 4), Item(h.ehsize, 2), Item(h.phentsize, 2), Item(h.phnum, 2), Item(h.shentsize, 2),
     Item(h.shnum, 2), Item(h.shstrndx, 2)]
  }

  function ProgramHeaderItems(p: ProgramHeader): seq<Item> {
    [Item(p.kind, 4), Item(p.flags, 4), Item(p.offset, 8), Item(p.vaddr, 8), Item(p.paddr, 8), Item(p.filesz, 8),
     Item(p.memsz, 8), Item(p.align, 8)]
  }

  function FileHeaderBytes(h: FileHeader): (b: seq<Byte>)
    requires |h.ident| == 16
    ensures |b| == 64
  {
    FileHeaderPlaces(h);
    h.ident + PrintedItems(FileHeaderItems(h), 13)
  }

  function ProgramHeaderBytes(p: ProgramHeader): (b: seq<Byte>)
    ensures |b| == 56
  {
    ProgramHeaderPlaces(p);
    PrintedItems(ProgramHeaderItems(p), 8)
  }

  // Where the fields stand.
  lemma FileHeaderPlaces(h: FileHeader)
    ensures var items := FileHeaderItems(h);
            && Width(items, 3) == 8 && Width(items, 4) == 16 && Width(items, 8) == 38 && Width(items, 9) == 40
            && Width(items, 13) == 48
  {
    var items := FileHeaderItems(h);
    assert Width(items, 1) == 2;
    assert Width(items, 2) == 4;
    assert Width(items, 3) == 8;
    assert Width(items, 4) == 16;
    assert Width(items, 5) == 24;
    assert Width(items, 6) == 32;
    assert Width(items, 7) == 36;
    assert Width(items, 8) == 38;
    assert Width(items, 9) == 40;
    assert Width(items, 10) == 42;
    assert Width(items, 11) == 44;
    assert Width(items, 12) == 46;
  }

  lemma ProgramHeaderPlaces(p: ProgramHeader)
    ensures var items := ProgramHeaderItems(p);
            && Width(items, 0) == 0 && Width(items, 2) == 8 && Width(items, 3) == 16 && Width(items, 5) == 32
            && Width(items, 6) == 40 && Width(items, 7) == 48 && Width(items, 8) == 56
  {
    var items := ProgramHeaderItems(p);
    assert Width(items, 1) == 4;
    assert Width(items, 3) == 16;
    assert Width(items, 4) == 24;
    assert Width(items, 6) == 40;
  }

  predicate StandsAt(s: seq<Byte>, at: nat, b: seq<Byte>) { at + |b| <= |s| && s[at..at + |b|] == b }

  /** A file header at elf, and the program headers where it says; map_kernel looks at one even when
      there are none. */
  predicate IsElf(s: seq<Byte>, elf: nat, h: FileHeader, headers: seq<ProgramHeader>) {
    && |h.ident| == 16 && StandsAt(s, elf, FileHeaderBytes(h))
    && |headers| == (if h.phnum == 0 then 1 else h.phnum)
    && forall j | 0 <= j < |headers| ::
         StandsAt(s, elf + h.phoff + j * h.phentsize, ProgramHeaderBytes(headers[j]))
  }

  // ---- What is read ----

  lemma {:induction false} FieldPrinted(s: seq<Byte>, at: nat, v: nat, n: nat)
    requires StandsAt(s, at, Printed(v, n)) && v < Pow2(8 * n)
    ensures Field(s, at, n) == v
    decreases n
  {
    if n > 0 {
      hide Pow2;
      BytePow(n);
      var b := Printed(v, n);
      assert s[at] == s[at..at + n][0] == v % 0x100;
      assert s[at + 1..at + 1 + (n - 1)] == s[at..at + n][1..] == Printed(v / 0x100, n - 1);
      ByteOff(v, Pow2(8 * (n - 1)));
      FieldPrinted(s, at + 1, v / 0x100, n - 1);
    }
  }

  lemma ByteOff(v: nat, p: nat)
    requires v < 0x100 * p
    ensures v / 0x100 < p
  {
  }

  lemma FieldSizes()
    ensures Pow2(8 * 2) == 0x1_0000 && Pow2(8 * 4) == TWO_32 && Pow2(8 * 8) == TWO_64
  {
    hide Pow2;
    BytePowers();
    PowAdd(16, 16);
    PowAdd(32, 32);
  }

  // A part of what stands at a place stands at its own.
  lemma PartStands(s: seq<Byte>, at: nat, b: seq<Byte>, front: seq<Byte>, part: seq<Byte>, back: seq<Byte>)
    requires StandsAt(s, at, b) && b == front + part + back
    ensures StandsAt(s, at + |front|, part)
  {
    var there := s[at + |front|..at + |front| + |part|];
    forall i | 0 <= i < |part|
      ensures there[i] == part[i]
    {
      assert s[at..at + |b|][|front| + i] == b[|front| + i];
    }
    assert there == part;
  }

  lemma {:induction false} PrintedField(s: seq<Byte>, at: nat, items: seq<Item>, n: nat, k: nat)
    requires k < n <= |items| && StandsAt(s, at, PrintedItems(items, n))
    requires items[k].width in {2, 4, 8} && items[k].value < Pow2(8 * items[k].width)
    ensures at + Width(items, k) + items[k].width <= |s|
    ensures Field(s, at + Width(items, k), items[k].width) == items[k].value
    decreases n
  {
    hide Pow2, Printed, StandsAt, Field;
    var front, last := PrintedItems(items, n - 1), Printed(items[n - 1].value, items[n - 1].width);
    assert PrintedItems(items, n) == front + last + [] == [] + front + last;
    PartStands(s, at, PrintedItems(items, n), front, last, []);
    PartStands(s, at, PrintedItems(items, n), [], front, last);
    if k == n - 1 {
      StandsInside(s, at + |front|, last);
      FieldPrinted(s, at + |front|, items[k].value, items[k].width);
    } else {
      PrintedField(s, at, items, n - 1, k);
    }
  }

  function SegmentOf(p: ProgramHeader): Segment {
    Segment(p.kind, p.offset, p.vaddr, p.filesz, p.memsz, p.align)
  }

  /** map_kernel reads every field of a program header that it uses as it was printed. */
  lemma ProgramHeaderRead(s: seq<Byte>, at: nat, p: ProgramHeader)
    requires StandsAt(s, at, ProgramHeaderBytes(p))
    ensures at + PROGRAM_HEADER <= |s| && SegmentAt(s, at) == SegmentOf(p)
  {
    hide Printed, Field, Pow2, StandsAt, PrintedItems, Width;
    var items := ProgramHeaderItems(p);
    FieldSizes();
    ProgramHeaderPlaces(p);
    StandsInside(s, at, ProgramHeaderBytes(p));
    PrintedField(s, at, items, 8, 0);
    PrintedField(s, at, items, 8, 2);
    PrintedField(s, at, items, 8, 3);
    PrintedField(s, at, items, 8, 5);
    PrintedField(s, at, items, 8, 6);
    PrintedField(s, at, items, 8, 7);
  }

  lemma StandsInside(s: seq<Byte>, at: nat, b: seq<Byte>)
    requires StandsAt(s, at, b)
    ensures at + |b| <= |s|
  {
  }

  /** And so for the file header. */
  lemma FileHeaderRead(s: seq<Byte>, elf: nat, h: FileHeader)
    requires |h.ident| == 16 && StandsAt(s, elf, FileHeaderBytes(h))
    ensures elf + FILE_HEADER <= |s| && U64(s, elf + 24) == h.entry && TableStart(s, elf) == elf + h.phoff
    ensures HeaderSize(s, elf) == h.phentsize && HeaderCount(s, elf) == if h.phnum == 0 then 1 else h.phnum
  {
    hide Printed, Field, Pow2, StandsAt, PrintedItems, Width;
    var items := FileHeaderItems(h);
    FieldSizes();
    FileHeaderPlaces(h);
    StandsInside(s, elf, FileHeaderBytes(h));
    assert FileHeaderBytes(h) == h.ident + PrintedItems(items, 13) + [];
    PartStands(s, elf, FileHeaderBytes(h), h.ident, PrintedItems(items, 13), []);
    PrintedField(s, elf + 16, items, 13, 3);
    PrintedField(s, elf + 16, items, 13, 4);
    PrintedField(s, elf + 16, items, 13, 8);
    PrintedField(s, elf + 16, items, 13, 9);
  }

  function SegmentsOf(headers: seq<ProgramHeader>): (r: seq<Segment>)
    ensures |r| == |headers| && forall j | 0 <= j < |r| :: r[j] == SegmentOf(headers[j])
  {
    seq(|headers|, j requires 0 <= j < |headers| => SegmentOf(headers[j]))
  }

  /** The segments that map_kernel finds in an ELF file are those of its program headers, in order. */
  lemma ElfRead(s: seq<Byte>, elf: nat, h: FileHeader, headers: seq<ProgramHeader>)
    requires IsElf(s, elf, h, headers)
    ensures elf + FILE_HEADER <= |s| && U64(s, elf + 24) == h.entry
    ensures HeadersInside(s, elf) && AllSegments(s, elf) == SegmentsOf(headers)
  {
    hide SegmentAt, TableStart, HeaderSize, HeaderCount, U64, ProgramHeaderBytes, FileHeaderBytes;
    FileHeaderRead(s, elf, h);
    var n := |headers|;
    LastInside(s, elf, h, headers);
    forall j | 0 <= j < n
      ensures AllSegments(s, elf)[j] == SegmentOf(headers[j])
    {
      SegmentStep(s, elf, j);
      assert HeaderPlace(s, elf, j) == elf + h.phoff + j * h.phentsize;
      ProgramHeaderRead(s, elf + h.phoff + j * h.phentsize, headers[j]);
    }
    SegmentStep(s, elf, 0);
  }

  lemma LastInside(s: seq<Byte>, elf: nat, h: FileHeader, headers: seq<ProgramHeader>)
    requires IsElf(s, elf, h, headers)
    ensures elf + h.phoff + h.phentsize * (|headers| - 1) + PROGRAM_HEADER <= |s|
  {
    hide ProgramHeaderBytes, FileHeaderBytes, StandsAt;
    var n := |headers|;
    Commuted(n - 1, h.phentsize);
    StandsInside(s, elf + h.phoff + (n - 1) * h.phentsize, ProgramHeaderBytes(headers[n - 1]));
  }

  lemma Commuted(a: int, b: int)
    ensures a * b == b * a
  {
  }

  // ---- A writer ----

  function HeaderTable(headers: seq<ProgramHeader>): (b: seq<Byte>)
    ensures |b| == 56 * |headers|
  {
    if headers == [] then []
    else HeaderTable(headers[..|headers| - 1]) + ProgramHeaderBytes(headers[|headers| - 1])
  }

  // The file header of an executable with its program headers right behind it.
  function Executable(entry: Word, count: Half): FileHeader {
    FileHeader([0x7F, 'E' as int, 'L' as int, 'F' as int, 2, 1, 1, 0, 0, 0, 0, 0, 0, 0, 0, 0],
               2, 62, 1, entry, 64, 0, 0, 64, 56, count, 64, 0, 0)
  }

  /** An ELF file: header, program headers, and the rest. */
  function ElfBytes(entry: Word, headers: seq<ProgramHeader>, rest: seq<Byte>): seq<Byte>
    requires |headers| < 0x1_0000
  {
    FileHeaderBytes(Executable(entry, |headers|)) + HeaderTable(headers) + rest
  }

  lemma {:induction false} HeaderInTable(headers: seq<ProgramHeader>, j: nat)
    requires j < |headers|
    ensures HeaderTable(headers)[56 * j..56 * j + 56] == ProgramHeaderBytes(headers[j])
    decreases |headers|
  {
    hide ProgramHeaderBytes;
    var n := |headers| - 1;
    if j < n {
      HeaderInTable(headers[..n], j);
      assert HeaderTable(headers)[56 * j..56 * j + 56] == HeaderTable(headers[..n])[56 * j..56 * j + 56];
    }
  }

  lemma WrittenIsElf(s: seq<Byte>, elf: nat, entry: Word, headers: seq<ProgramHeader>, rest: seq<Byte>)
    requires 0 < |headers| < 0x1_0000 && StandsAt(s, elf, ElfBytes(entry, headers, rest))
    ensures IsElf(s, elf, Executable(entry, |headers|), headers)
  {
    hide FileHeaderBytes, ProgramHeaderBytes, HeaderTable, Executable, StandsAt;
    var h, file := Executable(entry, |headers|), ElfBytes(entry, headers, rest);
    ExecutableFields(entry, |headers|);
    var table := HeaderTable(headers);
    assert file == [] + FileHeaderBytes(h) + (table + rest);
    PartStands(s, elf, file, [], FileHeaderBytes(h), table + rest);
    PartStands(s, elf, file, FileHeaderBytes(h), table, rest);
    forall j | 0 <= j < |headers|
      ensures StandsAt(s, elf + 64 + j * 56, ProgramHeaderBytes(headers[j]))
    {
      HeaderInTable(headers, j);
      assert table == table[..56 * j] + table[56 * j..56 * j + 56] + table[56 * j + 56..];
      PartStands(s, elf + 64, table, table[..56 * j], table[56 * j..56 * j + 56], table[56 * j + 56..]);
    }
  }

  lemma ExecutableFields(entry: Word, count: Half)
    ensures var h := Executable(entry, count);
            h.entry == entry && h.phnum == count && h.phoff == 64 && h.phentsize == 56 && |h.ident| == 16
  {
  }

  // ---- From the writer to map_kernel ----

  // The memory that the load segments take together.
  function MemorySize(headers: seq<ProgramHeader>): nat {
    if headers == [] then 0
    else (if headers[0].kind == 1 then headers[0].memsz else 0) + MemorySize(headers[1..])
  }

  lemma {:induction false} SizeToHere(headers: seq<ProgramHeader>)
    requires headers != []
    ensures var k := |headers| - 1;
            MemorySize(headers) == MemorySize(headers[..k]) + if headers[k].kind == 1 then headers[k].memsz else 0
    decreases |headers|
  {
    if |headers| > 1 {
      var k := |headers| - 1;
      SizeToHere(headers[1..]);
      assert headers[1..][..k - 1] == headers[..k][1..];
    }
  }

  lemma AddRemainder(a: nat, b: nat)
    ensures (a % TWO_64 + b) % TWO_64 == (a + b) % TWO_64
  {
  }

  /** The size that map_kernel reports is that sum, in 64 bits. */
  lemma {:induction false} TotalIsSum(headers: seq<ProgramHeader>)
    ensures TotalSize(SegmentsOf(headers)) == MemorySize(headers) % TWO_64
    decreases |headers|
  {
    if headers != [] {
      var k := |headers| - 1;
      TotalIsSum(headers[..k]);
      SizeToHere(headers);
      assert SegmentsOf(headers)[..k] == SegmentsOf(headers[..k]);
      AddRemainder(MemorySize(headers[..k]), if headers[k].kind == 1 then headers[k].memsz else 0);
    }
  }

  /** map_kernel on a file in memory that a writer has made: entry point, size, copies and mappings are
      those of the program headers given to the writer. */
  method MapWritten(mapper: Mapper, ram: array<Byte>, base: nat, exe: nat, elf: nat, ghost start: Word,
                    ghost headers: seq<ProgramHeader>, ghost rest: seq<Byte>)
    returns (entry: Word, kernelSize: nat)
    requires ram as object != mapper.words && Tree(mapper.State())
    requires KernelOk(mapper.State(), ram[..], base, exe, elf)
    requires 0 < |headers| < 0x1_0000 && StandsAt(ram[..], elf, ElfBytes(start, headers, rest))
    modifies mapper`it, mapper.words, ram
    ensures entry == start && kernelSize == MemorySize(headers) % TWO_64
    ensures var (s, code) := (old(ram[..]), PhysicalToVirtual(base + exe));
            && AllPlaced(|s|, exe, elf, SegmentsOf(headers))
            && mapper.State() == Run(old(mapper.State()), KernelCalls(code, SegmentsOf(headers), AS_WRITTEN))
            && ram[..] == CopySegments(s, exe, elf, SegmentsOf(headers))
  {
    hide Tree, Run, KernelCalls, PhysicalToVirtual, HeadersInside, AllSegments, CopySegments, AllPlaced, TotalSize,
         StandsAt, ElfBytes, IsElf, U64, RunOk;
    WrittenIsElf(ram[..], elf, start, headers, rest);
    ElfRead(ram[..], elf, Executable(start, |headers|), headers);
    ExecutableFields(start, |headers|);
    TotalIsSum(headers);
    entry, kernelSize := MapKernel(mapper, ram, base, exe, elf);
  }

  /** From a file as written to the kernel's loads: after start.asm, setup_physical_map and map_kernel,
      all through their own tables, byte k of a load segment's first page reads as the file's byte at the
      segment's offset plus k, up to the segment's size in the file. */
  lemma WrittenKernel(mem: Memory, total: Word, s: seq<Byte>, base: nat, exe: nat, elf: nat, start: Word,
                      headers: seq<ProgramHeader>, rest: seq<Byte>, j: nat, k: nat)
    requires 0 < |headers| < 0x1_0000 && StandsAt(s, elf, ElfBytes(start, headers, rest))
    requires Bootable(mem, total, s, base, exe, elf, SegmentsOf(headers))
    requires Regular(s, base, exe, elf, SegmentsOf(headers), j)
    requires forall h | j < h < |headers| && headers[h].kind == 1 ::
               PagesApart(SegmentOf(headers[j]), SegmentOf(headers[h]))
    requires k < PAGE && k < headers[j].filesz <= headers[j].memsz < TWO_64 - PAGE
    requires headers[j].offset + k < |ElfBytes(start, headers, rest)|
    ensures HeadersInside(s, elf) && base + exe < TWO_64 && base + elf < TWO_64
    ensures var end := KernelVia(Booted(mem, total), s, base, PhysicalToVirtual(base + exe),
                                 PhysicalToVirtual(base + elf), AllSegments(s, elf));
            && end.Some?
            && LoadByte(end.value.0.mem, end.value.1, base, (headers[j].vaddr + k) % TWO_64) ==
               Some(ElfBytes(start, headers, rest)[headers[j].offset + k])
  {
    hide KernelVia, PhysicalToVirtual, HeadersInside, AllSegments, ElfBytes, IsElf, BootMemory, Booted, LoadByte,
         AllPlaced, SameAlign, AllInKernelRegion, BufferFits, NumGigs, PagesApart, Segment.NumPages, U64;
    var segments, file := SegmentsOf(headers), ElfBytes(start, headers, rest);
    WrittenIsElf(s, elf, start, headers, rest);
    ElfRead(s, elf, Executable(start, |headers|), headers);
    var g := segments[j];
    PageBefore(g, 0);
    FirstBytePlaced(s, exe, elf, segments, j, k);
    BootedImage(mem, total, s, base, exe, elf, segments, j, 0, k);
    var y := g.offset + k;
    assert Takes(g, y);
    assert Covered(segments, y);
    assert s[elf + y] == s[elf..elf + |file|][y] == file[y];
  }

  lemma FirstBytePlaced(s: seq<Byte>, exe: nat, elf: nat, segments: seq<Segment>, j: nat, k: nat)
    requires j < |segments| && segments[j].Load() && SameAlign(segments, PAGE) && AllPlaced(|s|, exe, elf, segments)
    requires k < segments[j].filesz
    ensures BufferPlace(exe, segments[j].offset + k) < elf
  {
    assert Placed(|s|, exe, elf, segments[j]);
  }
}
