/** Archives as POSIX.1-2017 lays them out ("ustar Interchange Format" in the pax utility), and what
    the lookup and the loader find in them. */
module UstarArchive {
  import opened Bits
  import opened MemoryRoutines
  import opened Ustar

  datatype Kind = Regular(flag: Byte) | Directory | Other(flag: Byte)

  /** A member of an archive. Besides regular files, members that the loader does not know may have
      data, such as the extended headers of the standard. */
  datatype Entry = Entry(prefix: seq<Byte>, name: seq<Byte>, kind: Kind, data: seq<Byte>) {

    predicate Valid() {
      && |prefix| <= 155 && |name| <= 100 && 0 !in prefix && 0 !in name
      && |data| < MAX_SIZE
      && (match kind
          case Regular(f) => f in {0, '0' as int}
          case Directory => data == []
          case Other(f) => f !in {0, '0' as int, '5' as int})
    }

    function TypeFlag(): Byte {
      match kind
      case Regular(f) => f
      case Directory => '5' as int
      case Other(f) => f
    }

    function DataSectors(): nat { (|data| + 511) / 512 }

    // The name the loader compares with: prefix and name with nothing between them.
    function LoaderPath(): seq<Byte> { ['/' as int] + prefix + name }

    // The pathname of the member in the standard, with a leading slash.
    function PosixPath(): seq<Byte> {
      if prefix == [] then ['/' as int] + name else ['/' as int] + prefix + ['/' as int] + name
    }
  }

  // Eleven octal digits.
  const MAX_SIZE: nat := 0x2_0000_0000

  // A number printed with k octal digits, most significant first.
  function Octal(n: nat, k: nat): (r: seq<Byte>)
    ensures |r| == k
  {
    if k == 0 then [] else Octal(n / 8, k - 1) + ['0' as int + n % 8]
  }

  // A field filled with a string and then with NULs.
  predicate FieldHolds(h: Sector, at: nat, width: nat, s: seq<Byte>)
    requires at + width <= SECTOR
  {
    |s| <= width && h[at..at + |s|] == s && forall i | at + |s| <= i < at + width :: h[i] == 0
  }

  // The bytes of a text in ASCII.
  function Ascii(s: string): (r: seq<Byte>)
    requires forall i | 0 <= i < |s| :: s[i] as int < 0x80
    ensures |r| == |s|
  {
    seq(|s|, i requires 0 <= i < |s| => s[i] as int)
  }

  // TMAGIC, in the characters of the standard.
  predicate HasMagic(h: Sector) { forall i | 0 <= i < 5 :: h[257 + i] == "ustar"[i] as int }

  lemma MagicIsSigned(h: Sector)
    ensures HasMagic(h) <==> Signed(h)
  {
    assert "ustar"[0] == 'u' && "ustar"[1] == 's' && "ustar"[2] == 't' && "ustar"[3] == 'a' && "ustar"[4] == 'r';
    var f := h[257..262];
    assert h[257 + 0] == f[0] && h[257 + 1] == f[1] && h[257 + 2] == f[2] && h[257 + 3] == f[3] && h[257 + 4] == f[4];
    if HasMagic(h) {
      assert f == USTAR;
    }
  }

  /** The header of a member. The fields not named here (mode, owner, times, checksum, links, device
      numbers) may hold anything. */
  predicate IsHeader(h: Sector, e: Entry) {
    && FieldHolds(h, 0, 100, e.name) && FieldHolds(h, 345, 155, e.prefix)
    && h[124..135] == Octal(|e.data|, 11)
    && h[156] == e.TypeFlag() && HasMagic(h)
  }

  predicate DataAt(disk: Disk, at: nat, data: seq<Byte>) {
    at + (|data| + 511) / 512 <= TWO_28 &&
    forall i | 0 <= i < |data| :: disk[at + i / 512][i % 512] == data[i]
  }

  /** The disk holds the members from sector `at` on, and then a sector that is not a header. */
  predicate IsArchive(disk: Disk, at: nat, entries: seq<Entry>)
    decreases |entries|
  {
    at < TWO_28 &&
    if entries == [] then !HasMagic(disk[at])
    else
      && entries[0].Valid() && IsHeader(disk[at], entries[0])
      && DataAt(disk, at + 1, entries[0].data)
      && IsArchive(disk, at + 1 + entries[0].DataSectors(), entries[1..])
  }

  // ---- Numbers ----

  lemma {:induction false} OctalBack(n: nat, k: nat)
    requires n < Pow2(3 * k) && k <= 11
    ensures OctValue(Octal(n, k)) == n
  {
    if k > 0 {
      hide Pow2;
      EighthFits(n, k);
      OctalBack(n / 8, k - 1);
      SizesFit(k);
      LastDigit(Octal(n / 8, k - 1), n % 8);
    }
  }

  lemma LastDigit(s: seq<Byte>, digit: nat)
    requires digit < 8 && OctValue(s) * 8 + digit < TWO_64
    ensures OctValue(s + [48 + digit]) == OctValue(s) * 8 + digit
  {
    assert (s + [48 + digit])[..|s|] == s;
  }

  lemma EighthFits(n: nat, k: nat)
    requires k > 0 && n < Pow2(3 * k)
    ensures n / 8 < Pow2(3 * (k - 1))
  {
    assert Pow2(3 * k) == 2 * Pow2(3 * k - 1);
    assert Pow2(3 * k - 1) == 2 * Pow2(3 * k - 2);
    assert Pow2(3 * k - 2) == 2 * Pow2(3 * k - 3);
  }

  lemma SizesFit(k: nat)
    requires k <= 11
    ensures Pow2(3 * k) <= Pow2(33) == MAX_SIZE
  {
    hide Pow2;
    PowMonotone(3 * k, 33);
    SmallPowers();
    BytePowers();
    PowAdd(16, 16);
    PowAdd(32, 1);
  }

  // ---- One header ----

  lemma FieldChars(h: Sector, at: nat, width: nat, s: seq<Byte>)
    requires at + width < SECTOR && FieldHolds(h, at, width, s) && 0 !in s
    ensures Chars(h[at..], width) == s
  {
    assert h[at..][..|s|] == s;
    CharsAre(h[at..], width, |s|);
  }

  /** What the loader reads in a header is what a writer put there. */
  lemma HeaderRead(h: Sector, e: Entry, path: seq<Byte>, width: nat)
    requires e.Valid() && IsHeader(h, e) && width in {TWO_32, TWO_64}
    ensures Signed(h) && (Matches(h, path) <==> e.LoaderPath() == Chars(path, 257))
    ensures SizeIn(h, width) == |e.data| % width
  {
    hide Chars, OctValue, Octal, HasMagic;
    MagicIsSigned(h);
    FieldChars(h, 0, 100, e.name);
    assert h[0..] == h;
    FieldChars(h, 345, 155, e.prefix);
    SizesFit(11);
    OctalBack(|e.data|, 11);
  }

  // How far the member lies from the next one.
  function Length(e: Entry): nat { if e.kind.Other? then 0 else 1 + e.DataSectors() }

  /** The sizes that the arithmetic in the given width leaves alone. */
  predicate SizeOk(e: Entry, width: nat) { |e.data| + 511 < width }

  lemma HeaderAdvance(h: Sector, e: Entry, path: seq<Byte>, width: nat)
    requires e.Valid() && IsHeader(h, e) && width in {TWO_32, TWO_64} && SizeOk(e, width)
    ensures Advance(h, width) == Length(e)
    ensures SizeIn(h, width) == |e.data| && SectorCount(|e.data|, width) == e.DataSectors()
  {
    hide IsHeader, SizeIn, Signed, Matches, Entry.Valid, Entry.TypeFlag, SectorCount;
    HeaderRead(h, e, path, width);
    TypeOf(h, e);
    FlagOf(e);
    CountOf(|e.data|, width);
  }

  lemma FlagOf(e: Entry)
    requires e.Valid()
    ensures e.TypeFlag() in {0, 48} <==> e.kind.Regular?
    ensures e.TypeFlag() == 53 <==> e.kind.Directory?
    ensures e.kind.Directory? ==> e.DataSectors() == 0
    ensures |e.data| < MAX_SIZE
  {
  }

  lemma CountOf(size: nat, width: nat)
    requires width in {TWO_32, TWO_64} && size + 511 < width && size < MAX_SIZE
    ensures SectorCount(size, width) == (size + 511) / 512
  {
  }

  lemma TypeOf(h: Sector, e: Entry)
    requires IsHeader(h, e)
    ensures h[156] == e.TypeFlag()
  {
  }

  // ---- The scan of a whole archive ----

  predicate Wanted(e: Entry, path: seq<Byte>) { e.LoaderPath() == Chars(path, 257) }

  /** The first member of that name, or the number of members. */
  function FirstMatch(entries: seq<Entry>, path: seq<Byte>): (k: nat)
    ensures k <= |entries| && forall j | 0 <= j < k :: !Wanted(entries[j], path)
    ensures k < |entries| ==> Wanted(entries[k], path)
  {
    if entries == [] || Wanted(entries[0], path) then 0
    else
      var k := FirstMatch(entries[1..], path);
      assert forall j | 1 <= j < k + 1 :: entries[j] == entries[1..][j - 1];
      k + 1
  }

  // The header sector of member k, from the start of the archive.
  function Start(entries: seq<Entry>, k: nat): nat
    requires k <= |entries|
  {
    if k == 0 then 0 else Start(entries, k - 1) + 1 + entries[k - 1].DataSectors()
  }

  lemma {:induction false} ArchiveFrom(disk: Disk, at: nat, entries: seq<Entry>, k: nat)
    requires IsArchive(disk, at, entries) && k <= |entries|
    ensures IsArchive(disk, at + Start(entries, k), entries[k..])
  {
    if k > 0 {
      ArchiveFrom(disk, at, entries, k - 1);
      assert entries[k - 1..][1..] == entries[k..];
    } else {
      assert entries[0..] == entries;
    }
  }

  /** The sizes of all members up to the first of that name. */
  ghost predicate SizesOk(entries: seq<Entry>, path: seq<Byte>, width: nat) {
    forall j | 0 <= j < |entries| && j <= FirstMatch(entries, path) :: SizeOk(entries[j], width)
  }

  // One iteration at the header of member k, or at the end of the archive.
  lemma StepAt(disk: Disk, lba: nat, path: seq<Byte>, width: nat, entries: seq<Entry>, k: nat)
    requires IsArchive(disk, lba, entries) && k <= |entries|
    requires width in {TWO_32, TWO_64} && (k < |entries| ==> SizeOk(entries[k], width))
    ensures var s := Start(entries, k);
            && lba + s < TWO_28
            && Step(disk, lba, path, width, s) ==
               if k == |entries| then Missing
               else if Wanted(entries[k], path) then Found(s, |entries[k].data|)
               else Scanning(s + Length(entries[k]))
  {
    hide Signed, Matches, Advance, SizeIn, IsHeader, Chars, DataAt, IsArchive, Lba, Start;
    var s := Start(entries, k);
    MemberAt(disk, lba, entries, k);
    SmallLba(lba, s);
    if k < |entries| {
      HeaderRead(disk[lba + s], entries[k], path, width);
      HeaderAdvance(disk[lba + s], entries[k], path, width);
      LengthFits(entries[k]);
    }
  }

  lemma LengthFits(e: Entry)
    requires e.Valid()
    ensures Length(e) < TWO_28
  {
  }

  lemma SmallLba(lba: nat, s: nat)
    requires lba + s < TWO_28
    ensures Lba((s + lba) % TWO_64) == lba + s
  {
  }

  lemma MemberAt(disk: Disk, lba: nat, entries: seq<Entry>, k: nat)
    requires IsArchive(disk, lba, entries) && k <= |entries|
    ensures var at := lba + Start(entries, k);
            && at < TWO_28
            && (k == |entries| ==> !Signed(disk[at]))
            && (k < |entries| ==>
                 entries[k].Valid() && IsHeader(disk[at], entries[k]) && DataAt(disk, at + 1, entries[k].data))
  {
    hide Signed, HasMagic, IsHeader, DataAt, Start;
    ArchiveFrom(disk, lba, entries, k);
    MagicIsSigned(disk[lba + Start(entries, k)]);
    if k < |entries| {
      assert entries[k..][0] == entries[k];
    }
  }

  lemma {:induction false} ScanTo(disk: Disk, lba: nat, path: seq<Byte>, width: nat, entries: seq<Entry>, k: nat)
    requires IsArchive(disk, lba, entries) && width in {TWO_32, TWO_64} && SizesOk(entries, path, width)
    requires k <= FirstMatch(entries, path) && forall j | 0 <= j < k :: !entries[j].kind.Other?
    ensures Scan(disk, lba, path, width, k) == Scanning(Start(entries, k))
  {
    hide Step, IsArchive, Wanted;
    if k > 0 {
      ScanTo(disk, lba, path, width, entries, k - 1);
      StepAt(disk, lba, path, width, entries, k - 1);
    }
  }

  lemma {:induction false} ScanStuck(disk: Disk, lba: nat, path: seq<Byte>, width: nat, s: nat, k: nat, n: nat)
    requires width in {TWO_32, TWO_64} && Scan(disk, lba, path, width, k) == Scanning(s)
    requires Step(disk, lba, path, width, s) == Scanning(s)
    ensures Scan(disk, lba, path, width, n).Scanning?
    ensures n >= k ==> Scan(disk, lba, path, width, n) == Scanning(s)
    decreases n
  {
    hide Step;
    if n < k {
      if !Scan(disk, lba, path, width, n).Scanning? {
        ScanStable(disk, lba, path, width, n, k);
      }
    } else if n > k {
      ScanStuck(disk, lba, path, width, s, k, n - 1);
    }
  }

  /** The scan of any archive. When a link, device, pipe or unknown member stands before the first
      match, the scan never ends. Otherwise it ends after the first match with that member's size and
      place, or after the last member with nothing. */
  lemma ScanCorrect(disk: Disk, lba: nat, path: seq<Byte>, width: nat, entries: seq<Entry>, n: nat)
    requires IsArchive(disk, lba, entries) && width in {TWO_32, TWO_64} && SizesOk(entries, path, width)
    ensures var k := FirstMatch(entries, path);
            if exists j | 0 <= j < k :: entries[j].kind.Other? then Scan(disk, lba, path, width, n).Scanning?
            else if n <= k then Scan(disk, lba, path, width, n).Scanning?
            else Scan(disk, lba, path, width, n) ==
                 if k < |entries| then Found(Start(entries, k), |entries[k].data|) else Missing
  {
    hide Step, IsArchive, Wanted;
    var k := FirstMatch(entries, path);
    if exists j | 0 <= j < k :: entries[j].kind.Other? {
      var j := FirstOther(entries, k);
      ScanTo(disk, lba, path, width, entries, j);
      StepAt(disk, lba, path, width, entries, j);
      ScanStuck(disk, lba, path, width, Start(entries, j), j, n);
    } else if n <= k {
      ScanTo(disk, lba, path, width, entries, n);
    } else {
      ScanTo(disk, lba, path, width, entries, k);
      StepAt(disk, lba, path, width, entries, k);
      ScanStable(disk, lba, path, width, k + 1, n);
    }
  }

  lemma {:induction false} FirstOther(entries: seq<Entry>, k: nat) returns (j: nat)
    requires k <= |entries| && exists i | 0 <= i < k :: entries[i].kind.Other?
    ensures j < k && entries[j].kind.Other? && forall i | 0 <= i < j :: !entries[i].kind.Other?
  {
    j := 0;
    while !entries[j].kind.Other?
      invariant j < k && forall i | 0 <= i < j :: !entries[i].kind.Other?
      decreases k - j
    {
      j := j + 1;
    }
  }

  /** The lookup returns, for archives whose sizes fit, if and only if no such member comes before
      the first match. */
  lemma LookupReturns(disk: Disk, lba: nat, path: seq<Byte>, width: nat, entries: seq<Entry>)
    requires IsArchive(disk, lba, entries) && width in {TWO_32, TWO_64} && SizesOk(entries, path, width)
    ensures (exists n: nat :: !Scan(disk, lba, path, width, n).Scanning?)
       <==> forall j | 0 <= j < FirstMatch(entries, path) :: !entries[j].kind.Other?
  {
    forall n: nat {
      ScanCorrect(disk, lba, path, width, entries, n);
    }
    ScanCorrect(disk, lba, path, width, entries, FirstMatch(entries, path) + 1);
  }

  lemma PathsSame(e: Entry)
    ensures e.LoaderPath() == e.PosixPath() <==> e.prefix == []
  {
    if e.prefix == [] {
      assert ['/' as int] + e.prefix + e.name == ['/' as int] + e.name;
    } else {
      assert |e.LoaderPath()| + 1 == |e.PosixPath()|;
    }
  }

  // A pathname with its terminator, as the comparison sees it.
  lemma PathChars(e: Entry)
    requires e.Valid()
    ensures Chars(e.PosixPath() + [0], 257) == e.PosixPath()
  {
    hide Chars;
    var path := e.PosixPath();
    assert (path + [0])[..|path|] == path;
    CharsAre(path + [0], 257, |path|);
  }

  /** The scan takes a member's header for the member's pathname in the standard exactly when the prefix
      field is empty. */
  lemma JoinedWithoutSlash(h: Sector, e: Entry)
    requires e.Valid() && IsHeader(h, e)
    ensures Matches(h, e.PosixPath() + [0]) <==> e.prefix == []
  {
    hide Chars, Matches, IsHeader, Entry.PosixPath, Entry.LoaderPath, Entry.Valid;
    HeaderRead(h, e, e.PosixPath() + [0], TWO_64);
    PathChars(e);
    PathsSame(e);
  }

  // ---- Loading ----

  lemma {:induction false} ContentsAt(disk: Disk, first: nat, n: nat, i: nat)
    requires first + n <= TWO_28 && i < n * SECTOR
    ensures i / SECTOR < n && Contents(disk, first, n)[i] == disk[first + i / SECTOR][i % SECTOR]
  {
    var rest := Contents(disk, first, n - 1);
    if i < (n - 1) * SECTOR {
      ContentsAt(disk, first, n - 1, i);
    } else {
      assert Contents(disk, first, n)[i] == disk[first + n - 1][i - (n - 1) * SECTOR];
      assert i / SECTOR == n - 1;
    }
  }

  /** What loading member k reads: the first sectors of its data. Their number is the loader's own, a
      u32 computation cut to the u8 that the driver takes; it covers the file exactly when the file
      has at most 255 sectors. */
  lemma LoadExact(disk: Disk, lba: nat, entries: seq<Entry>, k: nat)
    requires IsArchive(disk, lba, entries) && k < |entries|
    ensures var (e, n, first) :=
              (entries[k], LoadCount(|entries[k].data| % TWO_32), LoadPlace(lba, Start(entries, k)));
            && first + n <= TWO_28
            && (forall i | 0 <= i < |e.data| && i < n * SECTOR :: Contents(disk, first, n)[i] == e.data[i])
            && (|e.data| <= n * SECTOR <==> e.DataSectors() <= 255)
            && (e.DataSectors() <= 255 ==> n == e.DataSectors() && Contents(disk, first, n)[..|e.data|] == e.data)
  {
    hide Contents, IsHeader, Signed, IsArchive, Lba, Start, DataAt, Entry.Valid, LoadCount;
    var e, s := entries[k], Start(entries, k);
    PlaceOfData(disk, lba, entries, k);
    MemberSize(disk, lba, entries, k);
    LoadCountCovers(|e.data|);
    DataLoaded(disk, lba + s + 1, e.data, LoadCount(|e.data| % TWO_32));
  }

  lemma LoadCountCovers(size: nat)
    requires size < MAX_SIZE
    ensures var (n, c) := (LoadCount(size % TWO_32), (size + 511) / 512);
            n <= c && (size <= n * SECTOR <==> c <= 255) && (c <= 255 ==> n == c)
  {
    hide SectorCount;
    if size + 511 < TWO_32 {
      CountOf(size, TWO_32);
      SectorsCover(size);
    } else {
      Overflowed(size);
      assert LoadCount(size % TWO_32) <= 255 < (size + 511) / 512;
    }
  }

  lemma PlaceOfData(disk: Disk, lba: nat, entries: seq<Entry>, k: nat)
    requires IsArchive(disk, lba, entries) && k < |entries|
    ensures var s := Start(entries, k);
            && LoadPlace(lba, s) == lba + s + 1 && DataAt(disk, lba + s + 1, entries[k].data)
            && lba + s + 1 + entries[k].DataSectors() < TWO_28
  {
    hide IsHeader, Signed, IsArchive, LoadPlace, DataAt, Entry.Valid, Entry.DataSectors, Start;
    MemberAt(disk, lba, entries, k);
    MemberAt(disk, lba, entries, k + 1);
    NextStart(entries, k);
    DataPlace(lba, Start(entries, k));
  }

  lemma NextStart(entries: seq<Entry>, k: nat)
    requires k < |entries|
    ensures Start(entries, k + 1) == Start(entries, k) + 1 + entries[k].DataSectors()
  {
    hide Entry.DataSectors;
  }

  lemma DataPlace(lba: nat, s: nat)
    requires lba + s + 1 < TWO_28
    ensures LoadPlace(lba, s) == lba + s + 1
  {
    hide Lba;
    SmallLba(lba, s + 1);
  }

  lemma SectorsCover(size: nat)
    ensures var c := (size + 511) / 512;
            && c % 0x100 <= c && (size <= c % 0x100 * SECTOR <==> c <= 255)
  {
    var c := (size + 511) / 512;
    if c > 255 {
      assert c % 0x100 <= c - 256;
    }
  }

  lemma DataLoaded(disk: Disk, first: nat, data: seq<Byte>, n: nat)
    requires DataAt(disk, first, data) && first + n <= TWO_28
    ensures forall i | 0 <= i < |data| && i < n * SECTOR :: Contents(disk, first, n)[i] == data[i]
    ensures |data| <= n * SECTOR ==> Contents(disk, first, n)[..|data|] == data
  {
    hide Contents;
    forall i | 0 <= i < |data| && i < n * SECTOR
      ensures Contents(disk, first, n)[i] == data[i]
    {
      ContentsAt(disk, first, n, i);
    }
  }

  /** Loading and lookup stop at the same member with the same size. */
  lemma LoadAgrees(disk: Disk, lba: nat, path: seq<Byte>, entries: seq<Entry>, n: nat)
    requires IsArchive(disk, lba, entries) && SizesOk(entries, path, TWO_32)
    requires !Scan(disk, lba, path, TWO_64, n).Scanning? || !Scan(disk, lba, path, TWO_32, n).Scanning?
    ensures Scan(disk, lba, path, TWO_64, n) == Scan(disk, lba, path, TWO_32, n)
  {
    hide IsArchive;
    ScanCorrect(disk, lba, path, TWO_64, entries, n);
    ScanCorrect(disk, lba, path, TWO_32, entries, n);
  }

  /** Loading from an archive: when the first match is a member of at most 255 sectors and nothing
      stops the scan before it, the buffer receives exactly that member's sectors and begins with its
      bytes, and the result is the size that the lookup reports. */
  lemma FileLoaded(disk: Disk, lba: nat, path: seq<Byte>, entries: seq<Entry>, n: nat, before: seq<Byte>,
                   after: seq<Byte>, r: nat)
    requires IsArchive(disk, lba, entries) && SizesOk(entries, path, TWO_32)
    requires FirstMatch(entries, path) < |entries| && FirstMatch(entries, path) < n
    requires forall j | 0 <= j < FirstMatch(entries, path) :: !entries[j].kind.Other?
    requires entries[FirstMatch(entries, path)].DataSectors() <= 255
    requires LoadFits(Scan(disk, lba, path, TWO_32, n), lba, |before|)
    requires LoadResult(Scan(disk, lba, path, TWO_32, n), disk, lba, before, after, r)
    ensures var e := entries[FirstMatch(entries, path)];
            && r == |e.data| && Scan(disk, lba, path, TWO_64, n) == Found(Start(entries, FirstMatch(entries, path)), r)
            && |e.data| <= e.DataSectors() * SECTOR <= |after| == |before|
            && after[..|e.data|] == e.data
            && after[e.DataSectors() * SECTOR..] == before[e.DataSectors() * SECTOR..]
  {
    hide IsArchive, Scan, Contents, Entry.Valid, Entry.DataSectors, FirstMatch, Start, LoadPlace, LoadCount;
    var k := FirstMatch(entries, path);
    var e := entries[k];
    ScanCorrect(disk, lba, path, TWO_32, entries, n);
    ScanCorrect(disk, lba, path, TWO_64, entries, n);
    LoadExact(disk, lba, entries, k);
    assert SizeOk(e, TWO_32);
  }

  lemma MemberSize(disk: Disk, lba: nat, entries: seq<Entry>, k: nat)
    requires IsArchive(disk, lba, entries) && k < |entries|
    ensures |entries[k].data| < MAX_SIZE
  {
    hide IsArchive, IsHeader, Signed, DataAt;
    MemberAt(disk, lba, entries, k);
  }

  /** The sector count is right exactly when size + 511 does not overflow the variable. */
  lemma SectorCountExact(e: Entry, width: nat)
    requires e.Valid() && width in {TWO_32, TWO_64}
    ensures SectorCount(|e.data| % width, width) == e.DataSectors() <==> SizeOk(e, width)
  {
    hide SectorCount;
    if |e.data| + 511 < width {
      CountOf(|e.data|, width);
    } else {
      Overflowed(|e.data|);
    }
  }

  lemma Overflowed(n: nat)
    requires TWO_32 <= n + 511 && n < MAX_SIZE
    ensures SectorCount(n % TWO_32, TWO_32) < (n + 511) / 512
  {
    var r := (n % TWO_32 + 511) % TWO_32;
    assert r == n + 511 - TWO_32 || r == n + 511 - 2 * TWO_32;
  }

  /** And when no member has the path and nothing stops the scan, loading returns 0 and leaves the buffer
      as it was. */
  lemma NothingLoaded(disk: Disk, lba: nat, path: seq<Byte>, entries: seq<Entry>, n: nat, before: seq<Byte>,
                      after: seq<Byte>, r: nat)
    requires IsArchive(disk, lba, entries) && SizesOk(entries, path, TWO_32) && n > |entries|
    requires forall j | 0 <= j < |entries| :: !Wanted(entries[j], path) && !entries[j].kind.Other?
    requires LoadFits(Scan(disk, lba, path, TWO_32, n), lba, |before|)
    requires LoadResult(Scan(disk, lba, path, TWO_32, n), disk, lba, before, after, r)
    ensures r == 0 && after == before
  {
    hide IsArchive, Scan, Contents, Wanted, LoadPlace, LoadCount, SizesOk, Start;
    ScanCorrect(disk, lba, path, TWO_32, entries, n);
  }

  lemma KernelPath()
    ensures Chars(Ascii("/sys/kernel.elf") + [0], 257) == ['/' as int] + Ascii("sys/kernel.elf")
  {
    hide Chars;
    var path := Ascii("/sys/kernel.elf") + [0];
    assert "/sys/kernel.elf" == "/" + "sys/kernel.elf";
    assert path[..15] == ['/' as int] + Ascii("sys/kernel.elf");
    CharsAre(path, 257, 15);
  }

  /** The lookup that the loader makes: a first member of that name is found at once, with its size. */
  lemma KernelFound(disk: Disk, lba: nat, entries: seq<Entry>)
    requires IsArchive(disk, lba, entries) && entries != [] && SizeOk(entries[0], TWO_64)
    requires entries[0].prefix == [] && entries[0].name == Ascii("sys/kernel.elf")
    ensures Scan(disk, lba, Ascii("/sys/kernel.elf") + [0], TWO_64, 1) == Found(0, |entries[0].data|)
  {
    hide IsArchive, Scan, Chars, Ascii;
    KernelPath();
    assert entries[0].LoaderPath() == ['/' as int] + Ascii("sys/kernel.elf");
    var path := Ascii("/sys/kernel.elf") + [0];
    assert Wanted(entries[0], path);
    ScanCorrect(disk, lba, path, TWO_64, entries, 1);
  }

  /** A size field as archives have it. */
  lemma SizeText(h: Sector)
    requires h[124..135] == Ascii("00000001750")
    ensures SizeIn(h, TWO_32) == 1000 == SizeIn(h, TWO_64)
  {
    hide OctValue, Ascii;
    assert Octal(1000, 11) == Ascii("00000001750") by { ThousandOctal(); }
    SizesFit(11);
    OctalBack(1000, 11);
  }

  lemma NoOctal(k: nat)
    ensures Octal(0, k) == seq(k, _ => '0' as int)
  {
    if k > 0 {
      NoOctal(k - 1);
    }
  }

  lemma OctalDigit(n: nat, k: nat)
    requires k > 0
    ensures Octal(n, k) == Octal(n / 8, k - 1) + ['0' as int + n % 8]
  {
  }

  lemma ThousandOctal()
    ensures Octal(1000, 11) == Ascii("00000001750")
  {
    hide Octal;
    OctalDigit(1000, 11);
    OctalDigit(125, 10);
    OctalDigit(15, 9);
    OctalDigit(1, 8);
    NoOctal(7);
  }

  // ---- A writer ----

  function HeaderOf(e: Entry): Sector
    requires e.Valid()
  {
    var size, magic := Octal(|e.data|, 11), Ascii("ustar");
    seq(SECTOR, i requires 0 <= i < SECTOR =>
      if i < |e.name| then e.name[i]
      else if 124 <= i < 135 then size[i - 124]
      else if i == 156 then e.TypeFlag()
      else if 257 <= i < 262 then magic[i - 257]
      else if 345 <= i < 345 + |e.prefix| then e.prefix[i - 345]
      else 0)
  }

  function SectorsOf(data: seq<Byte>): seq<Sector> {
    seq((|data| + 511) / 512, j requires 0 <= j < (|data| + 511) / 512 => DataSector(data, j))
  }

  function DataSector(data: seq<Byte>, j: nat): Sector {
    seq(SECTOR, i requires 0 <= i < SECTOR => if 512 * j + i < |data| then data[512 * j + i] else 0)
  }

  function ZeroSector(): Sector { seq(SECTOR, _ => 0) }

  /** The members in order and two sectors of zeros. */
  function Write(entries: seq<Entry>): seq<Sector>
    requires forall e | e in entries :: e.Valid()
  {
    if entries == [] then [ZeroSector(), ZeroSector()]
    else [HeaderOf(entries[0])] + SectorsOf(entries[0].data) + Write(entries[1..])
  }

  lemma HeaderWritten(e: Entry)
    requires e.Valid()
    ensures IsHeader(HeaderOf(e), e)
  {
    hide Octal;
    var h := HeaderOf(e);
    assert h[0..|e.name|] == e.name;
    assert h[345..345 + |e.prefix|] == e.prefix;
    assert h[124..135] == Octal(|e.data|, 11);
    assert HasMagic(h);
  }

  lemma DataWritten(disk: Disk, at: nat, data: seq<Byte>)
    requires at + |SectorsOf(data)| <= TWO_28 && disk[at..at + |SectorsOf(data)|] == SectorsOf(data)
    ensures DataAt(disk, at, data)
  {
    forall i | 0 <= i < |data|
      ensures disk[at + i / 512][i % 512] == data[i]
    {
      var j := i / 512;
      assert disk[at + j] == disk[at..at + |SectorsOf(data)|][j] == DataSector(data, j);
    }
  }

  /** A disk that carries what the writer writes carries an archive of those members, so all of the
      above applies to it. */
  lemma {:induction false} WrittenIsArchive(disk: Disk, at: nat, entries: seq<Entry>)
    requires (forall e | e in entries :: e.Valid())
    requires at + |Write(entries)| <= TWO_28 && disk[at..at + |Write(entries)|] == Write(entries)
    ensures IsArchive(disk, at, entries)
    decreases |entries|
  {
    hide HeaderOf, IsHeader, SectorsOf, DataAt, Signed, Entry.Valid, ZeroSector, Entry.DataSectors;
    var w := Write(entries);
    var here := disk[at..at + |w|];
    if entries == [] {
      assert disk[at] == here[0] == ZeroSector();
      ZerosAreUnsigned();
    } else {
      var e := entries[0];
      var d := SectorsOf(e.data);
      DataLength(e);
      var rest := Write(entries[1..]);
      assert w == [HeaderOf(e)] + d + rest;
      MemberSlices(disk, at, HeaderOf(e), d, rest);
      HeaderWritten(e);
      DataWritten(disk, at + 1, e.data);
      WrittenIsArchive(disk, at + 1 + |d|, entries[1..]);
      ArchiveOf(disk, at, entries);
    }
  }

  lemma MemberSlices(disk: Disk, at: nat, h: Sector, d: seq<Sector>, rest: seq<Sector>)
    requires var w := [h] + d + rest; at + |w| <= TWO_28 && disk[at..at + |w|] == w
    ensures disk[at] == h && disk[at + 1..at + 1 + |d|] == d
    ensures disk[at + 1 + |d|..at + 1 + |d| + |rest|] == rest
  {
    var w := [h] + d + rest;
    assert disk[at] == disk[at..at + |w|][0];
    Slices(h, d, rest);
    SubSlice(disk, at, |w|, 1, 1 + |d|);
    SubSlice(disk, at, |w|, 1 + |d|, |w|);
  }

  lemma ArchiveOf(disk: Disk, at: nat, entries: seq<Entry>)
    requires at < TWO_28 && entries != [] && entries[0].Valid() && IsHeader(disk[at], entries[0])
    requires DataAt(disk, at + 1, entries[0].data)
    requires IsArchive(disk, at + 1 + entries[0].DataSectors(), entries[1..])
    ensures IsArchive(disk, at, entries)
  {
    hide IsHeader, DataAt, Entry.Valid, Signed, Entry.DataSectors;
  }

  lemma ZerosAreUnsigned()
    ensures !Signed(ZeroSector()) && !HasMagic(ZeroSector())
  {
    assert ZeroSector()[257..262][0] == 0;
    MagicIsSigned(ZeroSector());
  }

  lemma Slices<T>(h: T, d: seq<T>, r: seq<T>)
    ensures var w := [h] + d + r;
            w[0] == h && w[1..1 + |d|] == d && w[1 + |d|..] == r
  {
  }

  lemma SubSlice<T>(s: seq<T>, at: nat, n: nat, i: nat, j: nat)
    requires at + n <= |s| && i <= j <= n
    ensures s[at..at + n][i..j] == s[at + i..at + j]
  {
    var a, b := s[at..at + n][i..j], s[at + i..at + j];
    assert forall k | 0 <= k < |a| :: a[k] == s[at + i + k] == b[k];
  }

  lemma DataLength(e: Entry)
    ensures |SectorsOf(e.data)| == e.DataSectors()
  {
  }
}
