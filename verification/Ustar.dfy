/** ustar.c: the scan over the header sectors of an archive, and the file lookup and loading built
    on it. */
module Ustar {
  import opened Bits
  import opened MemoryRoutines

  const TWO_28: nat := 0x1000_0000
  const SECTOR: nat := 512

  type Sector = s: seq<Byte> | |s| == SECTOR ghost witness seq(SECTOR, _ => 0)

  ghost const BLANK: Sector := seq(SECTOR, _ => 0)

  /** The disk as the sectors a 28-bit sector number can name. */
  type Disk = d: seq<Sector> | |d| == TWO_28 ghost witness seq<Sector>(TWO_28, _ => BLANK)

  // The driver is given a u32 and sends 28 bits of it; later sectors follow on the disk.
  function Lba(start: nat): (n: nat)
    ensures n < TWO_28
  {
    start % TWO_32 % TWO_28
  }

  // The bytes of n consecutive sectors.
  function Contents(disk: Disk, first: nat, n: nat): (r: seq<Byte>)
    requires first + n <= TWO_28
    ensures |r| == n * SECTOR
  {
    if n == 0 then [] else Contents(disk, first, n - 1) + disk[first + n - 1]
  }

  lemma NoSectors(disk: Disk, first: nat)
    requires first <= TWO_28
    ensures Contents(disk, first, 0) == []
  {
  }

  lemma NextSector(disk: Disk, first: nat, j: nat)
    requires first + j < TWO_28
    ensures Contents(disk, first, j + 1) == Contents(disk, first, j) + disk[first + j]
  {
  }

  // ATA_PIO_read_sectors; the count is a u8.
  method ReadSectors(disk: Disk, dst: array<Byte>, start: nat, num: nat)
    requires Lba(start) + num % 0x100 <= TWO_28 && num % 0x100 * SECTOR <= dst.Length
    modifies dst
    ensures dst[..] == Contents(disk, Lba(start), num % 0x100) + old(dst[num % 0x100 * SECTOR..])
  {
    hide Lba, Contents;
    var first := Lba(start);
    var n := num % 0x100;
    NoSectors(disk, first);
    ghost var m := dst[..];
    for j := 0 to n
      invariant |dst[..]| == |m| && dst[..] == Contents(disk, first, j) + m[j * SECTOR..]
    {
      NextSector(disk, first, j);
      ghost var before := dst[..];
      TransferSector(dst, j * SECTOR, disk[first + j]);
      OneSector(m, Contents(disk, first, j), before, disk[first + j], j);
    }
  }

  // The 256 words of one sector.
  method TransferSector(dst: array<Byte>, at: nat, sector: Sector)
    requires at + SECTOR <= dst.Length
    modifies dst
    ensures dst[..] == old(dst[..])[..at] + sector + old(dst[..])[at + SECTOR..]
  {
    forall i | 0 <= i < SECTOR {
      dst[at + i] := sector[i];
    }
  }

  lemma OneSector(m: seq<Byte>, done: seq<Byte>, before: seq<Byte>, sector: Sector, j: nat)
    requires |done| == j * SECTOR && j * SECTOR + SECTOR <= |m| && before == done + m[j * SECTOR..]
    ensures before[..j * SECTOR] + sector + before[j * SECTOR + SECTOR..] == done + sector + m[(j + 1) * SECTOR..]
  {
  }

  // ---- Header sectors ----

  // oct2bin; the subtraction is an int, which the sum takes modulo 2^64
  function OctValue(s: seq<Byte>): (r: nat)
    ensures r < TWO_64
  {
    if s == [] then 0
    else (OctValue(s[..|s| - 1]) * 8 + (s[|s| - 1] as int) - 48) % TWO_64
  }

  lemma NextDigit(str: seq<Byte>, i: nat)
    requires i < |str|
    ensures OctValue(str[..i + 1]) == (OctValue(str[..i]) * 8 % TWO_64 + (str[i] as int) - 48) % TWO_64
  {
    assert str[..i + 1][..i] == str[..i];
    DropMultiple(OctValue(str[..i]) * 8, (str[i] as int) - 48);
  }

  lemma NoDigits()
    ensures OctValue([]) == 0
  {
  }

  lemma DropMultiple(x: nat, y: int)
    ensures (x % TWO_64 + y) % TWO_64 == (x + y) % TWO_64
  {
  }

  method Oct2Bin(str: seq<Byte>, size: nat) returns (result: nat)
    requires size <= |str|
    ensures result == OctValue(str[..size])
  {
    result := 0;
    hide OctValue;
    assert OctValue(str[..0]) == 0 by { NoDigits(); }
    for i := 0 to size
      invariant result == OctValue(str[..i])
    {
      NextDigit(str, i);
      result := result * 8 % TWO_64;
      result := (result + (str[i] as int) - 48) % TWO_64;
    }
  }

  const USTAR: seq<Byte> := [117, 115, 116, 97, 114]

  predicate Signed(h: Sector) { h[257..262] == USTAR }

  function FileName(h: Sector): seq<Byte> { [47] + Chars(h[345..], 155) + Chars(h, 100) }

  predicate Matches(h: Sector, path: seq<Byte>) { FileName(h) == Chars(path, 257) }

  // The size in a variable of the given width: u64 in the lookup, u32 when loading.
  function SizeIn(h: Sector, width: nat): nat
    requires width in {TWO_32, TWO_64}
  {
    OctValue(h[0x7c..0x87]) % width
  }

  // num_sectors, always a u32
  function SectorCount(size: nat, width: nat): nat
    requires width in {TWO_32, TWO_64}
  {
    (size + 511) % width / 512 % TWO_32
  }

  // How far a header that does not match moves the scan: only files and directories do.
  function Advance(h: Sector, width: nat): nat
    requires width in {TWO_32, TWO_64}
  {
    if h[156] in {0, 48} then 1 + SectorCount(SizeIn(h, width), width)
    else if h[156] == 53 then 1
    else 0
  }

  // ---- The scan ----

  datatype Outcome = Scanning(seeker: nat) | Found(seeker: nat, size: nat) | Missing

  function Step(disk: Disk, lba: nat, path: seq<Byte>, width: nat, seeker: nat): Outcome
    requires width in {TWO_32, TWO_64}
  {
    var h := disk[Lba((seeker + lba) % TWO_64)];
    if !Signed(h) then Missing
    else if Matches(h, path) then Found(seeker, SizeIn(h, width))
    else Scanning((seeker + Advance(h, width)) % TWO_64)
  }

  /** The state of the endless loop after n iterations. */
  function Scan(disk: Disk, lba: nat, path: seq<Byte>, width: nat, n: nat): Outcome
    requires width in {TWO_32, TWO_64}
  {
    if n == 0 then Scanning(0)
    else
      match Scan(disk, lba, path, width, n - 1)
      case Scanning(seeker) => Step(disk, lba, path, width, seeker)
      case done => done
  }

  // The comparison of a header with the path, through the 257-byte name buffer.
  method CompareName(buf: array<Byte>, path: seq<Byte>) returns (result: int)
    requires buf.Length == SECTOR && Readable(path, 257)
    ensures result == 0 <==> Matches(buf[..], path)
  {
    hide Chars;
    var filename := new Byte[257];
    Memset(filename, 0, 0, 257);
    ZeroFilled(filename);
    filename[0] := 47;
    var h := buf[..];
    var prefixSize := Strncpy(filename, 1, h[345..], 155);
    assert filename[..1 + prefixSize] == [47] + Chars(h[345..], 155);
    assert forall j | 1 + prefixSize <= j < 257 :: filename[j] == 0;
    var nameSize := Strncpy(filename, 1 + prefixSize, h, 100);
    ghost var k := 1 + prefixSize + nameSize;
    assert filename[..k] == [47] + Chars(h[345..], 155) + Chars(h, 100);
    assert filename[k] == 0;
    CharsAre(filename[..], 257, k);
    assert filename[..][..k] == filename[..k];
    result := Strncmp(filename[..], path, 257);
  }

  lemma ZeroFilled(filename: array<Byte>)
    requires filename.Length == 257
    requires forall j | 0 <= j < 257 :: filename[j] == SetByte(0, 257, 0, j)
    ensures forall j | 0 <= j < 257 :: filename[j] == 0
  {
  }

  lemma {:induction false} ScanStable(disk: Disk, lba: nat, path: seq<Byte>, width: nat, k: nat, n: nat)
    requires width in {TWO_32, TWO_64} && k <= n && !Scan(disk, lba, path, width, k).Scanning?
    ensures Scan(disk, lba, path, width, n) == Scan(disk, lba, path, width, k)
  {
    hide Step;
    if k < n {
      ScanStable(disk, lba, path, width, k, n - 1);
    }
  }

  // One iteration of the loop, up to the switch, with the size held in a variable of `width`.
  method ReadHeader(disk: Disk, lba: nat, path: seq<Byte>, width: nat, seeker: nat, buf: array<Byte>)
    returns (signed: bool, matches: bool, size: nat, numSectors: nat)
    requires width in {TWO_32, TWO_64} && buf.Length == SECTOR && Readable(path, 257)
    modifies buf
    ensures buf[..] == disk[Lba((seeker + lba) % TWO_64)]
    ensures signed == Signed(buf[..])
    ensures signed ==> matches == Matches(buf[..], path)
    ensures signed ==> size == SizeIn(buf[..], width) && numSectors == SectorCount(size, width)
  {
    hide Lba, Chars, Matches, OctValue;
    ReadSectors(disk, buf, (seeker + lba) % TWO_64, 1);
    NoSectors(disk, Lba((seeker + lba) % TWO_64));
    assert buf[..] == disk[Lba((seeker + lba) % TWO_64)];
    matches, size, numSectors := false, 0, 0;
    var result := Memcmp(buf[257..], USTAR, 5);
    assert buf[257..][..5] == buf[..][257..262] && USTAR[..5] == USTAR;
    signed := result == 0;
    if signed {
      size := Oct2Bin(buf[0x7c..], 11);
      assert buf[0x7c..][..11] == buf[..][0x7c..0x87];
      size := size % width;
      result := CompareName(buf, path);
      matches := result == 0;
      numSectors := (size + 511) % width / 512 % TWO_32;
    }
  }

  // The switch on the type flag.
  method Seek(h: Sector, width: nat, seeker: nat, numSectors: nat) returns (r: nat)
    requires width in {TWO_32, TWO_64} && numSectors == SectorCount(SizeIn(h, width), width)
    ensures r == (seeker + Advance(h, width)) % TWO_64
    requires seeker < TWO_64
  {
    hide SizeIn, SectorCount;
    r := seeker;
    if h[156] == 0 || h[156] == 48 {
      r := (r + 1) % TWO_64;
      r := (r + numSectors) % TWO_64;
      DropMultiple(seeker + 1, numSectors);
    } else if h[156] == 53 {
      r := (r + 1) % TWO_64;
    }
  }

  /** ustar_get_filesize; `before` is what the caller's size variable holds. The number of iterations
      is a ghost bound: the loop itself has none, and runs for ever when the scan does. */
  method GetFilesize(disk: Disk, lba: nat, path: seq<Byte>, before: nat, ghost steps: nat)
    returns (r: nat, size: nat)
    requires Readable(path, 257) && !Scan(disk, lba, path, TWO_64, steps).Scanning?
    ensures match Scan(disk, lba, path, TWO_64, steps)
            case Found(_, n) => r == 0 && size == n
            case _ => r == TWO_64 - 1 && size == before
  {
    hide Signed, Matches, SizeIn, Advance, Lba;
    var buf := new Byte[SECTOR];
    var seeker: nat := 0;
    size := before;
    ghost var k: nat := 0;
    while true
      invariant k <= steps && Scan(disk, lba, path, TWO_64, k) == Scanning(seeker) && seeker < TWO_64
      invariant size == before
      decreases steps - k
    {
      var signed, matches, filesize, numSectors := ReadHeader(disk, lba, path, TWO_64, seeker, buf);
      k := k + 1;
      if !signed {
        ScanStable(disk, lba, path, TWO_64, k, steps);
        break;
      }
      if matches {
        ScanStable(disk, lba, path, TWO_64, k, steps);
        return 0, filesize;
      }
      seeker := Seek(buf[..], TWO_64, seeker, numSectors);
    }
    r := TWO_64 - 1;
  }

  // Where the data of the member found at `seeker` is read, and how many sectors of it.
  function LoadPlace(lba: nat, seeker: nat): nat { Lba(((seeker + 1) % TWO_64 + lba) % TWO_64) }

  function LoadCount(size: nat): nat { SectorCount(size, TWO_32) % 0x100 }

  // The sectors read exist and fit into the buffer.
  predicate LoadFits(o: Outcome, lba: nat, length: nat) {
    o.Found? ==> LoadCount(o.size) * SECTOR <= length && LoadPlace(lba, o.seeker) + LoadCount(o.size) <= TWO_28
  }

  /** The buffer and the value returned when the scan has ended with the given outcome. */
  predicate LoadResult(o: Outcome, disk: Disk, lba: nat, before: seq<Byte>, after: seq<Byte>, r: nat)
    requires LoadFits(o, lba, |before|)
  {
    match o
    case Found(seeker, size) =>
      var n := LoadCount(size);
      r == size && after == Contents(disk, LoadPlace(lba, seeker), n) + before[n * SECTOR..]
    case _ => r == 0 && after == before
  }

  /** ustar_load_file, likewise. */
  method LoadFile(disk: Disk, lba: nat, path: seq<Byte>, dst: array<Byte>, ghost steps: nat) returns (r: nat)
    requires Readable(path, 257) && !Scan(disk, lba, path, TWO_32, steps).Scanning?
    requires LoadFits(Scan(disk, lba, path, TWO_32, steps), lba, dst.Length)
    modifies dst
    ensures LoadResult(Scan(disk, lba, path, TWO_32, steps), disk, lba, old(dst[..]), dst[..], r)
  {
    hide Signed, Matches, SizeIn, Advance, Lba, SectorCount, Contents;
    var buf := new Byte[SECTOR];
    var seeker: nat := 0;
    var found, filesize, numSectors := false, 0, 0;
    ghost var k: nat := 0;
    while true
      invariant k <= steps && Scan(disk, lba, path, TWO_32, k) == Scanning(seeker) && seeker < TWO_64
      invariant fresh(buf) && buf.Length == SECTOR && !found && dst[..] == old(dst[..])
      decreases steps - k
    {
      var signed, matches;
      signed, matches, filesize, numSectors := ReadHeader(disk, lba, path, TWO_32, seeker, buf);
      k := k + 1;
      if !signed {
        ScanStable(disk, lba, path, TWO_32, k, steps);
        break;
      }
      if matches {
        ScanStable(disk, lba, path, TWO_32, k, steps);
        seeker := (seeker + 1) % TWO_64;
        found := true;
        break;
      }
      seeker := Seek(buf[..], TWO_32, seeker, numSectors);
    }
    if !found {
      return 0;
    }
    ReadSectors(disk, dst, (seeker + lba) % TWO_64, numSectors);
    r := filesize;
  }
}
