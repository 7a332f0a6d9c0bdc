/** The memory and string routines of mem.c. Memory is an array of bytes and a pointer an index into
    it, so that the alignment of a pointer is that of its index. */
module MemoryRoutines {

  import opened Bits

  // ---- memcpy ----

  // Memory with the first k bytes copied.
  function Copied(m: seq<Byte>, dst: nat, src: nat, k: nat): (r: seq<Byte>)
    requires dst + k <= |m| && src + k <= |m|
    ensures |r| == |m|
  {
    m[..dst] + m[src..src + k] + m[dst + k..]
  }

  // What a forward copy may overlap: nothing that it has still to read.
  predicate ForwardSafe(dst: nat, src: nat, size: nat) { src + size <= dst || dst <= src }

  lemma StillUnread(m: seq<Byte>, dst: nat, src: nat, size: nat, k: nat, n: nat)
    requires dst + size <= |m| && src + size <= |m| && ForwardSafe(dst, src, size) && k + n <= size
    ensures Copied(m, dst, src, k)[src + k..src + k + n] == m[src + k..src + k + n]
    ensures Copied(m, dst, src, k)[..dst + k] + m[src + k..src + k + n] + Copied(m, dst, src, k)[dst + k + n..] ==
            Copied(m, dst, src, k + n)
  {
    var c := Copied(m, dst, src, k);
    forall p | src + k <= p < src + k + n
      ensures c[p] == m[p]
    {
      if dst <= src { assert p >= dst + k; }
    }
    assert m[src..src + k] + m[src + k..src + k + n] == m[src..src + k + n];
  }

  /** Copies exactly `size` bytes and changes nothing else, for every alignment, when the source lies
      wholly below the destination, or anywhere above its start: each eight-byte read comes before
      any write that could reach it. */
  method Memcpy(mem: array<Byte>, dst: nat, src: nat, size: nat)
    requires dst + size <= mem.Length && src + size <= mem.Length && ForwardSafe(dst, src, size)
    modifies mem
    ensures mem[..] == old(mem[..dst]) + old(mem[src..src + size]) + old(mem[dst + size..])
  {
    hide Copied, ForwardSafe;
    ghost var m := mem[..];
    NothingCopied(m, dst, src);
    var dst8: nat, src8: nat := dst, src;
    while dst8 % 8 != 0 && dst8 < dst + size
      invariant dst <= dst8 <= dst + size && src8 == src + (dst8 - dst)
      invariant mem[..] == Copied(m, dst, src, dst8 - dst)
      decreases dst + size - dst8
    {
      CopyBytes(mem, dst8, src8, 1, m, dst, src, size);
      dst8, src8 := dst8 + 1, src8 + 1;
    }
    while dst8 + 8 < dst + size
      invariant dst <= dst8 <= dst + size && src8 == src + (dst8 - dst)
      invariant mem[..] == Copied(m, dst, src, dst8 - dst)
    {
      CopyBytes(mem, dst8, src8, 8, m, dst, src, size);
      dst8, src8 := dst8 + 8, src8 + 8;
    }
    while dst8 < dst + size
      invariant dst <= dst8 <= dst + size && src8 == src + (dst8 - dst)
      invariant mem[..] == Copied(m, dst, src, dst8 - dst)
    {
      CopyBytes(mem, dst8, src8, 1, m, dst, src, size);
      dst8, src8 := dst8 + 1, src8 + 1;
    }
    AllCopied(m, dst, src, size);
  }

  // One load of n bytes and the store of what it loaded.
  method CopyBytes(mem: array<Byte>, dst8: nat, src8: nat, n: nat, ghost m: seq<Byte>, ghost dst: nat,
                   ghost src: nat, ghost size: nat)
    requires dst + size <= |m| == mem.Length && src + size <= |m| && ForwardSafe(dst, src, size)
    requires dst <= dst8 && dst8 + n <= dst + size && src8 == src + (dst8 - dst)
    requires mem[..] == Copied(m, dst, src, dst8 - dst)
    modifies mem
    ensures mem[..] == Copied(m, dst, src, dst8 + n - dst)
  {
    hide Copied, ForwardSafe;
    StillUnread(m, dst, src, size, dst8 - dst, n);
    ghost var before := mem[..];
    var word := mem[src8..src8 + n];
    forall k | 0 <= k < n {
      mem[dst8 + k] := word[k];
    }
    assert mem[..] == before[..dst8] + word + before[dst8 + n..];
  }

  lemma NothingCopied(m: seq<Byte>, dst: nat, src: nat)
    requires dst <= |m| && src <= |m|
    ensures Copied(m, dst, src, 0) == m
  {
  }

  lemma AllCopied(m: seq<Byte>, dst: nat, src: nat, size: nat)
    requires dst + size <= |m| && src + size <= |m|
    ensures Copied(m, dst, src, size) == m[..dst] + m[src..src + size] + m[dst + size..]
  {
  }

  // ---- memset ----

  // Where the byte-by-byte alignment ends and where the wide stores end.
  function WideStart(dst: nat, size: nat): nat {
    var up := (dst + 7) / 8 * 8;
    if up < dst + size then up else dst + size
  }

  function WideEnd(dst: nat, size: nat): (e: nat)
    ensures WideStart(dst, size) <= e <= dst + size
  {
    var a := WideStart(dst, size);
    if a + 8 < dst + size then a + (dst + size - a - 1) / 8 * 8 else a
  }

  // A wide store writes the value extended to 64 bits: one byte of it and seven zeros.
  function SetByte(dst: nat, size: nat, val: Byte, j: nat): Byte {
    var a := WideStart(dst, size);
    if a <= j < WideEnd(dst, size) && (j - a) % 8 != 0 then 0 else val
  }

  method Memset(mem: array<Byte>, dst: nat, val: Byte, size: nat)
    requires dst + size <= mem.Length
    modifies mem
    ensures forall j | 0 <= j < mem.Length ::
              mem[j] == if dst <= j < dst + size then SetByte(dst, size, val, j) else old(mem[j])
  {
    ghost var a := WideStart(dst, size);
    ghost var m := mem[..];
    var dst8: nat := dst;
    while dst8 % 8 != 0 && dst8 < dst + size
      invariant dst <= dst8 <= a
      decreases dst + size - dst8
      invariant forall j | 0 <= j < mem.Length :: mem[j] == if dst <= j < dst8 then val else m[j]
    {
      mem[dst8] := val;
      dst8 := dst8 + 1;
    }
    assert dst8 == a;
    while dst8 + 8 < dst + size
      invariant a <= dst8 <= WideEnd(dst, size) && (dst8 - a) % 8 == 0
      invariant forall j | 0 <= j < mem.Length ::
                  mem[j] == if dst <= j < dst8 then (if a <= j && (j - a) % 8 != 0 then 0 else val) else m[j]
    {
      var word := [val, 0, 0, 0, 0, 0, 0, 0];
      forall k | 0 <= k < 8 {
        mem[dst8 + k] := word[k];
      }
      dst8 := dst8 + 8;
    }
    assert dst8 == WideEnd(dst, size);
    while dst8 < dst + size
      invariant WideEnd(dst, size) <= dst8 <= dst + size
      invariant forall j | 0 <= j < mem.Length ::
                  mem[j] == if dst <= j < dst8 then SetByte(dst, size, val, j) else m[j]
    {
      mem[dst8] := val;
      dst8 := dst8 + 1;
    }
  }

  /** memset fills its range with the value exactly when the value is zero, which every caller
      passes, or the range has at most eight bytes from its first aligned address on. */
  lemma MemsetFills(dst: nat, size: nat, val: Byte)
    ensures (forall j | dst <= j < dst + size :: SetByte(dst, size, val, j) == val)
       <==> val == 0 || WideStart(dst, size) + 8 >= dst + size
  {
    var a := WideStart(dst, size);
    if val != 0 && a + 8 < dst + size {
      assert SetByte(dst, size, val, a + 1) == 0;
    }
  }

  /** Which bytes that leaves: of each aligned word that lies in the range and ends before its end, only
      the first byte gets the value, and the others are zero. */
  lemma MemsetByte(dst: nat, size: nat, val: Byte, j: nat)
    requires dst <= j < dst + size
    ensures var w := j - j % 8;
            SetByte(dst, size, val, j) == if j % 8 != 0 && dst <= w && w + 8 < dst + size then 0 else val
  {
    var a := WideStart(dst, size);
    if a < dst + size {
      var k, q, r := a / 8, j / 8, j % 8;
      assert a == 8 * k && j == 8 * q + r;
      WideEndPlace(a, dst + size);
    }
  }

  lemma WideEndPlace(a: nat, end: nat)
    requires a % 8 == 0 && a < end
    ensures var e := a + (end - a - 1) / 8 * 8; e % 8 == 0 && e < end <= e + 8
  {
    var k, n := a / 8, (end - a - 1) / 8;
    assert a + n * 8 == 8 * (k + n);
  }

  // ---- memcmp ----

  method Memcmp(b1: seq<Byte>, b2: seq<Byte>, size: nat) returns (r: int)
    requires size <= |b1| && size <= |b2|
    ensures r == if b1[..size] == b2[..size] then 0 else 1
  {
    for i := 0 to size
      invariant b1[..i] == b2[..i]
    {
      if b1[i] != b2[i] {
        assert b1[..size][i] != b2[..size][i];
        return 1;
      }
    }
    r := 0;
  }

  // ---- strings ----

  /** The characters of a string up to its terminator, at most n of them. */
  function Chars(s: seq<Byte>, n: nat): (r: seq<Byte>)
    ensures |r| <= n && r <= s && 0 !in r
  {
    if n == 0 || s == [] || s[0] == 0 then [] else [s[0]] + Chars(s[1..], n - 1)
  }

  // What strncmp and strncpy may read: n characters, or a terminator before.
  predicate Readable(s: seq<Byte>, n: nat) { n <= |s| || 0 in s }

  lemma {:induction false} CharsEnd(s: seq<Byte>, n: nat)
    requires Readable(s, n)
    ensures |Chars(s, n)| == n || (|Chars(s, n)| < |s| && s[|Chars(s, n)|] == 0)
  {
    if n > 0 && s != [] && s[0] != 0 {
      assert 0 in s ==> 0 in s[1..];
      CharsEnd(s[1..], n - 1);
    }
  }

  // A prefix without terminator that is cut short by n or by a terminator is all of the characters.
  lemma {:induction false} CharsAre(s: seq<Byte>, n: nat, k: nat)
    requires k <= n && k <= |s| && 0 !in s[..k] && (k == n || (k < |s| && s[k] == 0))
    ensures Chars(s, n) == s[..k]
  {
    if k > 0 {
      assert s[0] == s[..k][0];
      assert s[1..][..k - 1] == s[..k][1..];
      CharsAre(s[1..], n - 1, k - 1);
      assert s[..k] == [s[0]] + s[1..][..k - 1];
    }
  }

  // The strings agree before i, go on to i, and differ there.
  predicate FirstDifference(s1: seq<Byte>, s2: seq<Byte>, size: nat, i: nat) {
    i < size && i < |s1| && i < |s2| && s1[..i] == s2[..i] && 0 !in s1[..i] && s1[i] != s2[i]
  }

  method Strncmp(s1: seq<Byte>, s2: seq<Byte>, size: nat) returns (r: int)
    requires Readable(s1, size) && Readable(s2, size)
    ensures r == 0 <==> Chars(s1, size) == Chars(s2, size)
    ensures r != 0 ==> exists i: nat :: FirstDifference(s1, s2, size, i) && r == (s1[i] as int) - (s2[i] as int)
  {
    hide Chars;
    var i: nat, left: nat := 0, size;
    CharsEnd(s1, size);
    CharsEnd(s2, size);
    ghost var c1, c2 := Chars(s1, size), Chars(s2, size);
    while left != 0 && s1[i] != 0 && s1[i] == s2[i]
      invariant left == size - i && i <= |c1| && i <= |c2|
      invariant c1[..i] == c2[..i]
      invariant i <= size && s1[..i] == s2[..i] && 0 !in s1[..i]
    {
      i, left := i + 1, left - 1;
    }
    if left == 0 {
      r := 0;
      assert c1 == c1[..i] && c2 == c2[..i];
    } else {
      r := (s1[i] as int) - (s2[i] as int);
      if r == 0 {
        assert c1 == c1[..i] && c2 == c2[..i];
      } else if |c1| > i && |c2| > i {
        assert c1[i] != c2[i];
      }
      assert r != 0 ==> FirstDifference(s1, s2, size, i);
    }
  }

  lemma NextChar(m: seq<Byte>, at: nat, c: seq<Byte>, k: nat)
    requires k < |c| && at + k < |m|
    ensures (m[..at] + c[..k] + m[at + k..])[at + k := c[k]] == m[..at] + c[..k + 1] + m[at + (k + 1)..]
  {
  }

  method Strncpy(dst: array<Byte>, at: nat, src: seq<Byte>, sz: nat) returns (counter: nat)
    requires Readable(src, sz + 1) && at + sz <= dst.Length
    modifies dst
    ensures counter == |Chars(src, sz)|
    ensures dst[..] == old(dst[..at]) + Chars(src, sz) + old(dst[at + counter..])
  {
    hide Chars;
    counter := 0;
    CharsEnd(src, sz);
    ghost var c, before := Chars(src, sz), dst[..];
    while src[counter] != 0 && counter < sz
      decreases sz - counter
      invariant counter <= |c|
      invariant dst[..] == before[..at] + c[..counter] + before[at + counter..]
    {
      NextChar(before, at, c, counter);
      dst[at + counter] := src[counter];
      counter := counter + 1;
    }
    assert c[..counter] == c;
  }
}
