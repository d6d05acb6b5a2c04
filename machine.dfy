/** The parts of the Nachos machine that the kernel core relies on: page
    geometry, address packing, Java's 32-bit `int`, the signed `byte`, the
    translation entry and the 4-byte integer encoding used to pass words
    through user memory. */
module Machine {

  /** Bytes per page (Nachos `Processor.pageSize`). */
  const PageSize: int := 1024

  const Int32Min: int := -0x8000_0000
  const Int32Max: int := 0x7fff_ffff
  const TwoTo32: int := 0x1_0000_0000

  /** Java's `byte` is signed. */
  newtype byte = x: int | -128 <= x < 128

  predicate IsInt32(x: int) { Int32Min <= x <= Int32Max }

  /** The value a Java `int` expression takes when its mathematical value is `x`. */
  function Wrap32(x: int): (r: int)
    ensures IsInt32(r)
    ensures (x - r) % TwoTo32 == 0
    ensures IsInt32(x) ==> r == x
  {
    (x - Int32Min) % TwoTo32 + Int32Min
  }

  /** Two values congruent modulo 2^32 take the same Java `int` value. */
  lemma Wrap32Congruent(x: int, y: int)
    requires (x - y) % TwoTo32 == 0
    ensures Wrap32(x) == Wrap32(y)
  {
    var k := (x - y) / TwoTo32;
    assert x - Int32Min == (y - Int32Min) + k * TwoTo32;
  }

  const Int64Min: int := -0x8000_0000_0000_0000
  const Int64Max: int := 0x7fff_ffff_ffff_ffff
  const TwoTo64: int := 0x1_0000_0000_0000_0000

  predicate IsInt64(x: int) { Int64Min <= x <= Int64Max }

  /** The value a Java `long` expression takes when its mathematical value is `x`. */
  function Wrap64(x: int): (r: int)
    ensures IsInt64(r)
    ensures (x - r) % TwoTo64 == 0
    ensures IsInt64(x) ==> r == x
  {
    (x - Int64Min) % TwoTo64 + Int64Min
  }

  /** One page-table (or TLB) entry of the machine. */
  datatype TranslationEntry = TranslationEntry(
    vpn: int, ppn: int, valid: bool, readOnly: bool, used: bool, dirty: bool)

  /** The entry the kernel stores in a slot it does not use: virtual page
      `vpn`, frame 0, every flag clear. */
  function InvalidEntry(vpn: int): (e: TranslationEntry)
    ensures e.vpn == vpn && !e.valid && !e.readOnly && !e.used && !e.dirty
  {
    TranslationEntry(vpn, 0, false, false, false, false)
  }

  /** Address packing, `page * pageSize + offset`. */
  function MakeAddress(page: int, offset: int): int { page * PageSize + offset }

  /** The page an address falls in. */
  function PageFromAddress(addr: int): int { addr / PageSize }

  /** The position of an address within its page. */
  function OffsetFromAddress(addr: int): int { addr % PageSize }

  lemma AddressRoundTrip(page: int, offset: int)
    requires 0 <= offset < PageSize
    ensures PageFromAddress(MakeAddress(page, offset)) == page
    ensures OffsetFromAddress(MakeAddress(page, offset)) == offset
  {
  }

  lemma AddressSplit(addr: int)
    ensures MakeAddress(PageFromAddress(addr), OffsetFromAddress(addr)) == addr
    ensures 0 <= OffsetFromAddress(addr) < PageSize
  {
  }

  /** An address lies in page `p` exactly when it is in `[p*PageSize, (p+1)*PageSize)`. */
  lemma PageOfAddress(addr: int, p: int)
    requires p * PageSize <= addr < p * PageSize + PageSize
    ensures PageFromAddress(addr) == p
    ensures OffsetFromAddress(addr) == addr - p * PageSize
  {
  }

  /** A Java cast `(byte) v`: the low eight bits, read as a signed byte. */
  function ToByte(v: int): (b: byte)
    ensures (b as int - v) % 256 == 0
  {
    ((v + 128) % 256 - 128) as byte
  }

  /** `b & 0xFF`: a byte read as an unsigned value. */
  function Unsigned(b: byte): (u: int)
    ensures 0 <= u < 256 && (u - b as int) % 256 == 0
  {
    if b < 0 then b as int + 256 else b as int
  }

  lemma UnsignedToByte(v: int)
    ensures Unsigned(ToByte(v)) == v % 256
  {
  }

  /** The bytes of a 32-bit word. */
  const WordSize: nat := 4

  /** The little-endian 4-byte image of a 32-bit word (Nachos
      `Lib.bytesFromInt`). */
  function BytesFromInt(x: int): (r: seq<byte>)
    ensures |r| == 4
  {
    LowBytes(x % TwoTo32, WordSize)
  }

  /** The `n` low bytes of `u`, least significant first. */
  function LowBytes(u: int, n: nat): (r: seq<byte>)
    ensures |r| == n
    decreases n
  {
    if n == 0 then [] else [ToByte(u)] + LowBytes(u / 0x100, n - 1)
  }

  /** The 32-bit word whose little-endian image is `b` (Nachos
      `Lib.bytesToInt`); the top byte's high bit is the sign. */
  function BytesToInt(b: seq<byte>): (x: int)
    requires |b| == 4
    ensures IsInt32(x)
  {
    Wrap32(Unsigned(b[0]) + Unsigned(b[1]) * 0x100 + Unsigned(b[2]) * 0x1_0000
           + Unsigned(b[3]) * 0x100_0000)
  }

  /** Shifting right by 8 twice is shifting right by 16, for the unsigned values used here. */
  lemma ShiftTwice(u: int, d: int)
    requires 0 <= u && (d == 1 || d == 0x100 || d == 0x1_0000)
    ensures u / d / 256 == u / (d * 256)
    ensures u / d == (u / (d * 256)) * 256 + (u / d) % 256
  {
    var q := u / d;
    var p := q / 256;
    assert q == p * 256 + q % 256;
    assert u == q * d + u % d;
    assert u == p * (d * 256) + (q % 256) * d + u % d;
    assert 0 <= (q % 256) * d + u % d < d * 256;
  }

  /** The four byte fields of an unsigned 32-bit value add back up to it. */
  lemma ByteFieldsSum(u: int)
    requires 0 <= u < TwoTo32
    ensures u % 256 + (u / 0x100 % 256) * 0x100 + (u / 0x1_0000 % 256) * 0x1_0000
            + (u / 0x100_0000 % 256) * 0x100_0000 == u
  {
    ShiftTwice(u, 1);
    ShiftTwice(u, 0x100);
    ShiftTwice(u, 0x1_0000);
    assert u / 0x100_0000 < 256;
    DigitsCombine(u, u % 256, u / 0x100 % 256, u / 0x1_0000 % 256, u / 0x100_0000 % 256,
                  u / 0x100, u / 0x1_0000, u / 0x100_0000);
  }

  /** Base-256 digits put back together, with the quotients named. */
  lemma DigitsCombine(u: int, b0: int, b1: int, b2: int, b3: int, q1: int, q2: int, q3: int)
    requires u == q1 * 256 + b0 && q1 == q2 * 256 + b1 && q2 == q3 * 256 + b2 && b3 == q3
    ensures b0 + b1 * 0x100 + b2 * 0x1_0000 + b3 * 0x100_0000 == u
  {
  }

  lemma WrapOfResidue(x: int, u: int)
    requires IsInt32(x) && u == x % TwoTo32
    ensures Wrap32(u) == x
  {
    if x < 0 {
      assert u == x + TwoTo32;
    }
  }

  /** Decoding the image of a 32-bit word gives the word back: a word passed
      through user memory with these routines arrives unchanged. */
  lemma BytesRoundTrip(x: int)
    requires IsInt32(x)
    ensures BytesToInt(BytesFromInt(x)) == x
  {
    var u := x % TwoTo32;
    var b := BytesFromInt(x);
    ShiftTwice(u, 0x100);
    ShiftTwice(u, 0x1_0000);
    assert b == [ToByte(u)] + LowBytes(u / 0x100, 3);
    assert LowBytes(u / 0x100, 3) == [ToByte(u / 0x100)] + LowBytes(u / 0x1_0000, 2);
    assert LowBytes(u / 0x1_0000, 2) == [ToByte(u / 0x1_0000)] + LowBytes(u / 0x100_0000, 1);
    assert LowBytes(u / 0x100_0000, 1) == [ToByte(u / 0x100_0000)];
    UnsignedToByte(u);
    UnsignedToByte(u / 0x100);
    UnsignedToByte(u / 0x1_0000);
    UnsignedToByte(u / 0x100_0000);
    assert Unsigned(b[0]) == u % 256 && Unsigned(b[1]) == u / 0x100 % 256;
    assert Unsigned(b[2]) == u / 0x1_0000 % 256 && Unsigned(b[3]) == u / 0x100_0000 % 256;
    ByteFieldsSum(u);
    assert BytesToInt(b) == Wrap32(u);
    WrapOfResidue(x, u);
  }

  /** The byte-by-byte copy loop the kernel uses to move a run of bytes
      between physical memory and a kernel buffer. */
  method CopyBytes(src: array<byte>, from: int, dst: array<byte>, to: int, count: int)
    requires src != dst
    requires 0 <= count && 0 <= from && from + count <= src.Length
    requires 0 <= to && to + count <= dst.Length
    modifies dst
    ensures forall a | to <= a < to + count :: dst[a] == src[from + (a - to)]
    ensures forall a | 0 <= a < dst.Length && !(to <= a < to + count) :: dst[a] == old(dst[a])
  {
    var j := 0;
    while j < count
      invariant 0 <= j <= count
      invariant forall a | to <= a < to + j :: dst[a] == src[from + (a - to)]
      invariant forall a | 0 <= a < dst.Length && !(to <= a < to + j) :: dst[a] == old(dst[a])
    {
      dst[to + j] := src[from + j];
      j := j + 1;
    }
  }
}

/** Helpers shared by the kernel models: an optional value (Java's null
    reference) and sequence reversal. */
module Util {

  datatype Option<T> = None | Some(value: T)

  /** A slice splits at any point inside it. */
  lemma SliceSplit<T>(s: seq<T>, a: int, b: int, c: int)
    requires 0 <= a <= b <= c <= |s|
    ensures s[a..c] == s[a..b] + s[b..c]
  {
    assert forall i | 0 <= i < c - a :: s[a..c][i] == s[a + i];
  }

  /** A prefix of `a + b` no longer than `a` is a prefix of `a`. */
  lemma PrefixOfAppend<T>(a: seq<T>, b: seq<T>, k: int)
    requires 0 <= k <= |a|
    ensures (a + b)[..k] == a[..k]
  {
  }

  /** When `s` starts with `p + w`, the run of `s + t` after `p` is `w`. */
  lemma RunAfterPrefix<T>(s: seq<T>, t: seq<T>, p: seq<T>, w: seq<T>)
    requires |p| + |w| <= |s| && s[..|p| + |w|] == p + w
    ensures (s + t)[|p|..|p| + |w|] == w
  {
    forall x | 0 <= x < |w|
      ensures (s + t)[|p| + x] == w[x]
    {
      assert s[..|p| + |w|][|p| + x] == (p + w)[|p| + x];
    }
  }

  /** `s` back to front. */
  function Reversed<T>(s: seq<T>): (r: seq<T>)
    ensures |r| == |s|
  {
    if s == [] then [] else [s[|s| - 1]] + Reversed(s[..|s| - 1])
  }

  lemma {:induction false} ReversedAt<T>(s: seq<T>, k: int)
    requires 0 <= k < |s|
    ensures Reversed(s)[k] == s[|s| - 1 - k]
  {
    if k > 0 {
      ReversedAt(s[..|s| - 1], k - 1);
    }
  }

  /** Reversal keeps every element and its multiplicity. */
  lemma {:induction false} ReversedMultiset<T>(s: seq<T>)
    ensures multiset(Reversed(s)) == multiset(s)
  {
    if s != [] {
      ReversedMultiset(s[..|s| - 1]);
      assert s == s[..|s| - 1] + [s[|s| - 1]];
    }
  }

  lemma {:induction false} ReversedSnoc<T>(s: seq<T>, x: T)
    ensures Reversed(s + [x]) == [x] + Reversed(s)
  {
    assert (s + [x])[..|s + [x]| - 1] == s;
  }

  /** Pushing `x` in front of `Reversed(s) + rest` gives `Reversed(s + [x]) + rest`. */
  lemma ReversedSnocAppend<T>(s: seq<T>, x: T, rest: seq<T>)
    ensures [x] + (Reversed(s) + rest) == Reversed(s + [x]) + rest
  {
    ReversedSnoc(s, x);
  }

  /** `m` with `b` written over it from index `a` on. */
  function Splice<T>(m: seq<T>, a: int, b: seq<T>): (r: seq<T>)
    requires 0 <= a && a + |b| <= |m|
    ensures |r| == |m|
  {
    seq(|m|, j requires 0 <= j < |m| => if a <= j < a + |b| then b[j - a] else m[j])
  }

  /** Element `x` of a splice comes from `b` inside the written run and
      from `m` everywhere else. */
  lemma SpliceAt<T>(m: seq<T>, a: int, b: seq<T>, x: int)
    requires 0 <= a && a + |b| <= |m| && 0 <= x < |m|
    ensures Splice(m, a, b)[x] == if a <= x < a + |b| then b[x - a] else m[x]
  {
  }

  /** Splicing in nothing leaves the sequence as it is. */
  lemma SpliceEmpty<T>(m: seq<T>, a: int)
    requires 0 <= a <= |m|
    ensures Splice(m, a, []) == m
  {
  }

  /** Two splices end to end are one splice of the two runs. */
  lemma SpliceExtend<T>(m: seq<T>, a: int, x: seq<T>, b: int, y: seq<T>)
    requires 0 <= a && b == a + |x| && b + |y| <= |m|
    ensures Splice(Splice(m, a, x), b, y) == Splice(m, a, x + y)
  {
    forall j | 0 <= j < |m|
      ensures Splice(Splice(m, a, x), b, y)[j] == Splice(m, a, x + y)[j]
    {
      SpliceAt(m, a, x, j);
      SpliceAt(Splice(m, a, x), b, y, j);
      SpliceAt(m, a, x + y, j);
    }
  }

  /** `r` is `m` with run `x` written at `a` and then run `y` at `b`. */
  ghost predicate SplicedTwice<T>(r: seq<T>, m: seq<T>, a: int, x: seq<T>, b: int, y: seq<T>)
  {
    0 <= a && a + |x| <= |m| && 0 <= b && b + |y| <= |m| && r == Splice(Splice(m, a, x), b, y)
  }

  lemma SplicedTwiceUnique<T>(r: seq<T>, r': seq<T>, m: seq<T>, a: int, x: seq<T>, b: int, y: seq<T>)
    requires SplicedTwice(r, m, a, x, b, y) && SplicedTwice(r', m, a, x, b, y)
    ensures r == r'
  {
  }

  /** Two runs `x` at `a` and `y` at `b`, the first below the second, each
      extended in place by a further run written right after it: memory
      `after` holds the runs `xs` and `ys` they have become. */
  lemma SpliceExtendBoth<T>(m: seq<T>, a: int, x: seq<T>, b: int, y: seq<T>,
                            c: int, x': seq<T>, d: int, y': seq<T>,
                            xs: seq<T>, ys: seq<T>, before: seq<T>, after: seq<T>)
    requires 0 <= a && c == a + |x| && c + |x'| <= b && d == b + |y| && d + |y'| <= |m|
    requires xs == x + x' && ys == y + y'
    requires SplicedTwice(before, m, a, x, b, y)
    requires after == Splice(Splice(before, c, x'), d, y')
    ensures SplicedTwice(after, m, a, xs, b, ys)
  {
    forall j | 0 <= j < |m|
      ensures after[j] == Splice(Splice(m, a, xs), b, ys)[j]
    {
    }
  }
}
