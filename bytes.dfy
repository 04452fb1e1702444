/**
 * Bytes and the fixed-width big-endian codecs the engine uses for its on-disk layouts.
 * `Parser.short2Byte/parseShort`, `int2Byte/parseInt` and `long2Byte/parseLong` are not part of this
 * model; they are assumed to be the usual two's-complement big-endian encodings of Java's `short`,
 * `int` and `long`, which is what is defined here.
 */
module Bytes {

  /** A byte as it is stored; `Signed` gives the value Java's signed `byte` has. */
  newtype byte = x: int | 0 <= x < 256

  const TWO_15: int := 0x8000
  const TWO_16: int := 0x1_0000
  const TWO_31: int := 0x8000_0000
  const TWO_32: int := 0x1_0000_0000
  const TWO_63: int := 0x8000_0000_0000_0000
  const TWO_64: int := 0x1_0000_0000_0000_0000

  function Pow256(n: nat): (p: nat)
    ensures p > 0
  {
    if n == 0 then 1 else 256 * Pow256(n - 1)
  }

  /** Half the range of an `n`-byte pattern: the bound of its signed values. */
  function Half(n: nat): (h: int)
    ensures n > 0 ==> 2 * h == Pow256(n)
  {
    if n == 0 then 0 else 128 * Pow256(n - 1)
  }

  lemma Pow256Values()
    ensures Pow256(2) == TWO_16 && Pow256(4) == TWO_32 && Pow256(8) == TWO_64
    ensures Half(2) == TWO_15 && Half(4) == TWO_31 && Half(8) == TWO_63
  {
  }

  predicate IsShort(x: int) { -TWO_15 <= x < TWO_15 }
  predicate IsInt(x: int) { -TWO_31 <= x < TWO_31 }
  predicate IsLong(x: int) { -TWO_63 <= x < TWO_63 }

  /** Java's signed value of a byte. */
  function Signed(b: byte): (v: int)
    ensures -128 <= v < 128
    ensures v == b as int || v == b as int - 256
  {
    if b < 128 then b as int else b as int - 256
  }

  /** The value of `x` after Java's narrowing to `int` (32-bit wrap-around). */
  function JavaInt(x: int): (r: int)
    ensures IsInt(r)
    ensures (r - x) % 0x1_0000_0000 == 0
  {
    (x + 0x8000_0000) % 0x1_0000_0000 - 0x8000_0000
  }

  /** The value of `x` after Java's narrowing to `short` (16-bit wrap-around). */
  function JavaShort(x: int): (r: int)
    ensures IsShort(r)
    ensures (r - x) % 0x1_0000 == 0
  {
    (x + 0x8000) % 0x1_0000 - 0x8000
  }

  /** Java's integer division, which truncates toward zero (Dafny's `/` is Euclidean). */
  function JavaDiv(x: int, d: int): (q: int)
    requires d > 0
    ensures x >= 0 ==> 0 <= x - q * d < d
    ensures x < 0 ==> -d < x - q * d <= 0
  {
    if x >= 0 then x / d else -((-x) / d)
  }

  lemma JavaIntInRange(x: int)
    requires IsInt(x)
    ensures JavaInt(x) == x
  {
  }

  lemma JavaShortInRange(x: int)
    requires IsShort(x)
    ensures JavaShort(x) == x
  {
  }

  function Zeros(n: nat): (s: seq<byte>)
    ensures |s| == n && forall i | 0 <= i < n :: s[i] == 0
  {
    seq(n, _ => 0)
  }

  /** Unsigned big-endian encoding of `x` in `n` bytes. */
  function EncodeBE(n: nat, x: nat): (s: seq<byte>)
    requires x < Pow256(n)
    ensures |s| == n
  {
    if n == 0 then [] else EncodeBE(n - 1, x / 256) + [(x % 256) as byte]
  }

  /** Unsigned big-endian decoding. */
  function DecodeBE(s: seq<byte>): (x: nat)
    ensures x < Pow256(|s|)
  {
    if s == [] then 0 else DecodeBE(s[..|s| - 1]) * 256 + s[|s| - 1] as nat
  }

  lemma {:induction false} DecodeEncodeBE(n: nat, x: nat)
    requires x < Pow256(n)
    ensures DecodeBE(EncodeBE(n, x)) == x
  {
    if n > 0 {
      var s := EncodeBE(n, x);
      assert s[..n - 1] == EncodeBE(n - 1, x / 256);
      DecodeEncodeBE(n - 1, x / 256);
    }
  }

  lemma {:induction false} EncodeDecodeBE(s: seq<byte>)
    ensures EncodeBE(|s|, DecodeBE(s)) == s
  {
    if s != [] {
      var p := s[..|s| - 1];
      var x := DecodeBE(s);
      assert x / 256 == DecodeBE(p);
      assert x % 256 == s[|s| - 1] as nat;
      EncodeDecodeBE(p);
      assert s == p + [s[|s| - 1]];
    }
  }

  /** All-zero bytes decode to 0. */
  lemma {:induction false} ZerosDecode(n: nat)
    ensures DecodeBE(Zeros(n)) == 0
  {
    if n > 0 {
      assert Zeros(n)[..n - 1] == Zeros(n - 1);
      ZerosDecode(n - 1);
    }
  }

  /** Two's-complement value of an `n`-byte pattern. */
  function UnsignedOf(x: int, n: nat): (u: nat)
    requires -Half(n) <= x < Half(n)
    ensures u < Pow256(n)
  {
    if x < 0 then x + Pow256(n) else x
  }

  function SignedOf(u: nat, n: nat): (x: int)
    requires n > 0 && u < Pow256(n)
    ensures -Half(n) <= x < Half(n)
  {
    if u < Half(n) then u else u - Pow256(n)
  }

  function Short2Byte(x: int): (s: seq<byte>)
    requires IsShort(x)
    ensures |s| == 2
  {
    Pow256Values();
    EncodeBE(2, UnsignedOf(x, 2))
  }

  /** Written out byte by byte rather than through DecodeBE; DecodeShort shows the two agree. */
  function ParseShort(s: seq<byte>): (x: int)
    requires |s| == 2
    ensures IsShort(x)
  {
    var u := s[0] as int * 0x100 + s[1] as int;
    if u < TWO_15 then u else u - TWO_16
  }

  lemma DecodeShort(s: seq<byte>)
    requires |s| == 2
    ensures ParseShort(s) == SignedOf(DecodeBE(s), 2)
  {
    Pow256Values();
    assert s[..1][..0] == [];
    assert DecodeBE(s[..1]) == s[0] as nat;
    assert DecodeBE(s) == s[0] as nat * 256 + s[1] as nat;
  }

  function Int2Byte(x: int): (s: seq<byte>)
    requires IsInt(x)
    ensures |s| == 4
  {
    Pow256Values();
    EncodeBE(4, UnsignedOf(x, 4))
  }

  /** Written out byte by byte rather than through DecodeBE; DecodeInt shows the two agree. */
  function ParseInt(s: seq<byte>): (x: int)
    requires |s| == 4
    ensures IsInt(x)
  {
    var u := s[0] as int * 0x100_0000 + s[1] as int * 0x1_0000 + s[2] as int * 0x100 + s[3] as int;
    if u < TWO_31 then u else u - TWO_32
  }

  lemma DecodeInt(s: seq<byte>)
    requires |s| == 4
    ensures ParseInt(s) == SignedOf(DecodeBE(s), 4)
  {
    Pow256Values();
    assert s[..3][..2] == s[..2];
    assert s[..2][..1] == s[..1];
    assert s[..1][..0] == [];
    assert DecodeBE(s[..1]) == s[0] as nat;
    assert DecodeBE(s[..2]) == s[0] as nat * 256 + s[1] as nat;
    assert DecodeBE(s[..3]) == (s[0] as nat * 256 + s[1] as nat) * 256 + s[2] as nat;
    assert DecodeBE(s) == ((s[0] as nat * 256 + s[1] as nat) * 256 + s[2] as nat) * 256 + s[3] as nat;
  }

  function Long2Byte(x: int): (s: seq<byte>)
    requires IsLong(x)
    ensures |s| == 8
  {
    Pow256Values();
    EncodeBE(8, UnsignedOf(x, 8))
  }

  function ParseLong(s: seq<byte>): (x: int)
    requires |s| == 8
    ensures IsLong(x)
  {
    Pow256Values();
    SignedOf(DecodeBE(s), 8)
  }

  lemma SignedRoundTrip(n: nat, x: int)
    requires n > 0 && -Half(n) <= x < Half(n)
    ensures DecodeBE(EncodeBE(n, UnsignedOf(x, n))) == UnsignedOf(x, n)
    ensures SignedOf(UnsignedOf(x, n), n) == x
  {
    DecodeEncodeBE(n, UnsignedOf(x, n));
  }

  lemma BytesRoundTrip(s: seq<byte>)
    requires |s| > 0
    ensures UnsignedOf(SignedOf(DecodeBE(s), |s|), |s|) == DecodeBE(s)
    ensures EncodeBE(|s|, DecodeBE(s)) == s
  {
    EncodeDecodeBE(s);
  }

  lemma ShortRoundTrip(x: int)
    requires IsShort(x)
    ensures ParseShort(Short2Byte(x)) == x
  {
    Pow256Values();
    DecodeShort(Short2Byte(x));
    SignedRoundTrip(2, x);
  }

  lemma ShortBytesRoundTrip(s: seq<byte>)
    requires |s| == 2
    ensures Short2Byte(ParseShort(s)) == s
  {
    Pow256Values();
    DecodeShort(s);
    BytesRoundTrip(s);
  }

  lemma IntRoundTrip(x: int)
    requires IsInt(x)
    ensures ParseInt(Int2Byte(x)) == x
  {
    Pow256Values();
    DecodeInt(Int2Byte(x));
    SignedRoundTrip(4, x);
  }

  lemma IntBytesRoundTrip(s: seq<byte>)
    requires |s| == 4
    ensures Int2Byte(ParseInt(s)) == s
  {
    Pow256Values();
    DecodeInt(s);
    BytesRoundTrip(s);
  }

  lemma LongRoundTrip(x: int)
    requires IsLong(x)
    ensures ParseLong(Long2Byte(x)) == x
  {
    Pow256Values();
    SignedRoundTrip(8, x);
  }

  lemma LongBytesRoundTrip(s: seq<byte>)
    requires |s| == 8
    ensures Long2Byte(ParseLong(s)) == s
  {
    Pow256Values();
    BytesRoundTrip(s);
  }

  /** `s` with `d` written over it from index `off` on (`System.arraycopy` into a buffer). */
  function Overwrite<T>(s: seq<T>, off: nat, d: seq<T>): (r: seq<T>)
    requires off + |d| <= |s|
    ensures |r| == |s|
    ensures r[off..off + |d|] == d
    ensures forall i | 0 <= i < |s| && !(off <= i < off + |d|) :: r[i] == s[i]
  {
    s[..off] + d + s[off + |d|..]
  }

  lemma OverwriteAt<T>(s: seq<T>, off: nat, d: seq<T>, i: nat)
    requires off + |d| <= |s| && i < |s|
    ensures Overwrite(s, off, d)[i] == if off <= i < off + |d| then d[i - off] else s[i]
  {
  }

  /** Writes `d` into `dst` from `pos` on. */
  method WriteBytes(dst: array<byte>, pos: nat, d: seq<byte>)
    requires pos + |d| <= dst.Length
    modifies dst
    ensures dst[..] == Overwrite(old(dst[..]), pos, d)
  {
    forall i | 0 <= i < |d| {
      dst[pos + i] := d[i];
    }
    assert forall i | 0 <= i < dst.Length :: dst[..][i] == Overwrite(old(dst[..]), pos, d)[i] by {
      forall i | 0 <= i < dst.Length ensures dst[..][i] == Overwrite(old(dst[..]), pos, d)[i] {
        OverwriteAt(old(dst[..]), pos, d, i);
      }
    }
  }

  /** A fresh buffer holding `s`, as `Arrays.copyOf` or a wrapping constructor gives one. */
  method NewBuffer(s: seq<byte>) returns (a: array<byte>)
    ensures fresh(a) && a[..] == s
  {
    a := new byte[|s|](i requires 0 <= i < |s| => s[i]);
  }

  /** `System.arraycopy`: copies as if through a temporary buffer, so overlapping ranges are fine. */
  method ArrayCopy(src: array<byte>, srcPos: nat, dst: array<byte>, dstPos: nat, len: nat)
    requires srcPos + len <= src.Length && dstPos + len <= dst.Length
    modifies dst
    ensures dst[..] == Overwrite(old(dst[..]), dstPos, old(src[srcPos..srcPos + len]))
  {
    var tmp := src[srcPos..srcPos + len];
    WriteBytes(dst, dstPos, tmp);
  }

  /** `setLength` on a file: cut it to `n` bytes, or extend it with zeros. */
  function SetLength(f: seq<byte>, n: nat): (r: seq<byte>)
    ensures |r| == n
    ensures forall i | 0 <= i < n :: r[i] == if i < |f| then f[i] else 0
  {
    if n <= |f| then f[..n] else f + Zeros(n - |f|)
  }

  /**
   * A file after writing `d` at `off`. A write past the end grows the file; the bytes between the
   * old end and the write are taken to read as zero.
   */
  function WriteAt(f: seq<byte>, off: nat, d: seq<byte>): (r: seq<byte>)
    ensures |r| == if off + |d| > |f| then off + |d| else |f|
    ensures r[off..off + |d|] == d
    ensures forall i | 0 <= i < |r| && !(off <= i < off + |d|) :: r[i] == if i < |f| then f[i] else 0
  {
    Overwrite(SetLength(f, if off + |d| > |f| then off + |d| else |f|), off, d)
  }

  /** The byte a read at `i` sees: zero past the end of the file. */
  function ByteAt(f: seq<byte>, i: nat): byte
  {
    if i < |f| then f[i] else 0
  }

  /**
   * Reading `n` bytes at `off` into a zeroed buffer: bytes past the end of the file stay zero.
   * ReadAtIndex states what each byte read is.
   */
  function ReadAt(f: seq<byte>, off: nat, n: nat): (r: seq<byte>)
    ensures |r| == n
  {
    if n == 0 then [] else ReadAt(f, off, n - 1) + [ByteAt(f, off + n - 1)]
  }

  lemma {:induction false} ReadAtIndex(f: seq<byte>, off: nat, n: nat)
    ensures forall i | 0 <= i < n :: ReadAt(f, off, n)[i] == ByteAt(f, off + i)
  {
    if n > 0 {
      ReadAtIndex(f, off, n - 1);
    }
  }

  /** Inside the file a read is a slice of it. */
  lemma ReadAtSlice(f: seq<byte>, off: nat, n: nat)
    requires off + n <= |f|
    ensures ReadAt(f, off, n) == f[off..off + n]
  {
    ReadAtIndex(f, off, n);
  }

  /** Part of a read is the read of that part. */
  lemma ReadAtPart(f: seq<byte>, off: nat, n: nat, lo: nat, hi: nat)
    requires lo <= hi <= n
    ensures ReadAt(f, off, n)[lo..hi] == ReadAt(f, off + lo, hi - lo)
  {
    ReadAtIndex(f, off, n);
    ReadAtIndex(f, off + lo, hi - lo);
  }

  /** What is written with WriteAt reads back with ReadAt. */
  lemma ReadAfterWrite(f: seq<byte>, off: nat, d: seq<byte>)
    ensures ReadAt(WriteAt(f, off, d), off, |d|) == d
  {
    var w := WriteAt(f, off, d);
    ReadAtSlice(w, off, |d|);
  }

  /** Writing over the front of a file replaces exactly that front. */
  lemma WriteAtFront(h: seq<byte>, rest: seq<byte>, d: seq<byte>)
    requires |h| == |d|
    ensures WriteAt(h + rest, 0, d) == d + rest
  {
    var r := WriteAt(h + rest, 0, d);
    assert forall i | 0 <= i < |r| :: r[i] == (d + rest)[i] by {
      forall i | 0 <= i < |r| ensures r[i] == (d + rest)[i] {
        if i < |d| {
          assert r[i] == r[0..|d|][i];
        }
      }
    }
  }

  /** A slice that holds `a + b` holds `a` and then `b`. */
  lemma SliceSplit<T>(s: seq<T>, pos: nat, a: seq<T>, b: seq<T>)
    requires pos + |a| + |b| <= |s| && s[pos..pos + |a| + |b|] == a + b
    ensures s[pos..pos + |a|] == a
    ensures s[pos + |a|..pos + |a| + |b|] == b
  {
    assert s[pos..pos + |a|] == s[pos..pos + |a| + |b|][..|a|];
    assert s[pos + |a|..pos + |a| + |b|] == s[pos..pos + |a| + |b|][|a|..];
  }

  /** A slice of a slice is a slice of the whole. */
  lemma SubSlice<T>(s: seq<T>, lo: int, hi: int, a: int, b: int)
    requires 0 <= lo <= hi <= |s| && 0 <= a <= b <= hi - lo
    ensures s[lo..hi][a..b] == s[lo + a..lo + b]
  {
    forall i | 0 <= i < b - a
      ensures s[lo..hi][a..b][i] == s[lo + a..lo + b][i]
    {
      assert s[lo..hi][a..b][i] == s[lo..hi][a + i];
    }
  }
}
