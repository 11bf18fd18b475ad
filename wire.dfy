/** Bytes, the little-endian two's-complement int32 that Python's struct
    module packs and unpacks with the '<i' format, and Python's slice
    arithmetic on byte strings. */
module Wire {

  type Byte = b: int | 0 <= b < 0x100

  const MinInt32: int := -0x8000_0000
  const MaxInt32: int := 0x7FFF_FFFF

  predicate IsInt32(x: int) {
    MinInt32 <= x <= MaxInt32
  }

  /** The unsigned 32-bit pattern of a signed int32 (two's complement). */
  function Unsigned32(x: int): (u: int)
    requires IsInt32(x)
    ensures 0 <= u < 0x1_0000_0000
    ensures u % 0x1_0000_0000 == x % 0x1_0000_0000
  {
    if x < 0 then x + 0x1_0000_0000 else x
  }

  /** struct.pack('<i', x): the four bytes of x, least significant first. */
  function EncodeInt32(x: int): (r: seq<Byte>)
    requires IsInt32(x)
    ensures |r| == 4
    ensures x < 0 <==> r[3] >= 0x80
  {
    var u := Unsigned32(x);
    [u % 0x100, u / 0x100 % 0x100, u / 0x1_0000 % 0x100, u / 0x100_0000]
  }

  /** The unsigned value of four little-endian bytes. */
  function Word(b: seq<Byte>): (u: int)
    requires |b| == 4
    ensures 0 <= u < 0x1_0000_0000
  {
    b[0] as int + 0x100 * (b[1] as int) + 0x1_0000 * (b[2] as int) + 0x100_0000 * (b[3] as int)
  }

  /** struct.unpack('<i', b): the signed value of four little-endian bytes. */
  function DecodeInt32(b: seq<Byte>): (x: int)
    requires |b| == 4
    ensures IsInt32(x)
    ensures x < 0 <==> b[3] >= 0x80
  {
    var u := Word(b);
    if u >= 0x8000_0000 then u - 0x1_0000_0000 else u
  }

  /** The digits of u in base 256, as EncodeInt32 computes them, rebuild u. */
  lemma WordDigits(u: int)
    requires 0 <= u < 0x1_0000_0000
    ensures u == u % 0x100 + 0x100 * (u / 0x100 % 0x100)
                 + 0x1_0000 * (u / 0x1_0000 % 0x100) + 0x100_0000 * (u / 0x100_0000)
  {
    var q1, r1 := u / 0x100, u % 0x100;
    var q2, r2 := q1 / 0x100, q1 % 0x100;
    var q3, r3 := q2 / 0x100, q2 % 0x100;
    assert u == 0x1_0000 * q2 + 0x100 * r2 + r1;
    assert u / 0x1_0000 == q2;
    assert u == 0x100_0000 * q3 + 0x1_0000 * r3 + 0x100 * r2 + r1;
    assert u / 0x100_0000 == q3;
  }

  /** Unpacking what was packed gives the value back. */
  lemma Int32RoundTrip(x: int)
    requires IsInt32(x)
    ensures DecodeInt32(EncodeInt32(x)) == x
  {
    var u := Unsigned32(x);
    WordDigits(u);
    assert Word(EncodeInt32(x)) == u;
  }

  /** Division by a power of 256 read off a decomposition a == q * d + r. */
  lemma DivByte(a: int, q: int, r: int)
    requires 0 <= r < 0x100 && a == q * 0x100 + r
    ensures a / 0x100 == q && a % 0x100 == r
  {
  }

  lemma DivTwoBytes(a: int, q: int, r: int)
    requires 0 <= r < 0x1_0000 && a == q * 0x1_0000 + r
    ensures a / 0x1_0000 == q
  {
  }

  lemma DivThreeBytes(a: int, q: int, r: int)
    requires 0 <= r < 0x100_0000 && a == q * 0x100_0000 + r
    ensures a / 0x100_0000 == q
  {
  }

  /** Packing what was unpacked gives the bytes back: every four-byte string
      is the encoding of exactly one int32. */
  lemma Int32BytesRoundTrip(b: seq<Byte>)
    requires |b| == 4
    ensures EncodeInt32(DecodeInt32(b)) == b
  {
    var b0, b1, b2, b3 := b[0] as int, b[1] as int, b[2] as int, b[3] as int;
    var u := Word(b);
    assert Unsigned32(DecodeInt32(b)) == u;
    DivByte(u, b1 + 0x100 * b2 + 0x1_0000 * b3, b0);
    DivByte(b1 + 0x100 * b2 + 0x1_0000 * b3, b2 + 0x100 * b3, b1);
    DivTwoBytes(u, b2 + 0x100 * b3, b0 + 0x100 * b1);
    DivByte(b2 + 0x100 * b3, b3, b2);
    DivThreeBytes(u, b3, b0 + 0x100 * b1 + 0x1_0000 * b2);
  }

  /** Different int32 values never share an encoding. */
  lemma EncodeInt32Injective(x: int, y: int)
    requires IsInt32(x) && IsInt32(y)
    requires EncodeInt32(x) == EncodeInt32(y)
    ensures x == y
  {
    Int32RoundTrip(x);
    Int32RoundTrip(y);
  }

  /** Where a Python slice index `i` lands in a sequence of length n:
      a negative index counts from the end, and both ends are clamped. */
  function ClampIndex(i: int, n: nat): (k: nat)
    ensures k <= n
  {
    if i < 0 then (if n + i < 0 then 0 else n + i)
    else if i > n then n
    else i
  }

  /** Python's `s[start:stop]` with a step of one. */
  function PySlice<T>(s: seq<T>, start: int, stop: int): (r: seq<T>)
    ensures |r| <= |s|
    ensures 0 <= start <= |s| ==> start + |r| <= |s| && r == s[start..start + |r|]
  {
    var lo := ClampIndex(start, |s|);
    var hi := ClampIndex(stop, |s|);
    if lo < hi then s[lo..hi] else []
  }

  /** A slice from a valid start index is a run of consecutive elements of s
      that begins at start and never reaches past min(stop, |s|) when stop is
      non-negative, or past |s| + stop when it is negative. */
  lemma PySliceBounds<T>(s: seq<T>, start: nat, stop: int)
    requires start <= |s|
    ensures var r := PySlice(s, start, stop);
            start + |r| <= |s| && r == s[start..start + |r|]
    ensures 0 <= stop ==> |PySlice(s, start, stop)| == if stop <= start then 0 else (if stop < |s| then stop else |s|) - start
    ensures stop < 0 ==> |PySlice(s, start, stop)| == if |s| + stop <= start then 0 else |s| + stop - start
  {
  }
}
