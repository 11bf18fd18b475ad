/** Strict UTF-8, as Python's str.encode('utf-8') and bytes.decode('utf-8')
    apply it: the decoder accepts exactly the well-formed byte sequences of
    the Unicode standard (no overlong forms, no surrogates, nothing above
    U+10FFFF) and fails on anything else. A Dafny char is a Unicode scalar
    value, so every string can be encoded. */
module Utf8 {
  import opened Wire
  import opened Outcomes

  predicate IsContinuation(b: Byte) {
    0x80 <= b <= 0xBF
  }

  /** The one to four bytes that encode c. */
  function EncodeChar(c: char): (r: seq<Byte>)
    ensures 1 <= |r| <= 4
    ensures |r| == 1 <==> (c as int) < 0x80
  {
    var cp := c as int;
    if cp < 0x80 then [cp]
    else if cp < 0x800 then [0xC0 + cp / 0x40, 0x80 + cp % 0x40]
    else if cp < 0x1_0000 then [0xE0 + cp / 0x1000, 0x80 + cp / 0x40 % 0x40, 0x80 + cp % 0x40]
    else [0xF0 + cp / 0x4_0000, 0x80 + cp / 0x1000 % 0x40, 0x80 + cp / 0x40 % 0x40, 0x80 + cp % 0x40]
  }

  /** s.encode('utf-8'). */
  function Encode(s: string): (r: seq<Byte>)
    ensures |s| <= |r| <= 4 * |s|
    decreases |s|
  {
    if s == [] then [] else EncodeChar(s[0]) + Encode(s[1..])
  }

  /** The character at the front of b and the number of bytes it takes, or
      None when b does not start with a well-formed sequence. */
  function DecodeChar(b: seq<Byte>): (r: Option<(char, nat)>)
    requires |b| > 0
    ensures r.Some? ==> 1 <= r.value.1 <= |b| && r.value.1 <= 4
  {
    var b0 := b[0] as int;
    if b0 < 0x80 then Some((b0 as char, 1))
    else if 0xC2 <= b0 <= 0xDF then
      if |b| >= 2 && IsContinuation(b[1]) then
        Some((((b0 - 0xC0) * 0x40 + (b[1] as int - 0x80)) as char, 2))
      else None
    else if 0xE0 <= b0 <= 0xEF then
      var lo := if b0 == 0xE0 then 0xA0 else 0x80;
      var hi := if b0 == 0xED then 0x9F else 0xBF;
      if |b| >= 3 && lo <= b[1] <= hi && IsContinuation(b[2]) then
        Some((((b0 - 0xE0) * 0x1000 + (b[1] as int - 0x80) * 0x40 + (b[2] as int - 0x80)) as char, 3))
      else None
    else if 0xF0 <= b0 <= 0xF4 then
      var lo := if b0 == 0xF0 then 0x90 else 0x80;
      var hi := if b0 == 0xF4 then 0x8F else 0xBF;
      if |b| >= 4 && lo <= b[1] <= hi && IsContinuation(b[2]) && IsContinuation(b[3]) then
        Some((((b0 - 0xF0) * 0x4_0000 + (b[1] as int - 0x80) * 0x1000
               + (b[2] as int - 0x80) * 0x40 + (b[3] as int - 0x80)) as char, 4))
      else None
    else None
  }

  /** b.decode('utf-8'), with None for the UnicodeDecodeError it raises. */
  function Decode(b: seq<Byte>): (r: Option<string>)
    ensures b == [] ==> r == Some([])
    ensures r.Some? ==> |r.value| <= |b|
    decreases |b|
  {
    if b == [] then Some([])
    else match DecodeChar(b)
      case None => None
      case Some((c, n)) =>
        match Decode(b[n..])
        case None => None
        case Some(s) => Some([c] + s)
  }

  /** A string that starts with c encodes as c followed by the rest. */
  lemma EncodeCons(c: char, s: string)
    ensures Encode([c] + s) == EncodeChar(c) + Encode(s)
  {
    var cs := [c] + s;
    assert cs[0] == c && cs[1..] == s;
  }

  /** Encoding distributes over concatenation. */
  lemma {:induction false} EncodeAppend(s: string, t: string)
    ensures Encode(s + t) == Encode(s) + Encode(t)
    decreases |s|
  {
    if s == [] {
      assert s + t == t;
    } else {
      assert (s + t)[0] == s[0] && (s + t)[1..] == s[1..] + t;
      EncodeAppend(s[1..], t);
    }
  }

  /** The decoder reads back the character the encoder wrote, whatever follows. */
  lemma DecodeEncodeChar(c: char, rest: seq<Byte>)
    ensures |EncodeChar(c) + rest| > 0
    ensures DecodeChar(EncodeChar(c) + rest) == Some((c, |EncodeChar(c)|))
  {
    var cp := c as int;
    if cp < 0x80 {
    } else if cp < 0x800 {
      DecodeTwoBytes(c, rest);
    } else if cp < 0x1_0000 {
      DecodeThreeBytes(c, rest);
    } else {
      DecodeFourBytes(c, rest);
    }
  }

  lemma DecodeTwoBytes(c: char, rest: seq<Byte>)
    requires 0x80 <= c as int < 0x800
    ensures DecodeChar(EncodeChar(c) + rest) == Some((c, 2))
  {
    var cp := c as int;
    assert cp == (cp / 0x40) * 0x40 + cp % 0x40;
  }

  lemma DecodeThreeBytes(c: char, rest: seq<Byte>)
    requires 0x800 <= c as int < 0x1_0000
    ensures DecodeChar(EncodeChar(c) + rest) == Some((c, 3))
  {
    var cp := c as int;
    var q := cp / 0x40;
    assert cp == (q / 0x40) * 0x1000 + (q % 0x40) * 0x40 + cp % 0x40;
    assert cp / 0x1000 == q / 0x40;
  }

  lemma DecodeFourBytes(c: char, rest: seq<Byte>)
    requires 0x1_0000 <= c as int
    ensures DecodeChar(EncodeChar(c) + rest) == Some((c, 4))
  {
    var cp := c as int;
    var q := cp / 0x40;
    var q2 := q / 0x40;
    assert cp == (q2 / 0x40) * 0x4_0000 + (q2 % 0x40) * 0x1000 + (q % 0x40) * 0x40 + cp % 0x40;
    assert cp / 0x1000 == q2;
    assert cp / 0x4_0000 == q2 / 0x40;
  }

  /** Decoding what was encoded gives the string back. */
  lemma {:induction false} DecodeEncode(s: string)
    ensures Decode(Encode(s)) == Some(s)
    decreases |s|
  {
    if s != [] {
      var e := EncodeChar(s[0]);
      DecodeEncodeChar(s[0], Encode(s[1..]));
      assert (e + Encode(s[1..]))[|e|..] == Encode(s[1..]);
      DecodeEncode(s[1..]);
      assert [s[0]] + s[1..] == s;
    }
  }

  /** The arithmetic behind EncodeDecodeChar, one lemma per sequence length. */
  lemma TwoByteDigits(b0: int, b1: int)
    requires 0xC2 <= b0 <= 0xDF && 0x80 <= b1 <= 0xBF
    ensures var cp := (b0 - 0xC0) * 0x40 + (b1 - 0x80);
            0x80 <= cp < 0x800 && 0xC0 + cp / 0x40 == b0 && 0x80 + cp % 0x40 == b1
  {
  }

  lemma ThreeByteDigits(b0: int, b1: int, b2: int)
    requires 0xE0 <= b0 <= 0xEF && 0x80 <= b1 <= 0xBF && 0x80 <= b2 <= 0xBF
    requires b0 == 0xE0 ==> 0xA0 <= b1
    ensures var cp := (b0 - 0xE0) * 0x1000 + (b1 - 0x80) * 0x40 + (b2 - 0x80);
            0x800 <= cp < 0x1_0000 && 0xE0 + cp / 0x1000 == b0
            && 0x80 + cp / 0x40 % 0x40 == b1 && 0x80 + cp % 0x40 == b2
  {
    var cp := (b0 - 0xE0) * 0x1000 + (b1 - 0x80) * 0x40 + (b2 - 0x80);
    assert cp / 0x40 == (b0 - 0xE0) * 0x40 + (b1 - 0x80);
  }

  lemma FourByteDigits(b0: int, b1: int, b2: int, b3: int)
    requires 0xF0 <= b0 <= 0xF4 && 0x80 <= b1 <= 0xBF && 0x80 <= b2 <= 0xBF && 0x80 <= b3 <= 0xBF
    requires b0 == 0xF0 ==> 0x90 <= b1
    ensures var cp := (b0 - 0xF0) * 0x4_0000 + (b1 - 0x80) * 0x1000 + (b2 - 0x80) * 0x40 + (b3 - 0x80);
            0x1_0000 <= cp && 0xF0 + cp / 0x4_0000 == b0 && 0x80 + cp / 0x1000 % 0x40 == b1
            && 0x80 + cp / 0x40 % 0x40 == b2 && 0x80 + cp % 0x40 == b3
  {
    var cp := (b0 - 0xF0) * 0x4_0000 + (b1 - 0x80) * 0x1000 + (b2 - 0x80) * 0x40 + (b3 - 0x80);
    assert cp / 0x40 == (b0 - 0xF0) * 0x1000 + (b1 - 0x80) * 0x40 + (b2 - 0x80);
    assert cp / 0x1000 == (b0 - 0xF0) * 0x40 + (b1 - 0x80);
  }

  /** A character read by the decoder is encoded by exactly the bytes it was read from. */
  lemma EncodeDecodeChar(b: seq<Byte>)
    requires |b| > 0 && DecodeChar(b).Some?
    ensures EncodeChar(DecodeChar(b).value.0) == b[..DecodeChar(b).value.1]
  {
    var b0 := b[0] as int;
    if b0 < 0x80 {
    } else if b0 <= 0xDF {
      EncodeTwoBytes(b);
    } else if b0 <= 0xEF {
      EncodeThreeBytes(b);
    } else {
      EncodeFourBytes(b);
    }
  }

  lemma EncodeTwoBytes(b: seq<Byte>)
    requires |b| > 0 && DecodeChar(b).Some? && 0x80 <= b[0] <= 0xDF
    ensures DecodeChar(b).value.1 == 2
    ensures EncodeChar(DecodeChar(b).value.0) == b[..2]
  {
    TwoByteDigits(b[0], b[1]);
  }

  lemma EncodeThreeBytes(b: seq<Byte>)
    requires |b| > 0 && DecodeChar(b).Some? && 0xE0 <= b[0] <= 0xEF
    ensures DecodeChar(b).value.1 == 3
    ensures EncodeChar(DecodeChar(b).value.0) == b[..3]
  {
    ThreeByteDigits(b[0], b[1], b[2]);
  }

  lemma EncodeFourBytes(b: seq<Byte>)
    requires |b| > 0 && DecodeChar(b).Some? && 0xF0 <= b[0]
    ensures DecodeChar(b).value.1 == 4
    ensures EncodeChar(DecodeChar(b).value.0) == b[..4]
  {
    FourByteDigits(b[0], b[1], b[2], b[3]);
  }

  /** A buffer that is the encoding of c up to n and of rest after it is the
      encoding of c followed by rest. */
  lemma EncodeSplit(b: seq<Byte>, c: char, n: nat, rest: string)
    requires n <= |b| && EncodeChar(c) == b[..n] && Encode(rest) == b[n..]
    ensures Encode([c] + rest) == b
  {
    EncodeCons(c, rest);
    assert b == b[..n] + b[n..];
  }

  /** One step of the decoder: a decodable buffer starts with a decodable
      character, and the rest decodes to the rest of the string. */
  lemma DecodeStep(b: seq<Byte>)
    requires b != [] && Decode(b).Some?
    ensures DecodeChar(b).Some?
    ensures Decode(b[DecodeChar(b).value.1..]).Some?
    ensures Decode(b).value == [DecodeChar(b).value.0] + Decode(b[DecodeChar(b).value.1..]).value
  {
  }

  /** Whatever the decoder accepts is the encoding of what it returns, so
      decoding is one-to-one and the encoder never produces two spellings. */
  lemma {:induction false} EncodeDecode(b: seq<Byte>)
    requires Decode(b).Some?
    ensures Encode(Decode(b).value) == b
    decreases |b|
  {
    if b != [] {
      DecodeStep(b);
      var d := DecodeChar(b).value;
      EncodeDecodeChar(b);
      EncodeDecode(b[d.1..]);
      EncodeSplit(b, d.0, d.1, Decode(b[d.1..]).value);
    }
  }
}
