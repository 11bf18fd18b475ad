/** The Source RCON wire frame: a little-endian int32 size, request id and
    type, the UTF-8 body and two NUL bytes (rcon.py, create_packet and the
    parsing half of receive_packet). */
module Codec {
  import opened Wire
  import opened Utf8
  import opened Text
  import opened Outcomes

  /** Packet type codes. The authentication response and the command
      request share the value 2. */
  const ExecCommand: int := 2
  const AuthResponse: int := 2
  const Auth: int := 3

  /** secrets.randbelow(2147483647) + 1 lies in [1, MaxRequestId]. */
  const MaxRequestId: int := 0x7FFF_FFFF

  /** The size field counts the request id, the type and the two NULs. */
  const HeaderOverhead: int := 10

  /** The dictionary receive_packet returns. */
  datatype Packet = Packet(size: int, requestId: int, packetType: int, body: string)

  predicate IsRequestId(id: int) {
    1 <= id <= MaxRequestId
  }

  /** create_packet(packet_type, body) with the random request id given as a
      parameter. struct.pack raises struct.error when the size or the type
      does not fit an int32. */
  function CreatePacket(requestId: int, packetType: int, body: string): (r: Result<seq<Byte>>)
    requires IsRequestId(requestId)
    ensures r.Err? <==> !IsInt32(packetType) || HeaderOverhead + |Encode(body)| > MaxInt32
    ensures r.Err? ==> r.error == StructError(PackRangeMessage)
    ensures r.Ok? ==>
              var frame, n := r.value, |Encode(body)|;
              && |frame| == 14 + n
              && DecodeInt32(frame[0..4]) == HeaderOverhead + n
              && DecodeInt32(frame[4..8]) == requestId
              && DecodeInt32(frame[8..12]) == packetType
              && frame[12..12 + n] == Encode(body)
              && frame[12 + n..] == [0, 0]
  {
    var bytes := Encode(body);
    var size := HeaderOverhead + |bytes|;
    if !IsInt32(packetType) || !IsInt32(size) then Err(StructError(PackRangeMessage))
    else
      var frame := EncodeInt32(size) + EncodeInt32(requestId) + EncodeInt32(packetType) + bytes + [0, 0];
      Int32RoundTrip(size);
      Int32RoundTrip(requestId);
      Int32RoundTrip(packetType);
      assert frame[0..4] == EncodeInt32(size);
      assert frame[4..8] == EncodeInt32(requestId);
      assert frame[8..12] == EncodeInt32(packetType);
      Ok(frame)
  }

  /** The body text a received frame yields: .strip() and then .strip('\x00'). */
  function CleanBody(text: string): (r: string)
    ensures |r| <= |text|
    ensures r != [] ==> r[0] != '\0' && r[|r| - 1] != '\0'
  {
    Strip(Strip(text, PyWhitespace), Nul)
  }

  /** The declared size of a buffer that holds at least a header. */
  function DeclaredSize(buf: seq<Byte>): (size: int)
    requires |buf| >= 12
    ensures IsInt32(size)
  {
    DecodeInt32(buf[0..4])
  }

  /** response[12:response_size + 4]. */
  function BodyBytes(buf: seq<Byte>): (r: seq<Byte>)
    requires |buf| >= 12
    ensures 12 + |r| <= |buf| && r == buf[12..12 + |r|]
  {
    PySlice(buf, 12, DeclaredSize(buf) + 4)
  }

  /** The parsing half of receive_packet, applied to the bytes one recv(4096) returned. */
  function ParsePacket(buf: seq<Byte>): (r: Result<Packet>)
    ensures |buf| < 12 <==> r == Err(ConnectionError(DamagedPacketMessage))
    ensures r.Err? ==> r.error in {ConnectionError(DamagedPacketMessage), UnicodeDecodeError}
    ensures r.Ok? ==>
              && r.value.size == DecodeInt32(buf[0..4])
              && r.value.requestId == DecodeInt32(buf[4..8])
              && r.value.packetType == DecodeInt32(buf[8..12])
              && Decode(BodyBytes(buf)).Some?
              && r.value.body == CleanBody(Decode(BodyBytes(buf)).value)
  {
    if |buf| < 12 then Err(ConnectionError(DamagedPacketMessage))
    else
      match Decode(BodyBytes(buf))
      case None => Err(UnicodeDecodeError)
      case Some(text) =>
        Ok(Packet(DecodeInt32(buf[0..4]), DecodeInt32(buf[4..8]), DecodeInt32(buf[8..12]), CleanBody(text)))
  }

  /** The body never reaches before byte 12 or past the buffer; a
      non-negative declared size ends it at size + 4 (clamped into
      [12, |buf|]), and a negative one counts size + 4 from the end of the
      buffer, as Python's slicing does. */
  lemma BodyWindow(buf: seq<Byte>)
    requires |buf| >= 12
    ensures var stop, e := DeclaredSize(buf) + 4, 12 + |BodyBytes(buf)|;
            && e <= |buf|
            && BodyBytes(buf) == buf[12..e]
            && (0 <= stop ==> e == if stop < 12 then 12 else if stop > |buf| then |buf| else stop)
            && (stop < 0 ==> e == if |buf| + stop < 12 then 12 else |buf| + stop)
  {
    PySliceBounds(buf, 12, DeclaredSize(buf) + 4);
  }

  /** Bytes past the declared frame end never change what is parsed: a
      buffer that holds a whole frame parses the same with anything after it. */
  lemma ParseIgnoresTail(buf: seq<Byte>, tail: seq<Byte>)
    requires |buf| >= 12
    requires 0 <= DeclaredSize(buf) + 4 <= |buf|
    ensures ParsePacket(buf + tail) == ParsePacket(buf)
  {
    var long := buf + tail;
    assert long[0..4] == buf[0..4] && long[4..8] == buf[4..8] && long[8..12] == buf[8..12];
    BodyWindow(buf);
    BodyWindow(long);
    assert BodyBytes(long) == buf[12..12 + |BodyBytes(buf)|];
  }

  /** A body survives the trip through a frame exactly when the cleaning
      step cannot bite into it. */
  predicate SurvivesCleaning(body: string) {
    body == [] || (body[0] !in PyWhitespace && body[0] != '\0' && body[|body| - 1] != '\0')
  }

  /** Cleaning the transmitted text (the body and its two NULs) gives back
      the body if and only if the body survives cleaning. */
  lemma CleanPaddedBody(body: string)
    ensures CleanBody(body + "\0\0") == body <==> SurvivesCleaning(body)
  {
    var t := body + "\0\0";
    assert '\0' !in PyWhitespace;
    if body == [] {
      StripKeeps(t, PyWhitespace);
      assert LeadingRun(t, Nul) == 2;
    } else if body[0] in PyWhitespace {
      CleanAfterLeadingSpace(body);
    } else {
      StripKeeps(t, PyWhitespace);
      if body[0] == '\0' {
        StripShrinks(t, Nul, 1, 2);
      } else if body[|body| - 1] == '\0' {
        StripShrinks(t, Nul, 0, 3);
      } else {
        CleanKeepsNulFreeEnds(t, |body|);
      }
    }
  }

  /** A body that starts with whitespace loses that character and then its
      padding, so it comes back shorter. */
  lemma CleanAfterLeadingSpace(body: string)
    requires body != [] && body[0] in PyWhitespace
    ensures |CleanBody(body + "\0\0")| < |body|
  {
    var t := body + "\0\0";
    assert '\0' !in PyWhitespace;
    var i := LeadingRun(t, PyWhitespace);
    var s1 := Strip(t, PyWhitespace);
    assert i >= 1;
    // .strip() can remove neither NUL, so it keeps the whole tail of t.
    assert t[|t| - 2] !in PyWhitespace && t[|t| - 1] !in PyWhitespace;
    assert i <= |t| - 2;
    assert i + |s1| == |t|;
    assert s1[|s1| - 1] == '\0' && s1[|s1| - 2] == '\0';
    StripShrinks(s1, Nul, 0, 2);
  }

  /** Stripping NULs from text whose first character is not a NUL and
      whose last NUL-free character sits at index n - 1 cuts it to length n. */
  lemma CleanKeepsNulFreeEnds(t: string, n: nat)
    requires 0 < n <= |t| && t[0] != '\0' && t[n - 1] != '\0'
    requires forall k :: n <= k < |t| ==> t[k] == '\0'
    ensures Strip(t, Nul) == t[..n]
  {
    var r := Strip(t, Nul);
    assert LeadingRun(t, Nul) == 0;
    assert t[n - 1] !in Nul;
    assert |r| >= n;
    assert r != [] ==> r[|r| - 1] == t[|r| - 1];
    assert |r| <= n;
  }

  /** A buffer whose body bytes decode to text parses to its header fields
      and the cleaned text. */
  lemma ParseDecodable(buf: seq<Byte>, text: string)
    requires |buf| >= 12 && Decode(BodyBytes(buf)) == Some(text)
    ensures ParsePacket(buf) == Ok(Packet(DecodeInt32(buf[0..4]), DecodeInt32(buf[4..8]), DecodeInt32(buf[8..12]), CleanBody(text)))
  {
  }

  /** The bytes a parser takes as the body of a created frame are the
      encoding of the body followed by its two NULs. */
  lemma FrameBody(requestId: int, packetType: int, body: string)
    requires IsRequestId(requestId)
    requires CreatePacket(requestId, packetType, body).Ok?
    ensures var frame := CreatePacket(requestId, packetType, body).value;
            BodyBytes(frame) == Encode(body + "\0\0")
  {
    var frame := CreatePacket(requestId, packetType, body).value;
    var n := |Encode(body)|;
    EncodeAppend(body, "\0\0");
    assert Encode("\0\0") == [0, 0];
    assert DeclaredSize(frame) + 4 == |frame|;
    assert frame[12..] == frame[12..12 + n] + frame[12 + n..];
  }

  /** What create_packet frames, the parser reads back: the size field, the
      request id and the type exactly, and the body as cleaning leaves it. */
  lemma ParseCreated(requestId: int, packetType: int, body: string)
    requires IsRequestId(requestId)
    requires CreatePacket(requestId, packetType, body).Ok?
    ensures ParsePacket(CreatePacket(requestId, packetType, body).value)
            == Ok(Packet(HeaderOverhead + |Encode(body)|, requestId, packetType, CleanBody(body + "\0\0")))
  {
    var frame := CreatePacket(requestId, packetType, body).value;
    FrameBody(requestId, packetType, body);
    ParseFrame(frame, requestId, packetType, body);
  }

  /** A buffer laid out as a frame of body, with the given header fields,
      parses to those fields and the cleaned padded body. */
  lemma ParseFrame(frame: seq<Byte>, requestId: int, packetType: int, body: string)
    requires |frame| >= 12
    requires DecodeInt32(frame[0..4]) == HeaderOverhead + |Encode(body)|
    requires DecodeInt32(frame[4..8]) == requestId && DecodeInt32(frame[8..12]) == packetType
    requires BodyBytes(frame) == Encode(body + "\0\0")
    ensures ParsePacket(frame)
            == Ok(Packet(HeaderOverhead + |Encode(body)|, requestId, packetType, CleanBody(body + "\0\0")))
  {
    DecodeEncode(body + "\0\0");
    ParseDecodable(frame, body + "\0\0");
  }

  /** The codec round trip: parsing a created frame returns the body that
      was sent if and only if the body survives cleaning. */
  lemma ParseRoundTrip(requestId: int, packetType: int, body: string)
    requires IsRequestId(requestId)
    requires CreatePacket(requestId, packetType, body).Ok?
    ensures var p := ParsePacket(CreatePacket(requestId, packetType, body).value);
            && p.Ok?
            && p.value.requestId == requestId
            && p.value.packetType == packetType
            && p.value.size == HeaderOverhead + |Encode(body)|
            && (p.value.body == body <==> SurvivesCleaning(body))
  {
    ParseCreated(requestId, packetType, body);
    CleanPaddedBody(body);
  }
}
