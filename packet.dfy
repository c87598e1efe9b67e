/** The tentative ComfortLink II frame layout: a 10-byte header (destination and source
    addresses big-endian, message type, sequence number, declared payload length, three unknown
    bytes), the payload, and a trailing big-endian 16-bit checksum. Decoding never fails:
    malformed frames carry a `parseError` instead. */
module PacketCodec {
  import opened Wrappers
  import opened ByteSeq

  const HeaderSize: nat := 10
  const ChecksumSize: nat := 2
  const MinPacketSize: nat := HeaderSize + ChecksumSize

  datatype ParseError =
    | TooShort(length: nat)
    | LengthMismatch(expected: Byte, available: nat)

  /** The diagnostic text stored in `parse_error`. */
  function ErrorMessage(e: ParseError): (m: string)
    ensures e.TooShort? ==>
      && |m| == 24 + |Decimal(e.length)|
      && m[..18] == "Packet too short: " && m[18..|m| - 6] == Decimal(e.length) && m[|m| - 6..] == " bytes"
    ensures e.LengthMismatch? ==>
      && |m| == 46 + |Decimal(e.expected)| + |Decimal(e.available)|
      && m[..34] == "Payload length mismatch: expected "
      && m[34..34 + |Decimal(e.expected)|] == Decimal(e.expected)
      && m[34 + |Decimal(e.expected)|..|m| - |Decimal(e.available)|] == ", available "
      && m[|m| - |Decimal(e.available)|..] == Decimal(e.available)
  {
    match e
    case TooShort(n) => "Packet too short: " + Decimal(n) + " bytes"
    case LengthMismatch(x, a) =>
      "Payload length mismatch: expected " + Decimal(x) + ", available " + Decimal(a)
  }

  datatype Packet = Packet(
    raw: seq<Byte>,
    timestamp: real,
    destAddr: U16,
    srcAddr: U16,
    msgType: Byte,
    sequence: Byte,
    payloadLength: Byte,
    headerExtra: seq<Byte>,
    payload: seq<Byte>,
    checksum: U16,
    checksumValid: bool,
    parseError: Option<ParseError>)

  /** `Packet(raw=data, timestamp=t)`: every other field at its declared default. */
  function NewPacket(raw: seq<Byte>, timestamp: real): Packet
  {
    Packet(raw, timestamp, 0, 0, 0, 0, 0, [], [], 0, false, None)
  }

  /** The header bytes a decoded packet's fields stand for. */
  function HeaderBytes(p: Packet): seq<Byte>
  {
    [p.destAddr / 256, p.destAddr % 256, p.srcAddr / 256, p.srcAddr % 256,
     p.msgType, p.sequence, p.payloadLength] + p.headerExtra
  }

  function ChecksumBytes(p: Packet): seq<Byte>
  {
    [p.checksum / 256, p.checksum % 256]
  }

  // ---------------------------------------------------------------------------------------------
  // Checksum strategy (placeholder: the real algorithm is unknown)

  /** `_verify_checksum`: accepts every packet until the algorithm is known. */
  predicate VerifyChecksum(p: Packet): (ok: bool)
    ensures ok
  {
    true
  }

  /** `calculate_checksum`: the byte sum kept to 16 bits. */
  function CalculateChecksum(data: seq<Byte>): (r: U16)
    ensures r < 0x1_0000
    ensures |data| <= 257 ==> r == Sum(data)
  {
    Sum(data) % 0x1_0000
  }

  /** The placeholder checksum of a concatenation is the 16-bit sum of the parts' checksums,
      so it can be computed incrementally over header and payload. */
  lemma ChecksumConcat(a: seq<Byte>, b: seq<Byte>)
    ensures CalculateChecksum(a + b) == (CalculateChecksum(a) + CalculateChecksum(b)) % 0x1_0000
  {
    SumConcat(a, b);
    AddMod16(Sum(a), Sum(b));
  }

  lemma AddMod16(x: nat, y: nat)
    ensures (x + y) % 0x1_0000 == (x % 0x1_0000 + y % 0x1_0000) % 0x1_0000
  {
    var m := 0x1_0000;
    assert x + y == (x / m + y / m) * m + (x % m + y % m);
  }

  // ---------------------------------------------------------------------------------------------
  // Decoding

  /** `Packet.from_bytes`. */
  function FromBytes(data: seq<Byte>, timestamp: real): (p: Packet)
    ensures p.raw == data && p.timestamp == timestamp
    // too short: only the error is set, every field keeps its default
    ensures |data| < MinPacketSize ==>
      && p.parseError == Some(TooShort(|data|))
      && p.destAddr == 0 && p.srcAddr == 0 && p.msgType == 0 && p.sequence == 0
      && p.payloadLength == 0 && p.headerExtra == [] && p.payload == []
      && p.checksum == 0 && !p.checksumValid
    // otherwise the header fields give back the ten header bytes
    ensures |data| >= MinPacketSize ==> HeaderBytes(p) == data[..HeaderSize]
    ensures |data| >= MinPacketSize ==>
      (p.parseError == None <==> HeaderSize + data[6] <= |data| - ChecksumSize)
    ensures |data| >= MinPacketSize && p.parseError == None ==>
      |p.payload| == p.payloadLength &&
      p.payload == data[HeaderSize..HeaderSize + p.payloadLength]
    ensures |data| >= MinPacketSize && p.parseError != None ==>
      p.parseError == Some(LengthMismatch(data[6], |data| - MinPacketSize)) &&
      p.payload == data[HeaderSize..|data| - ChecksumSize]
    ensures |data| >= MinPacketSize ==> |p.payload| <= |data| - MinPacketSize
    // the checksum is the last two bytes, and the placeholder accepts it
    ensures |data| >= MinPacketSize ==>
      ChecksumBytes(p) == data[|data| - ChecksumSize..] && p.checksumValid
  {
    var packet := NewPacket(data, timestamp);
    if |data| < MinPacketSize then
      packet.(parseError := Some(TooShort(|data|)))
    else
      var payloadLength := data[6];
      var payloadEnd := HeaderSize + payloadLength;
      var header := packet.(
        destAddr := BigEndian16(data[0], data[1]),
        srcAddr := BigEndian16(data[2], data[3]),
        msgType := data[4],
        sequence := data[5],
        payloadLength := payloadLength,
        headerExtra := data[7..HeaderSize]);
      var withPayload :=
        if payloadEnd > |data| - ChecksumSize then
          header.(parseError := Some(LengthMismatch(payloadLength, |data| - MinPacketSize)),
                  payload := data[HeaderSize..|data| - ChecksumSize])
        else
          header.(payload := data[HeaderSize..payloadEnd]);
      var withChecksum :=
        withPayload.(checksum := BigEndian16(data[|data| - 2], data[|data| - 1]));
      withChecksum.(checksumValid := VerifyChecksum(withChecksum))
  }

  /** The bytes between a short declared payload and the checksum; empty on a length mismatch. */
  function TrailingBytes(p: Packet): seq<Byte>
    requires |p.raw| >= MinPacketSize && HeaderSize + |p.payload| <= |p.raw| - ChecksumSize
  {
    p.raw[HeaderSize + |p.payload|..|p.raw| - ChecksumSize]
  }

  /** A frame of at least 12 bytes is exactly header, payload, unaccounted bytes and checksum;
      the unaccounted part is empty whenever the declared length overruns. */
  lemma {:induction false} DecodeReassembles(data: seq<Byte>, timestamp: real)
    requires |data| >= MinPacketSize
    ensures var p := FromBytes(data, timestamp);
      && HeaderSize + |p.payload| <= |data| - ChecksumSize
      && data == HeaderBytes(p) + p.payload + TrailingBytes(p) + ChecksumBytes(p)
      && (p.parseError != None ==> TrailingBytes(p) == [])
  {
    var p := FromBytes(data, timestamp);
    var n := |data|;
    var e := HeaderSize + |p.payload|;
    assert p.payload == data[HeaderSize..e];
    FourPieces(data, HeaderSize, e, n - ChecksumSize);
  }

  lemma FourPieces(s: seq<Byte>, i: nat, j: nat, k: nat)
    requires i <= j <= k <= |s|
    ensures s == s[..i] + s[i..j] + s[j..k] + s[k..]
  {
  }

  /** The decoder is looser than the invariant "raw is 12 bytes plus the payload": a declared
      length shorter than the frame leaves bytes before the checksum unflagged. */
  lemma TrailingBytesUnflagged()
    ensures var p := FromBytes(seq(13, _ => 0), 0.0);
      p.parseError == None && |p.raw| != MinPacketSize + |p.payload|
  {
  }

  /** The frame of the packet-with-payload test decodes as that test expects. */
  lemma HvacFrameDecodes()
    ensures var p := FromBytes([0x20, 0x01, 0x40, 0x01, 0x01, 0x00, 0x04, 0x00, 0x00, 0x00,
                                0x48, 0x56, 0x41, 0x43, 0x00, 0x00], 0.0);
      && p.parseError == None && p.destAddr == 0x2001 && p.srcAddr == 0x4001
      && p.payloadLength == 4 && p.payload == [0x48, 0x56, 0x41, 0x43]
  {
  }

  /** The too-short diagnostic says so in words. */
  lemma {:induction false} TooShortMessage(data: seq<Byte>, timestamp: real)
    requires |data| < MinPacketSize
    ensures FromBytes(data, timestamp).parseError.Some?
    ensures Contains(ErrorMessage(FromBytes(data, timestamp).parseError.value), "too short")
  {
    var d := Decimal(|data|);
    assert "Packet too short: " == "Packet " + "too short" + ": ";
    Regroup("Packet ", "too short", ": ", d, " bytes");
    ContainsWithin("Packet ", "too short", ": " + d + " bytes");
  }

  // ---------------------------------------------------------------------------------------------
  // Boundaries

  /** Cuts `data` at the given (start, end) offsets and puts the pieces back together. */
  function Pieces(data: seq<Byte>, bounds: seq<(nat, nat)>): seq<Byte>
  {
    if bounds == [] then []
    else if bounds[0].0 <= bounds[0].1 <= |data| then
      data[bounds[0].0..bounds[0].1] + Pieces(data, bounds[1..])
    else Pieces(data, bounds[1..])
  }

  /** `find_packet_boundaries`: a placeholder that treats the whole buffer as one packet; the
      boundaries it returns cover the buffer exactly, in order. */
  function FindPacketBoundaries(data: seq<Byte>): (r: seq<(nat, nat)>)
    ensures |r| == 1 && r[0].0 <= r[0].1 <= |data|
    ensures Pieces(data, r) == data
  {
    var r := [(0, |data|)];
    assert Pieces(data, r) == data[0..|data|] + Pieces(data, []);
    assert data[0..|data|] == data;
    r
  }

  // ---------------------------------------------------------------------------------------------
  // Rendering

  /** The hex pairs of a byte string. */
  function HexPairs(data: seq<Byte>): (r: seq<string>)
    ensures |r| == |data|
    ensures forall i :: 0 <= i < |r| ==> r[i] == HexByte(data[i])
  {
    seq(|data|, i requires 0 <= i < |data| => HexByte(data[i]))
  }

  datatype HexError = SeparatorNotOneCharacter | SeparatorNotAscii

  /** `bytes.hex(sep)` as CPython implements it: the separator must be a single ASCII
      character, so an empty separator raises `ValueError`. */
  function BytesHex(data: seq<Byte>, sep: string): Result<string, HexError>
  {
    if |sep| != 1 then Err(SeparatorNotOneCharacter)
    else if sep[0] as int > 127 then Err(SeparatorNotAscii)
    else Ok(Join(HexPairs(data), sep))
  }

  /** `to_hex` as written: it hands its separator to `bytes.hex`. */
  function ToHexAsWritten(p: Packet, sep: string): (r: Result<string, HexError>)
    ensures r.Ok? <==> |sep| == 1 && sep[0] as int <= 127
    ensures |sep| != 1 ==> r == Err(SeparatorNotOneCharacter)
    ensures r.Ok? ==> r.value == Join(HexPairs(p.raw), sep)
  {
    BytesHex(p.raw, sep)
  }

  /** The test of `to_hex` expects "deadbeef" for an empty separator; the code raises instead. */
  lemma ToHexEmptySeparatorRaises()
    ensures ToHexAsWritten(NewPacket([0xDE, 0xAD, 0xBE, 0xEF], 0.0), "") == Err(SeparatorNotOneCharacter)
  {
  }

  /** `to_hex` as intended: the hex pairs of the raw frame joined by any separator. It agrees
      with the code for every separator the code accepts. */
  function ToHex(p: Packet, sep: string): (r: string)
    ensures |sep| == 1 && sep[0] as int <= 127 ==> ToHexAsWritten(p, sep) == Ok(r)
    ensures sep == "" ==> |r| == 2 * |p.raw|
    ensures sep == " " && |p.raw| > 0 ==> |r| == 3 * |p.raw| - 1
  {
    var r := Join(HexPairs(p.raw), sep);
    if |p.raw| > 0 then JoinLength(HexPairs(p.raw), sep, 2); r else r
  }

  /** `int(piece, 16)` over every piece. */
  function ParsePieces(pieces: seq<string>): Option<seq<Byte>>
  {
    if pieces == [] then Some([])
    else match (ParseHexByte(pieces[0]), ParsePieces(pieces[1..]))
      case (Some(b), Some(rest)) => Some([b] + rest)
      case _ => None
  }

  /** Pieces that each read back as the corresponding byte read back as those bytes. */
  lemma {:induction false} ParsePiecesOf(pieces: seq<string>, data: seq<Byte>)
    requires |pieces| == |data|
    requires forall i :: 0 <= i < |pieces| ==> ParseHexByte(pieces[i]) == Some(data[i])
    ensures ParsePieces(pieces) == Some(data)
  {
    if pieces != [] {
      ParsePiecesOf(pieces[1..], data[1..]);
      assert ParseHexByte(pieces[0]) == Some(data[0]);
      assert data == [data[0]] + data[1..];
    }
  }

  lemma ParseHexPairs(data: seq<Byte>)
    ensures ParsePieces(HexPairs(data)) == Some(data)
  {
    var pairs := HexPairs(data);
    forall i | 0 <= i < |pairs| ensures ParseHexByte(pairs[i]) == Some(data[i]) {
      HexByteParses(data[i]);
    }
    ParsePiecesOf(pairs, data);
  }

  /** Splitting the spaced hex dump on spaces and reading each piece as hex gives back the raw
      frame. */
  lemma ToHexRoundTrip(p: Packet)
    requires |p.raw| > 0
    ensures ParsePieces(Split(ToHex(p, " "), ' ')) == Some(p.raw)
  {
    SplitJoin(HexPairs(p.raw), ' ');
    ParseHexPairs(p.raw);
  }

  /** The addresses part of the header summary, "[SRC -> DEST] Type:". */
  function HeaderAddresses(src: string, dest: string): (r: string)
    requires |src| == 4 && |dest| == 4
    ensures |r| == 20 && r[..1] == "[" && r[1..5] == src && r[5..9] == " -> "
    ensures r[9..13] == dest && r[13..20] == "] Type:"
  {
    "[" + src + " -> " + dest + "] Type:"
  }

  /** The middle of the header summary, "TT Seq:SS Len:". */
  function HeaderFields(msgType: string, sequence: string): (r: string)
    requires |msgType| == 2 && |sequence| == 2
    ensures |r| == 14 && r[..2] == msgType && r[7..9] == sequence
    ensures r[2..7] == " Seq:" && r[9..14] == " Len:"
  {
    msgType + " Seq:" + sequence + " Len:"
  }

  /** `format_header`: "[SRC -> DEST] Type:TT Seq:SS Len:n", addresses as four upper-case hex
      digits that read back as the addresses. */
  function FormatHeader(p: Packet): (r: string)
    ensures |r| > 34 && r[..1] == "[" && r[5..9] == " -> " && r[13..20] == "] Type:"
    ensures r[1..5] == UpperHex4(p.srcAddr) && r[9..13] == UpperHex4(p.destAddr)
    ensures r[20..22] == UpperHex2(p.msgType) && r[27..29] == UpperHex2(p.sequence)
    ensures r[22..27] == " Seq:" && r[29..34] == " Len:"
    ensures r[34..] == Decimal(p.payloadLength)
  {
    var head := HeaderAddresses(UpperHex4(p.srcAddr), UpperHex4(p.destAddr));
    var fields := HeaderFields(UpperHex2(p.msgType), UpperHex2(p.sequence));
    var r := head + fields + Decimal(p.payloadLength);
    assert r[..20] == head && r[20..34] == fields && r[34..] == Decimal(p.payloadLength);
    r
  }

  /** The two addresses in the header summary read back as the packet's addresses. */
  lemma FormatHeaderAddresses(p: Packet)
    ensures ParseHex4(FormatHeader(p)[1..5]) == Some(p.srcAddr)
    ensures ParseHex4(FormatHeader(p)[9..13]) == Some(p.destAddr)
  {
    UpperHex4Parses(p.srcAddr);
    UpperHex4Parses(p.destAddr);
  }

  predicate Printable(b: Byte)
  {
    32 <= b < 127
  }

  function GutterChar(b: Byte): char
  {
    if Printable(b) then b as char else '.'
  }

  /** The ASCII column of the payload view: one character per byte. */
  function Gutter(payload: seq<Byte>): (g: string)
    ensures |g| == |payload|
    ensures forall i :: 0 <= i < |g| ==> (g[i] == payload[i] as char <==> Printable(payload[i]))
    ensures forall i :: 0 <= i < |g| ==> (g[i] == '.' || g[i] == payload[i] as char)
  {
    seq(|payload|, i requires 0 <= i < |payload| => GutterChar(payload[i]))
  }

  /** `format_payload`: "(empty)" for no payload, else the spaced hex dump and the ASCII gutter
      between bars. */
  function FormatPayload(p: Packet): (r: string)
    ensures p.payload == [] <==> r == "(empty)"
    ensures p.payload != [] ==>
      r == Join(HexPairs(p.payload), " ") + "  |" + Gutter(p.payload) + "|"
  {
    if p.payload == [] then "(empty)"
    else
      var r := Join(HexPairs(p.payload), " ") + "  |" + Gutter(p.payload) + "|";
      assert r[|r| - 1] == '|' && "(empty)"[6] == ')';
      r
  }

  /** A payload of printable bytes shows up verbatim in the payload view, as the "HELLO" test
      expects. */
  lemma PrintablePayloadShown(p: Packet)
    requires p.payload != [] && forall i :: 0 <= i < |p.payload| ==> Printable(p.payload[i])
    ensures Contains(FormatPayload(p), seq(|p.payload|, i requires 0 <= i < |p.payload| => p.payload[i] as char))
  {
    var text := seq(|p.payload|, i requires 0 <= i < |p.payload| => p.payload[i] as char);
    assert Gutter(p.payload) == text;
    ContainsWithin(Join(HexPairs(p.payload), " ") + "  |", text, "|");
  }

  /** The line of a malformed packet: "[ERROR] ", the message, ": " and the hex dump. */
  function ErrorLine(message: string, hex: string): (r: string)
    ensures |r| == 10 + |message| + |hex|
    ensures OccursAt(r, "[ERROR] ", 0) && OccursAt(r, message, 8)
    ensures OccursAt(r, ": ", 8 + |message|) && OccursAt(r, hex, 10 + |message|)
  {
    Layout4("[ERROR] ", message, ": ", hex);
    "[ERROR] " + message + ": " + hex
  }

  /** The two lines of a well-formed packet: the header, " CRC:" and the status, then
      "  Payload: " and the payload view on the next line. */
  function PacketLines(header: string, status: string, payload: string): (r: string)
    ensures |r| == |header| + 17 + |status| + |payload|
    ensures OccursAt(r, header, 0) && OccursAt(r, " CRC:", |header|)
    ensures OccursAt(r, status, |header| + 5)
    ensures OccursAt(r, "\n  Payload: ", |header| + 5 + |status|)
    ensures OccursAt(r, payload, |header| + 17 + |status|)
  {
    Layout5(header, " CRC:", status, "\n  Payload: ", payload);
    header + " CRC:" + status + "\n  Payload: " + payload
  }

  /** `__str__`: the error and the hex dump for a malformed packet, else header, checksum
      verdict and payload view. */
  function Render(p: Packet): (r: string)
    ensures p.parseError.Some? ==>
      var m := ErrorMessage(p.parseError.value);
      && |r| == 10 + |m| + |ToHex(p, " ")|
      && OccursAt(r, "[ERROR] ", 0) && OccursAt(r, m, 8) && OccursAt(r, ": ", 8 + |m|)
      && OccursAt(r, ToHex(p, " "), 10 + |m|)
    ensures p.parseError.None? ==>
      var h := FormatHeader(p);
      var status := if p.checksumValid then "OK" else "BAD";
      && |r| == |h| + 17 + |status| + |FormatPayload(p)|
      && OccursAt(r, h, 0) && OccursAt(r, " CRC:", |h|) && OccursAt(r, status, |h| + 5)
      && OccursAt(r, "\n  Payload: ", |h| + 5 + |status|)
      && OccursAt(r, FormatPayload(p), |h| + 17 + |status|)
  {
    if p.parseError.Some? then ErrorLine(ErrorMessage(p.parseError.value), ToHex(p, " "))
    else PacketLines(FormatHeader(p), if p.checksumValid then "OK" else "BAD", FormatPayload(p))
  }

  /** A well-formed packet whose checksum was accepted renders with "CRC:OK". */
  lemma RenderAccepted(p: Packet)
    requires p.parseError.None? && p.checksumValid
    ensures Contains(Render(p), " CRC:OK")
  {
    var h, f := FormatHeader(p), FormatPayload(p);
    Regroup(h, " CRC:", "OK", "\n  Payload: ", f);
    assert " CRC:" + "OK" == " CRC:OK";
    ContainsWithin(h, " CRC:OK", "\n  Payload: " + f);
  }

  /** Every decoded packet renders without failing: malformed ones as an "[ERROR]" line, and
      well-formed ones always with "CRC:OK", because the placeholder checksum accepts. */
  lemma {:induction false} RenderDecoded(data: seq<Byte>, timestamp: real)
    ensures var p := FromBytes(data, timestamp);
      && (p.parseError.Some? ==> Render(p)[..8] == "[ERROR] ")
      && (p.parseError.None? ==> Contains(Render(p), " CRC:OK"))
  {
    var p := FromBytes(data, timestamp);
    if p.parseError.None? {
      RenderAccepted(p);
    }
  }
}
