/** wire/conn.go: framing OP_MSG and OP_COMPRESSED messages of the MongoDB Wire Protocol, and reading
    them back. Codecs and CRC-32C are parameters; the socket is the bytes sent and the bytes to come. */
module Wire {
  import opened Common

  const TWO_31 := 0x8000_0000
  const TWO_32 := 0x1_0000_0000
  const OP_COMPRESSED := 2012
  const OP_MSG := 2013
  const HEADER_LEN := 16
  const CORRUPTION := 0xdeadbeef

  const NOOP: byte := 0
  const SNAPPY: byte := 1
  const ZLIB: byte := 2

  // ---------------------------------------------------------------- integers

  /** The little-endian bytes of v as an int32 or uint32: v is taken modulo 2^32. */
  function Le32(v: int): (r: seq<byte>)
    ensures |r| == 4
  {
    [v % 256, v / 256 % 256, v / 65536 % 256, v / 16777216 % 256]
  }

  function U32(b: seq<byte>): (v: int)
    requires |b| == 4
    ensures 0 <= v < TWO_32
  {
    (b[0] as int) + 256 * (b[1] as int) + 65536 * (b[2] as int) + 16777216 * (b[3] as int)
  }

  /** uint32 read as int32. */
  function Signed(v: int): int {
    if v < TWO_31 then v else v - TWO_32
  }

  lemma Le32Digits(v: int)
    ensures U32(Le32(v)) == v % TWO_32
  {
    var a, b, c := v / 256, v / 65536, v / 16777216;
    assert b == a / 256 && c == b / 256;
    assert v == 256 * a + v % 256 && a == 256 * b + a % 256 && b == 256 * c + b % 256;
    var d := c / 256;
    assert c == 256 * d + c % 256;
    assert v == TWO_32 * d + U32(Le32(v));
  }

  lemma Le32Reads(v: int)
    requires 0 <= v < TWO_32
    ensures U32(Le32(v)) == v
  {
    Le32Digits(v);
  }

  /** Bitwise exclusive or of naturals. */
  function Xor(a: nat, b: nat): nat {
    if a == 0 && b == 0 then 0 else 2 * Xor(a / 2, b / 2) + (if a % 2 != b % 2 then 1 else 0)
  }

  lemma {:induction false} XorChanges(a: nat, b: nat)
    ensures Xor(a, b) == a <==> b == 0
  {
    if a != 0 || b != 0 { XorChanges(a / 2, b / 2); }
  }

  /** Bit k of a natural. */
  function Bit(a: nat, k: nat): nat {
    if k == 0 then a % 2 else Bit(a / 2, k - 1)
  }

  lemma XorHalves(a: nat, b: nat)
    ensures Xor(a, b) / 2 == Xor(a / 2, b / 2) && Xor(a, b) % 2 == if a % 2 != b % 2 then 1 else 0
  {
    var high := Xor(a / 2, b / 2);
    if a == 0 && b == 0 {
      assert high == 0;
    } else {
      assert Xor(a, b) == 2 * high + if a % 2 != b % 2 then 1 else 0;
    }
  }

  /** A bit of the exclusive or is set exactly where the two differ. */
  lemma {:induction false} XorBits(a: nat, b: nat, k: nat)
    ensures Bit(Xor(a, b), k) == if Bit(a, k) != Bit(b, k) then 1 else 0
    decreases k
  {
    XorHalves(a, b);
    if k > 0 { XorBits(a / 2, b / 2, k - 1); }
  }

  lemma {:induction false} XorRange(a: nat, b: nat, bits: nat)
    requires a < Power2(bits) && b < Power2(bits)
    ensures Xor(a, b) < Power2(bits)
  {
    if bits > 0 { XorRange(a / 2, b / 2, bits - 1); }
  }

  function Power2(k: nat): nat {
    if k == 0 then 1 else 2 * Power2(k - 1)
  }

  // ---------------------------------------------------------------- codecs

  datatype Codec = Codec(snappy: seq<byte> -> seq<byte>, unsnappy: seq<byte> -> Option<seq<byte>>,
                         zlib: seq<byte> -> seq<byte>, unzlib: seq<byte> -> Option<seq<byte>>,
                         crc: seq<byte> -> int, decodable: seq<byte> -> bool)
  {
    /** Decompression undoes compression. */
    ghost predicate Lossless() {
      forall x :: unsnappy(snappy(x)) == Some(x) && unzlib(zlib(x)) == Some(x)
    }

    function Checksum(message: seq<byte>): int {
      crc(message) % TWO_32
    }

    function Compress(body: seq<byte>, compressor: byte): Option<seq<byte>> {
      if compressor == NOOP then Some(body)
      else if compressor == SNAPPY then Some(snappy(body))
      else if compressor == ZLIB then Some(zlib(body))
      else None
    }

    function Decompress(payload: seq<byte>, compressor: byte): Option<seq<byte>> {
      if compressor == NOOP then Some(payload)
      else if compressor == SNAPPY then unsnappy(payload)
      else if compressor == ZLIB then unzlib(payload)
      else None
    }
  }

  // ---------------------------------------------------------------- messages

  function Header(length: int, requestId: int, opcode: int): (r: seq<byte>)
    ensures |r| == HEADER_LEN
  {
    Le32(length) + Le32(requestId) + Le32(0) + Le32(opcode)
  }

  /** Flag bits, the kind of the only section, and its document. */
  function Payload(flags: int, document: seq<byte>): seq<byte> {
    Le32(flags) + [0] + document
  }

  function OpMsg(requestId: int, payload: seq<byte>): seq<byte> {
    Header(HEADER_LEN + |payload|, requestId, OP_MSG) + payload
  }

  /** A compressed body in its envelope. */
  function OpCompressed(requestId: int, bodyLength: int, compressor: byte, compressed: seq<byte>): seq<byte> {
    Header(HEADER_LEN + 9 + |compressed|, requestId, OP_COMPRESSED) + Le32(OP_MSG) + Le32(bodyLength) + [compressor]
        + compressed
  }

  datatype Checksum = Valid | Corrupt | FlagOnly

  const CHECKSUM_PRESENT := 1

  /** What is hashed for a checksummed command. */
  function Hashed(requestId: int, document: seq<byte>): (h: seq<byte>)
    ensures |h| >= HEADER_LEN
  {
    var payload := Payload(CHECKSUM_PRESENT, document);
    Header(HEADER_LEN + |payload| + 4, requestId, OP_MSG) + payload
  }

  function Tail(codec: Codec, requestId: int, document: seq<byte>, checksum: Checksum): seq<byte> {
    var sum := codec.Checksum(Hashed(requestId, document));
    Le32(if checksum == Corrupt then Xor(sum, CORRUPTION) else sum)
  }

  /** The message RunChecksummedCommand sends, before any compression. */
  function ChecksummedMessage(codec: Codec, requestId: int, document: seq<byte>, checksum: Checksum): (m: seq<byte>)
    ensures |m| >= HEADER_LEN
  {
    if checksum == FlagOnly then OpMsg(requestId, Payload(CHECKSUM_PRESENT, document))
    else Hashed(requestId, document) + Tail(codec, requestId, document, checksum)
  }

  /** A Go conversion of an int to a byte. */
  function AsByte(n: int): byte {
    n % 256
  }

  function Envelope(codec: Codec, requestId: int, message: seq<byte>, compressor: int): Option<seq<byte>>
    requires |message| >= HEADER_LEN
  {
    if compressor == -1 then Some(message)
    else
      var body := message[HEADER_LEN..];
      match codec.Compress(body, AsByte(compressor))
      case None => None
      case Some(compressed) => Some(OpCompressed(requestId, |body|, AsByte(compressor), compressed))
  }

  // ---------------------------------------------------------------- reading a reply

  datatype Seen = NoChecksum | ValidChecksum | InvalidChecksum

  datatype WireError = ShortRead | ShortReply | UnexpectedOpcode | MalformedCompressed | Undecompressable
                     | TruncatedSection | MissingChecksum | UnexpectedKind | UndecodableDocument | UnsupportedCompressor

  /** The bytes the BSON decoder read a document from, with the flag bits. */
  datatype Result = Reply(document: seq<byte>, flags: int) | Failed(error: WireError)

  datatype Traffic = Traffic(requests: int, requestLogical: int, requestWire: int, requestPayload: int,
                             requestBody: int,
                             replyLogical: int, replyWire: int, replyPayload: int, replyBody: int)

  datatype Session = Session(requestId: int, lastCompressor: int, lastChecksum: Seen, traffic: Traffic,
                             sent: seq<byte>, inbox: seq<byte>)

  /** The header an uncompressed message with this body had. */
  function OriginalHeader(header: seq<byte>, bodyLength: int): (r: seq<byte>)
    requires |header| == HEADER_LEN
  {
    Le32(HEADER_LEN + bodyLength) + header[4..12] + Le32(OP_MSG)
  }

  /** The end of readCommandReply: the body of an OP_MSG, uncompressed. */
  function ReadBody(s: Session, codec: Codec, header: seq<byte>, body: seq<byte>): (Session, Result)
    requires |header| == HEADER_LEN
  {
    if |body| < 5 then (s, Failed(TruncatedSection))
    else
      var flags := U32(body[..4]);
      if flags % 2 == 0 then (s.(lastChecksum := NoChecksum), ReadSection(codec, body, flags))
      else if |body| < 9 then (s.(lastChecksum := NoChecksum), Failed(MissingChecksum))
      else
        var hashed := body[..|body| - 4];
        var matches := codec.Checksum(OriginalHeader(header, |body|) + hashed) == U32(body[|body| - 4..]);
        (s.(lastChecksum := if matches then ValidChecksum else InvalidChecksum), ReadSection(codec, hashed, flags))
  }

  function ReadSection(codec: Codec, rest: seq<byte>, flags: int): Result
    requires |rest| >= 5
  {
    if rest[4] != 0 then Failed(UnexpectedKind) else Decoded(codec, rest[5..], flags)
  }

  function Decoded(codec: Codec, document: seq<byte>, flags: int): Result {
    if codec.decodable(document) then Reply(document, flags) else Failed(UndecodableDocument)
  }

  function ReadReply(s: Session, codec: Codec): (Session, Result) {
    if |s.inbox| < HEADER_LEN then (s.(inbox := []), Failed(ShortRead))
    else
      var header := s.inbox[..HEADER_LEN];
      var length, opcode := Signed(U32(header[..4])), Signed(U32(header[12..]));
      var afterHeader := s.(inbox := s.inbox[HEADER_LEN..]);
      if length < HEADER_LEN + 5 then (afterHeader, Failed(ShortReply))
      else if opcode != OP_MSG && opcode != OP_COMPRESSED then (afterHeader, Failed(UnexpectedOpcode))
      else if |s.inbox| < length then (s.(inbox := []), Failed(ShortRead))
      else
        var rest := s.inbox[HEADER_LEN..length];
        var read := s.(inbox := s.inbox[length..], lastCompressor := -1,
                       traffic := s.traffic.(replyWire := s.traffic.replyWire + length));
        if opcode == OP_MSG then ReadBody(CountLogical(read, |rest|), codec, header, rest)
        else if |rest| < 9 || Signed(U32(rest[..4])) != OP_MSG then (read, Failed(MalformedCompressed))
        else
          match codec.Decompress(rest[9..], rest[8])
          case None => (read, Failed(Undecompressable))
          case Some(body) =>
            var t := read.traffic;
            ReadBody(CountLogical(read.(lastCompressor := rest[8],
                                        traffic := t.(replyPayload := t.replyPayload + |rest| - 9,
                                                      replyBody := t.replyBody + |body|)),
                                  |body|), codec, header, body)
  }

  function CountLogical(s: Session, bodyLength: int): Session {
    s.(traffic := s.traffic.(replyLogical := s.traffic.replyLogical + HEADER_LEN + bodyLength))
  }

  // ---------------------------------------------------------------- requests

  /** Incrementing an int32 wraps around. */
  function NextId(id: int): int {
    if id == TWO_31 - 1 then -TWO_31 else id + 1
  }

  function Send(s: Session, bytes: seq<byte>, logical: int): Session {
    s.(sent := s.sent + bytes,
       traffic := s.traffic.(requests := s.traffic.requests + 1, requestLogical := s.traffic.requestLogical + logical,
                             requestWire := s.traffic.requestWire + |bytes|))
  }

  class Conn {
    const codec: Codec
    var requestId: int
    var lastCompressor: int
    var lastChecksum: Seen
    var traffic: Traffic
    var sent: seq<byte>
    var inbox: seq<byte>

    constructor (codec: Codec)
      ensures State() == Session(0, -1, NoChecksum, Traffic(0, 0, 0, 0, 0, 0, 0, 0, 0), [], [])
      ensures this.codec == codec
    {
      this.codec := codec;
      requestId, lastCompressor, lastChecksum := 0, -1, NoChecksum;
      traffic := Traffic(0, 0, 0, 0, 0, 0, 0, 0, 0);
      sent, inbox := [], [];
    }

    function State(): Session
      reads this
    {
      Session(requestId, lastCompressor, lastChecksum, traffic, sent, inbox)
    }

    method Write(bytes: seq<byte>, logical: int)
      modifies this`sent, this`traffic
      ensures State() == Send(old(State()), bytes, logical)
    {
      sent := sent + bytes;
      traffic := traffic.(requests := traffic.requests + 1, requestLogical := traffic.requestLogical + logical,
                          requestWire := traffic.requestWire + |bytes|);
    }

    method ReadCommandReply() returns (r: Result)
      modifies this`inbox, this`lastCompressor, this`lastChecksum, this`traffic
      ensures (State(), r) == ReadReply(old(State()), codec)
    {
      if |inbox| < HEADER_LEN {
        inbox := [];
        return Failed(ShortRead);
      }
      var header := inbox[..HEADER_LEN];
      var replyLen := Signed(U32(header[..4]));
      var replyOp := Signed(U32(header[12..]));
      if replyLen < HEADER_LEN + 5 {
        inbox := inbox[HEADER_LEN..];
        return Failed(ShortReply);
      }
      if replyOp != OP_MSG && replyOp != OP_COMPRESSED {
        inbox := inbox[HEADER_LEN..];
        return Failed(UnexpectedOpcode);
      }
      if |inbox| < replyLen {
        inbox := [];
        return Failed(ShortRead);
      }
      var rest := inbox[HEADER_LEN..replyLen];
      inbox := inbox[replyLen..];
      lastCompressor := -1;
      traffic := traffic.(replyWire := traffic.replyWire + replyLen);
      if replyOp == OP_COMPRESSED {
        if |rest| < 9 || Signed(U32(rest[..4])) != OP_MSG { return Failed(MalformedCompressed); }
        var compressor := rest[8];
        var body := codec.Decompress(rest[9..], compressor);
        if body.None? { return Failed(Undecompressable); }
        traffic := traffic.(replyPayload := traffic.replyPayload + |rest| - 9,
                            replyBody := traffic.replyBody + |body.value|);
        rest := body.value;
        lastCompressor := compressor;
      }
      traffic := traffic.(replyLogical := traffic.replyLogical + HEADER_LEN + |rest|);
      r := ReadOpMsgBody(header, rest);
    }

    /** The checksum and section half of readCommandReply. */
    method ReadOpMsgBody(header: seq<byte>, body: seq<byte>) returns (r: Result)
      requires |header| == HEADER_LEN
      modifies this`lastChecksum
      ensures (State(), r) == ReadBody(old(State()), codec, header, body)
    {
      var rest := body;
      if |rest| < 5 { return Failed(TruncatedSection); }
      var replyFlags := U32(rest[..4]);
      lastChecksum := NoChecksum;
      if replyFlags % 2 != 0 {
        if |rest| < 9 { return Failed(MissingChecksum); }
        var sum := codec.Checksum(OriginalHeader(header, |rest|) + rest[..|rest| - 4]);
        lastChecksum := InvalidChecksum;
        if sum == U32(rest[|rest| - 4..]) { lastChecksum := ValidChecksum; }
        rest := rest[..|rest| - 4];
      }
      if rest[4] != 0 { return Failed(UnexpectedKind); }
      if !codec.decodable(rest[5..]) { return Failed(UndecodableDocument); }
      r := Reply(rest[5..], replyFlags);
    }

    method RunCommandFlags(document: seq<byte>, flags: int) returns (r: Result)
      modifies this
      ensures var id := NextId(old(requestId));
              var bytes := OpMsg(id, Payload(flags, document));
              (State(), r) == ReadReply(Send(old(State()).(requestId := id), bytes, |bytes|), codec)
    {
      requestId := NextId(requestId);
      var out := OpMsg(requestId, Payload(flags, document));
      Write(out, |out|);
      r := ReadCommandReply();
    }

    method RunRawOpMsg(payload: seq<byte>) returns (r: Result)
      modifies this
      ensures var id := NextId(old(requestId));
              var bytes := OpMsg(id, payload);
              (State(), r) == ReadReply(Send(old(State()).(requestId := id), bytes, |bytes|), codec)
    {
      requestId := NextId(requestId);
      var out := OpMsg(requestId, payload);
      Write(out, |out|);
      r := ReadCommandReply();
    }

    /** An unknown compressor is refused before a request id is used. */
    method RunCompressedCommand(document: seq<byte>, compressor: byte) returns (r: Result)
      modifies this
      ensures var body := Payload(0, document);
              match codec.Compress(body, compressor)
              case None => r == Failed(UnsupportedCompressor) && State() == old(State())
              case Some(compressed) =>
                var id := NextId(old(requestId));
                var bytes := OpCompressed(id, |body|, compressor, compressed);
                var s := Send(old(State()).(requestId := id), bytes, HEADER_LEN + |body|);
                var t := s.traffic;
                (State(), r) == ReadReply(s.(traffic := t.(requestPayload := t.requestPayload + |compressed|,
                                                           requestBody := t.requestBody + |body|)), codec)
    {
      var uncompressed := Payload(0, document);
      var compressed := codec.Compress(uncompressed, compressor);
      if compressed.None? { return Failed(UnsupportedCompressor); }
      requestId := NextId(requestId);
      Write(OpCompressed(requestId, |uncompressed|, compressor, compressed.value), HEADER_LEN + |uncompressed|);
      traffic := traffic.(requestPayload := traffic.requestPayload + |compressed.value|,
                          requestBody := traffic.requestBody + |uncompressed|);
      r := ReadCommandReply();
    }

    /** An unknown compressor is refused after a request id was used. */
    method RunChecksummedCommand(document: seq<byte>, checksum: Checksum, compressor: int) returns (r: Result)
      modifies this
      ensures var id := NextId(old(requestId));
              var message := ChecksummedMessage(codec, id, document, checksum);
              match Envelope(codec, id, message, compressor)
              case None => r == Failed(UnsupportedCompressor) && State() == old(State()).(requestId := id)
              case Some(bytes) => (State(), r) == ReadReply(Send(old(State()).(requestId := id), bytes, |message|),
                                                            codec)
    {
      requestId := NextId(requestId);
      var message := ChecksummedMessage(codec, requestId, document, checksum);
      var out := Envelope(codec, requestId, message, compressor);
      if out.None? { return Failed(UnsupportedCompressor); }
      Write(out.value, |message|);
      r := ReadCommandReply();
    }
  }

  // ---------------------------------------------------------------- round trips

  /** Reading the header of a message written by Header gives back its length and opcode. */
  lemma HeaderReads(length: int, requestId: int, opcode: int)
    requires 0 <= length < TWO_31 && 0 <= opcode < TWO_31
    ensures var h := Header(length, requestId, opcode);
            Signed(U32(h[..4])) == length && Signed(U32(h[12..])) == opcode
  {
    var h := Header(length, requestId, opcode);
    assert h[..4] == Le32(length) && h[12..] == Le32(opcode);
    Le32Reads(length);
    Le32Reads(opcode);
  }

  /** Rebuilding the header of a message before compression gives the header that was hashed. */
  lemma OriginalHeaderIsTheHashedOne(length: int, requestId: int, opcode: int, bodyLength: int)
    ensures OriginalHeader(Header(length, requestId, opcode), bodyLength)
            == Header(HEADER_LEN + bodyLength, requestId, OP_MSG)
  {
    assert Header(length, requestId, opcode)[4..12] == Le32(requestId) + Le32(0);
  }

  /** What reading the body of a message leaves behind. */
  predicate ReadsAs(out: (Session, Result), before: Session, seen: Seen, result: Result) {
    out == (before.(lastChecksum := seen), result)
  }

  lemma PayloadParts(flags: int, document: seq<byte>)
    requires 0 <= flags < TWO_32
    ensures var p := Payload(flags, document);
            |p| == 5 + |document| && U32(p[..4]) == flags && p[4] == 0 && p[5..] == document
  {
    assert Payload(flags, document)[..4] == Le32(flags);
    Le32Reads(flags);
  }

  lemma PlainBodyReads(s: Session, codec: Codec, header: seq<byte>, flags: int, document: seq<byte>)
    requires |header| == HEADER_LEN && 0 <= flags < TWO_32 && flags % 2 == 0
    ensures ReadsAs(ReadBody(s, codec, header, Payload(flags, document)), s, NoChecksum,
                    Decoded(codec, document, flags))
  {
    PayloadParts(flags, document);
  }

  /** Reading compares the checksum at the end with that of the message before compression. */
  lemma TailIsCompared(s: Session, codec: Codec, header: seq<byte>, document: seq<byte>, tail: seq<byte>)
    requires |header| == HEADER_LEN && |tail| == 4
    ensures var payload := Payload(CHECKSUM_PRESENT, document);
            var matches := codec.Checksum(OriginalHeader(header, |payload| + 4) + payload) == U32(tail);
            ReadsAs(ReadBody(s, codec, header, payload + tail), s,
                    if matches then ValidChecksum else InvalidChecksum, Decoded(codec, document, CHECKSUM_PRESENT))
  {
    var payload := Payload(CHECKSUM_PRESENT, document);
    var body := payload + tail;
    PayloadParts(CHECKSUM_PRESENT, document);
    assert body[..|body| - 4] == payload && body[|body| - 4..] == tail && body[..4] == payload[..4];
  }

  lemma ChecksummedBody(codec: Codec, requestId: int, document: seq<byte>, checksum: Checksum)
    ensures ChecksummedMessage(codec, requestId, document, checksum)[HEADER_LEN..]
            == Payload(CHECKSUM_PRESENT, document)
              + if checksum == FlagOnly then [] else Tail(codec, requestId, document, checksum)
  {
  }

  /** A checksummed body is recovered, and its checksum judged, under any header with the right request id. */
  lemma ChecksummedBodyReads(s: Session, codec: Codec, length: int, opcode: int, requestId: int, document: seq<byte>,
                             checksum: Checksum)
    requires checksum != FlagOnly
    ensures var body := ChecksummedMessage(codec, requestId, document, checksum)[HEADER_LEN..];
            ReadsAs(ReadBody(s, codec, Header(length, requestId, opcode), body), s,
                    if checksum == Valid then ValidChecksum else InvalidChecksum,
                    Decoded(codec, document, CHECKSUM_PRESENT))
  {
    var payload, tail := Payload(CHECKSUM_PRESENT, document), Tail(codec, requestId, document, checksum);
    ChecksummedBody(codec, requestId, document, checksum);
    OriginalHeaderIsTheHashedOne(length, requestId, opcode, |payload| + 4);
    TailIsCompared(s, codec, Header(length, requestId, opcode), document, tail);
    TailReads(codec.Checksum(Hashed(requestId, document)), checksum == Corrupt);
  }

  lemma CorruptionShows(sum: nat)
    requires sum < TWO_32
    ensures 0 <= Xor(sum, CORRUPTION) < TWO_32 && Xor(sum, CORRUPTION) != sum
  {
    Power2Of32();
    XorRange(sum, CORRUPTION, 32);
    XorChanges(sum, CORRUPTION);
  }

  lemma TailReads(sum: int, corrupt: bool)
    requires 0 <= sum < TWO_32
    ensures U32(Le32(if corrupt then Xor(sum, CORRUPTION) else sum)) == sum <==> !corrupt
  {
    if corrupt {
      CorruptionShows(sum);
      Le32Reads(Xor(sum, CORRUPTION));
    } else {
      Le32Reads(sum);
    }
  }

  lemma Power2Of32()
    ensures Power2(32) == TWO_32
  {
    assert Power2(8) == 256;
    assert Power2(16) == 65536;
    assert Power2(24) == 16777216;
  }

  /** The session once the bytes of a reply have been taken and decompressed, before its body is read. */
  function Received(s: Session, wire: int, compressor: int, payload: int, body: int, more: seq<byte>): Session {
    var t := s.traffic;
    s.(inbox := more, lastCompressor := compressor,
       traffic := t.(replyWire := t.replyWire + wire, replyLogical := t.replyLogical + HEADER_LEN + body,
                     replyPayload := t.replyPayload + payload,
                     replyBody := t.replyBody + if compressor == -1 then 0 else body))
  }

  lemma SignedIs(b: seq<byte>, v: int)
    requires |b| == 4 && 0 <= v < TWO_31
    ensures Signed(U32(b)) == v <==> U32(b) == v
  {
  }

  lemma RestParts(inbox: seq<byte>, length: nat)
    requires 25 <= length <= |inbox|
    ensures var rest := inbox[16..length];
            rest[..4] == inbox[16..20] && rest[8] == inbox[24] && rest[9..] == inbox[25..length]
  {
  }

  /** An uncompressed reply of this length is taken, and its body read. */
  lemma PlainReplyTaken(s: Session, codec: Codec, length: nat)
    requires 21 <= length <= |s.inbox| && Signed(U32(s.inbox[..4])) == length && U32(s.inbox[12..16]) == OP_MSG
    ensures ReadReply(s, codec) == ReadBody(Received(s, length, -1, 0, length - HEADER_LEN, s.inbox[length..]), codec,
                                            s.inbox[..HEADER_LEN], s.inbox[HEADER_LEN..length])
  {
    var header := s.inbox[..HEADER_LEN];
    assert header[..4] == s.inbox[..4] && header[12..] == s.inbox[12..16];
    SignedIs(s.inbox[12..16], OP_MSG);
  }

  /** A compressed reply of this length is taken and decompressed, and its body read. */
  lemma CompressedReplyTaken(s: Session, codec: Codec, length: nat, body: seq<byte>)
    requires 25 <= length <= |s.inbox| && Signed(U32(s.inbox[..4])) == length
    requires U32(s.inbox[12..16]) == OP_COMPRESSED && U32(s.inbox[16..20]) == OP_MSG
    requires codec.Decompress(s.inbox[25..length], s.inbox[24]) == Some(body)
    ensures ReadReply(s, codec) ==
            ReadBody(Received(s, length, s.inbox[24], length - 25, |body|, s.inbox[length..]), codec,
                     s.inbox[..HEADER_LEN], body)
  {
    var header := s.inbox[..HEADER_LEN];
    assert header[..4] == s.inbox[..4] && header[12..] == s.inbox[12..16];
    SignedIs(s.inbox[12..16], OP_COMPRESSED);
    SignedIs(s.inbox[16..20], OP_MSG);
    RestParts(s.inbox, length);
  }

  lemma PlainMessageReads(s: Session, codec: Codec, requestId: int, body: seq<byte>, more: seq<byte>)
    requires 5 <= |body| && HEADER_LEN + |body| < TWO_31
    ensures var header := Header(HEADER_LEN + |body|, requestId, OP_MSG);
            ReadReply(s.(inbox := header + body + more), codec)
              == ReadBody(Received(s, HEADER_LEN + |body|, -1, 0, |body|, more), codec, header, body)
  {
    var length := HEADER_LEN + |body|;
    var header := Header(length, requestId, OP_MSG);
    var inbox := header + body + more;
    HeaderReads(length, requestId, OP_MSG);
    assert inbox[..HEADER_LEN] == header && inbox[HEADER_LEN..length] == body && inbox[length..] == more;
    assert inbox[..4] == header[..4] && inbox[12..16] == header[12..];
    SignedIs(header[12..], OP_MSG);
    PlainReplyTaken(s.(inbox := inbox), codec, length);
  }

  /** What follows the header of a compressed message. */
  function Compressed(bodyLength: int, compressor: byte, compressed: seq<byte>): seq<byte> {
    Le32(OP_MSG) + Le32(bodyLength) + [compressor] + compressed
  }

  lemma CompressedParts(bodyLength: int, compressor: byte, compressed: seq<byte>)
    ensures var rest := Compressed(bodyLength, compressor, compressed);
            |rest| == 9 + |compressed| && U32(rest[..4]) == OP_MSG && rest[8] == compressor && rest[9..] == compressed
  {
    assert Compressed(bodyLength, compressor, compressed)[..4] == Le32(OP_MSG);
    Le32Reads(OP_MSG);
  }

  lemma EnvelopeParts(length: int, requestId: int, bodyLength: int, compressor: byte, compressed: seq<byte>,
                      more: seq<byte>)
    requires length == HEADER_LEN + 9 + |compressed|
    ensures var inbox := OpCompressed(requestId, bodyLength, compressor, compressed) + more;
            && inbox[..HEADER_LEN] == Header(length, requestId, OP_COMPRESSED)
            && inbox[HEADER_LEN..length] == Compressed(bodyLength, compressor, compressed) && inbox[length..] == more
  {
    assert OpCompressed(requestId, bodyLength, compressor, compressed)
        == Header(length, requestId, OP_COMPRESSED) + Compressed(bodyLength, compressor, compressed);
  }

  lemma EnvelopeRead(length: int, requestId: int, bodyLength: int, compressor: byte, compressed: seq<byte>,
                     more: seq<byte>)
    requires length == HEADER_LEN + 9 + |compressed| < TWO_31
    ensures var inbox := OpCompressed(requestId, bodyLength, compressor, compressed) + more;
            && length <= |inbox| && Signed(U32(inbox[..4])) == length
            && U32(inbox[12..16]) == OP_COMPRESSED && U32(inbox[16..20]) == OP_MSG
            && inbox[24] == compressor && inbox[25..length] == compressed && inbox[length..] == more
            && inbox[..HEADER_LEN] == Header(length, requestId, OP_COMPRESSED)
  {
    var header := Header(length, requestId, OP_COMPRESSED);
    var inbox := OpCompressed(requestId, bodyLength, compressor, compressed) + more;
    HeaderReads(length, requestId, OP_COMPRESSED);
    EnvelopeParts(length, requestId, bodyLength, compressor, compressed, more);
    CompressedParts(bodyLength, compressor, compressed);
    assert inbox[..4] == header[..4] && inbox[12..16] == header[12..];
    SignedIs(header[12..], OP_COMPRESSED);
    RestParts(inbox, length);
  }

  lemma CompressedMessageReads(s: Session, codec: Codec, requestId: int, body: seq<byte>, compressor: byte,
                               compressed: seq<byte>, more: seq<byte>)
    requires codec.Decompress(compressed, compressor) == Some(body)
    requires HEADER_LEN + 9 + |compressed| < TWO_31
    ensures var header := Header(HEADER_LEN + 9 + |compressed|, requestId, OP_COMPRESSED);
            ReadReply(s.(inbox := OpCompressed(requestId, |body|, compressor, compressed) + more), codec)
              == ReadBody(Received(s, HEADER_LEN + 9 + |compressed|, compressor, |compressed|, |body|, more), codec,
                          header, body)
  {
    var length := HEADER_LEN + 9 + |compressed|;
    EnvelopeRead(length, requestId, |body|, compressor, compressed, more);
    CompressedReplyTaken(s.(inbox := OpCompressed(requestId, |body|, compressor, compressed) + more), codec, length,
                         body);
  }

  /** Sender and reader count the same bytes: those on the wire, and those of the message before compression. */
  ghost predicate CountedAlike(s: Session, bytes: seq<byte>, logical: int, after: Session) {
    var sender := Send(s, bytes, logical);
    && sender.sent == s.sent + bytes && sender.traffic.requests == s.traffic.requests + 1
    && sender.traffic.requestWire == s.traffic.requestWire + |bytes|
    && sender.traffic.requestLogical == s.traffic.requestLogical + logical
    && after.traffic.replyWire == s.traffic.replyWire + |bytes|
    && after.traffic.replyLogical == s.traffic.replyLogical + logical
  }

  /** What reading these bytes gives after a checksummed command was sent as them. */
  ghost predicate ReadsBack(s: Session, codec: Codec, document: seq<byte>, checksum: Checksum, logical: int,
                            compressor: int, bytes: seq<byte>, more: seq<byte>)
  {
    var (after, result) := ReadReply(s.(inbox := bytes + more), codec);
    && result == Decoded(codec, document, CHECKSUM_PRESENT)
    && after.lastChecksum == (if checksum == Valid then ValidChecksum else InvalidChecksum)
    && after.lastCompressor == (if compressor == -1 then -1 else AsByte(compressor))
    && after.inbox == more
    && CountedAlike(s, bytes, logical, after)
  }

  lemma ChecksummedPlainTrip(s: Session, codec: Codec, requestId: int, document: seq<byte>, checksum: Checksum,
                             more: seq<byte>)
    requires checksum != FlagOnly && |ChecksummedMessage(codec, requestId, document, checksum)| < TWO_31
    ensures var message := ChecksummedMessage(codec, requestId, document, checksum);
            ReadsBack(s, codec, document, checksum, |message|, -1, message, more)
  {
    var message := ChecksummedMessage(codec, requestId, document, checksum);
    var body := message[HEADER_LEN..];
    PayloadParts(CHECKSUM_PRESENT, document);
    assert message == Header(HEADER_LEN + |body|, requestId, OP_MSG) + body;
    PlainMessageReads(s, codec, requestId, body, more);
    ChecksummedBodyReads(Received(s, HEADER_LEN + |body|, -1, 0, |body|, more), codec, HEADER_LEN + |body|, OP_MSG,
                         requestId, document, checksum);
  }

  lemma ChecksummedCompressedTrip(s: Session, codec: Codec, requestId: int, document: seq<byte>, checksum: Checksum,
                                  compressor: int, compressed: seq<byte>, more: seq<byte>)
    requires codec.Lossless() && checksum != FlagOnly && compressor != -1
    requires var body := ChecksummedMessage(codec, requestId, document, checksum)[HEADER_LEN..];
             codec.Compress(body, AsByte(compressor)) == Some(compressed)
    requires HEADER_LEN + 9 + |compressed| < TWO_31
    ensures var message := ChecksummedMessage(codec, requestId, document, checksum);
            ReadsBack(s, codec, document, checksum, |message|, compressor,
                      OpCompressed(requestId, |message| - HEADER_LEN, AsByte(compressor), compressed), more)
  {
    var body, c := ChecksummedMessage(codec, requestId, document, checksum)[HEADER_LEN..], AsByte(compressor);
    var length := HEADER_LEN + 9 + |compressed|;
    CompressedMessageReads(s, codec, requestId, body, c, compressed, more);
    ChecksummedBodyReads(Received(s, length, c, |compressed|, |body|, more), codec, length, OP_COMPRESSED, requestId,
                         document, checksum);
  }

  /** Reading what RunChecksummedCommand sends recovers the document and the flag, tells a valid checksum
      from a corrupt one and reports the compressor, compressed or not, and leaves later bytes alone. */
  lemma ChecksummedRoundTrip(s: Session, codec: Codec, requestId: int, document: seq<byte>, checksum: Checksum,
                             compressor: int, bytes: seq<byte>, more: seq<byte>)
    requires codec.Lossless() && checksum != FlagOnly
    requires Envelope(codec, requestId, ChecksummedMessage(codec, requestId, document, checksum), compressor)
             == Some(bytes)
    requires |bytes| < TWO_31
    ensures ReadsBack(s, codec, document, checksum, |ChecksummedMessage(codec, requestId, document, checksum)|,
                      compressor, bytes, more)
  {
    var message := ChecksummedMessage(codec, requestId, document, checksum);
    if compressor == -1 {
      ChecksummedPlainTrip(s, codec, requestId, document, checksum, more);
    } else {
      var compressed := codec.Compress(message[HEADER_LEN..], AsByte(compressor)).value;
      ChecksummedCompressedTrip(s, codec, requestId, document, checksum, compressor, compressed, more);
    }
  }

  /** Without the checksum flag a command survives the trip with its flag bits, plain or compressed. */
  lemma PlainRoundTrip(s: Session, codec: Codec, requestId: int, document: seq<byte>, flags: int, more: seq<byte>)
    requires 0 <= flags < TWO_32 && flags % 2 == 0 && HEADER_LEN + 5 + |document| < TWO_31
    ensures var (after, result) := ReadReply(s.(inbox := OpMsg(requestId, Payload(flags, document)) + more), codec);
            && result == Decoded(codec, document, flags)
            && after.lastChecksum == NoChecksum && after.lastCompressor == -1 && after.inbox == more
            && CountedAlike(s, OpMsg(requestId, Payload(flags, document)),
                            |OpMsg(requestId, Payload(flags, document))|, after)
  {
    var body := Payload(flags, document);
    PayloadParts(flags, document);
    PlainMessageReads(s, codec, requestId, body, more);
    PlainBodyReads(Received(s, HEADER_LEN + |body|, -1, 0, |body|, more), codec,
                   Header(HEADER_LEN + |body|, requestId, OP_MSG), flags, document);
  }

  lemma CompressedRoundTrip(s: Session, codec: Codec, requestId: int, document: seq<byte>, compressor: byte,
                            more: seq<byte>)
    requires codec.Lossless() && codec.Compress(Payload(0, document), compressor).Some?
    requires HEADER_LEN + 9 + |codec.Compress(Payload(0, document), compressor).value| < TWO_31
    ensures var body := Payload(0, document);
            var compressed := codec.Compress(body, compressor).value;
            var bytes := OpCompressed(requestId, |body|, compressor, compressed);
            var (after, result) := ReadReply(s.(inbox := bytes + more), codec);
            && result == Decoded(codec, document, 0)
            && after.lastChecksum == NoChecksum && after.lastCompressor == compressor && after.inbox == more
            && CountedAlike(s, bytes, HEADER_LEN + |body|, after)
            && after.traffic.replyPayload == s.traffic.replyPayload + |compressed|
            && after.traffic.replyBody == s.traffic.replyBody + |body|
  {
    var body := Payload(0, document);
    var compressed := codec.Compress(body, compressor).value;
    var length := HEADER_LEN + 9 + |compressed|;
    CompressedMessageReads(s, codec, requestId, body, compressor, compressed, more);
    PlainBodyReads(Received(s, length, compressor, |compressed|, |body|, more), codec,
                   Header(length, requestId, OP_COMPRESSED), 0, document);
  }

  lemma FlagOnlyBodyReads(s: Session, codec: Codec, header: seq<byte>, document: seq<byte>)
    requires |header| == HEADER_LEN
    ensures var (after, result) := ReadBody(s, codec, header, Payload(CHECKSUM_PRESENT, document));
            if |document| < 4 then result == Failed(MissingChecksum)
            else
              && result == Decoded(codec, document[..|document| - 4], CHECKSUM_PRESENT)
              && after.lastChecksum != NoChecksum
  {
    var body := Payload(CHECKSUM_PRESENT, document);
    PayloadParts(CHECKSUM_PRESENT, document);
    if |document| >= 4 { assert body[..|body| - 4][5..] == document[..|document| - 4]; }
  }

  /** A flag without checksum bytes makes the reader take the last four bytes of the document for one,
      compressed or not. */
  lemma FlagOnlyLosesBytes(s: Session, codec: Codec, requestId: int, document: seq<byte>, compressor: int,
                           bytes: seq<byte>, more: seq<byte>)
    requires codec.Lossless()
    requires Envelope(codec, requestId, ChecksummedMessage(codec, requestId, document, FlagOnly), compressor)
             == Some(bytes)
    requires |bytes| < TWO_31
    ensures var (after, result) := ReadReply(s.(inbox := bytes + more), codec);
            if |document| < 4 then result == Failed(MissingChecksum)
            else
              && result == Decoded(codec, document[..|document| - 4], CHECKSUM_PRESENT)
              && after.lastChecksum != NoChecksum
  {
    var body := Payload(CHECKSUM_PRESENT, document);
    ChecksummedBody(codec, requestId, document, FlagOnly);
    assert body + [] == body;
    if compressor == -1 {
      var length := HEADER_LEN + |body|;
      PlainMessageReads(s, codec, requestId, body, more);
      FlagOnlyBodyReads(Received(s, length, -1, 0, |body|, more), codec, Header(length, requestId, OP_MSG), document);
    } else {
      var c := AsByte(compressor);
      var compressed := codec.Compress(body, c).value;
      var length := HEADER_LEN + 9 + |compressed|;
      CompressedMessageReads(s, codec, requestId, body, c, compressed, more);
      FlagOnlyBodyReads(Received(s, length, c, |compressed|, |body|, more), codec,
                        Header(length, requestId, OP_COMPRESSED), document);
    }
  }

  // ---------------------------------------------------------------- what goes over the wire

  /** Four bytes that give v when read as an unsigned little-endian number modulo 2^32. */
  predicate Holds32(bytes: seq<byte>, at: nat, v: int) {
    at + 4 <= |bytes| && U32(bytes[at..at + 4]) == v % 0x1_0000_0000
  }

  /** The header of the MongoDB Wire Protocol: length of the message, its id, the id it responds to, opcode. */
  predicate HasHeader(m: seq<byte>, requestId: int, opcode: int) {
    Holds32(m, 0, |m|) && Holds32(m, 4, requestId) && Holds32(m, 8, 0) && Holds32(m, 12, opcode)
  }

  lemma HeaderHolds(m: seq<byte>, rest: seq<byte>, requestId: int, opcode: int)
    requires m == Header(HEADER_LEN + |rest|, requestId, opcode) + rest
    ensures HasHeader(m, requestId, opcode) && m[16..] == rest
  {
    assert m[0..4] == Le32(HEADER_LEN + |rest|) && m[4..8] == Le32(requestId) && m[8..12] == Le32(0)
        && m[12..16] == Le32(opcode);
    Le32Digits(HEADER_LEN + |rest|);
    Le32Digits(requestId);
    Le32Digits(0);
    Le32Digits(opcode);
  }

  /** An OP_MSG with one section of kind 0: opcode 2013, flag bits, a zero byte, the document. */
  predicate IsMessage(m: seq<byte>, requestId: int, flags: int, document: seq<byte>, tail: seq<byte>) {
    HasHeader(m, requestId, 2013) && Holds32(m, 16, flags) && |m| > 20 && m[20] == 0 && m[21..] == document + tail
  }

  lemma MessageLayout(m: seq<byte>, payload: seq<byte>, requestId: int, flags: int, document: seq<byte>,
                      tail: seq<byte>)
    requires payload == Payload(flags, document) + tail
    requires m == Header(HEADER_LEN + |payload|, requestId, OP_MSG) + payload
    ensures IsMessage(m, requestId, flags, document, tail)
  {
    HeaderHolds(m, payload, requestId, OP_MSG);
    assert m[16..20] == payload[..4] == Le32(flags);
    Le32Digits(flags);
    assert payload[4] == 0 && payload[5..] == document + tail;
  }

  /** What RunCommandFlags sends. */
  lemma PlainLayout(requestId: int, flags: int, document: seq<byte>)
    ensures IsMessage(OpMsg(requestId, Payload(flags, document)), requestId, flags, document, [])
  {
    var payload := Payload(flags, document);
    assert payload + [] == payload;
    MessageLayout(OpMsg(requestId, payload), payload, requestId, flags, document, []);
  }

  /** A checksummed message has flag bit 0 set and ends, unless only the flag is wanted, with four bytes: the
      CRC-32C of all bytes before them, or that with the bits of 0xdeadbeef flipped. */
  lemma ChecksummedLayout(codec: Codec, requestId: int, document: seq<byte>, checksum: Checksum)
    ensures var m := ChecksummedMessage(codec, requestId, document, checksum);
            && (checksum == FlagOnly ==> IsMessage(m, requestId, 1, document, []))
            && (checksum != FlagOnly ==>
                  && |m| >= 25 && IsMessage(m, requestId, 1, document, m[|m| - 4..])
                  && var sum := codec.crc(m[..|m| - 4]) % 0x1_0000_0000;
                     U32(m[|m| - 4..]) == if checksum == Valid then sum else Xor(sum, 0xdead_beef))
  {
    var m := ChecksummedMessage(codec, requestId, document, checksum);
    var payload := Payload(CHECKSUM_PRESENT, document);
    if checksum == FlagOnly {
      PlainLayout(requestId, 1, document);
    } else {
      var hashed, tail := Hashed(requestId, document), Tail(codec, requestId, document, checksum);
      var sum := codec.Checksum(hashed);
      assert m == hashed + tail && m[..|m| - 4] == hashed && m[|m| - 4..] == tail;
      assert m == Header(HEADER_LEN + |payload + tail|, requestId, OP_MSG) + (payload + tail);
      MessageLayout(m, payload + tail, requestId, 1, document, tail);
      CorruptionShows(sum);
      Le32Reads(if checksum == Corrupt then Xor(sum, CORRUPTION) else sum);
    }
  }

  /** An envelope: opcode 2012, then the opcode and size of what it holds, the compressor, the compressed bytes. */
  lemma EnvelopeLayout(requestId: int, bodyLength: int, compressor: byte, compressed: seq<byte>)
    ensures var m := OpCompressed(requestId, bodyLength, compressor, compressed);
            && HasHeader(m, requestId, 2012) && Holds32(m, 16, 2013) && Holds32(m, 20, bodyLength)
            && |m| >= 25 && m[24] == compressor && m[25..] == compressed
  {
    var m := OpCompressed(requestId, bodyLength, compressor, compressed);
    var rest := Compressed(bodyLength, compressor, compressed);
    assert m == Header(HEADER_LEN + |rest|, requestId, OP_COMPRESSED) + rest;
    HeaderHolds(m, rest, requestId, OP_COMPRESSED);
    assert m[16..20] == Le32(OP_MSG) && m[20..24] == Le32(bodyLength);
    Le32Digits(OP_MSG);
    Le32Digits(bodyLength);
  }

  /** In an envelope goes what follows the header of the message, and its size; without one the message itself. */
  lemma EnvelopeHoldsBody(codec: Codec, requestId: int, message: seq<byte>, compressor: int)
    requires |message| >= 16
    ensures var bytes := Envelope(codec, requestId, message, compressor);
            var body := message[16..];
            && (compressor == -1 ==> bytes == Some(message))
            && (compressor == 0 ==> bytes == Some(OpCompressed(requestId, |message| - 16, 0, body)))
            && (compressor == 1 ==> bytes == Some(OpCompressed(requestId, |message| - 16, 1, codec.snappy(body))))
            && (compressor == 2 ==> bytes == Some(OpCompressed(requestId, |message| - 16, 2, codec.zlib(body))))
            && (2 < compressor < 256 ==> bytes == None)
  {
  }

  /** Request ids count upwards within 32 bits. */
  lemma NextIdCounts(id: int)
    requires -0x8000_0000 <= id < 0x8000_0000
    ensures -0x8000_0000 <= NextId(id) < 0x8000_0000 && (NextId(id) - id - 1) % 0x1_0000_0000 == 0
  {
  }

  // ---------------------------------------------------------------- which bytes are a reply

  /** The message at the head of the inbox, as long as it says, holds this body: plain under opcode 2013, or
      compressed under opcode 2012. */
  predicate Carries(inbox: seq<byte>, codec: Codec, body: seq<byte>) {
    && |inbox| >= 16
    && var length := U32(inbox[..4]);
       && 21 <= length <= |inbox| && length < 0x8000_0000
       && (|| (U32(inbox[12..16]) == 2013 && body == inbox[16..length])
           || (U32(inbox[12..16]) == 2012 && length >= 25 && U32(inbox[16..20]) == 2013
               && codec.Decompress(inbox[25..length], inbox[24]) == Some(body)))
  }

  /** The body announces these flags and holds this document, between its section kind and, under an odd flag
      word, a checksum of four bytes. */
  predicate Contains(body: seq<byte>, codec: Codec, document: seq<byte>, flags: int) {
    && |body| >= 5 && U32(body[..4]) == flags && body[4] == 0 && codec.decodable(document)
    && if flags % 2 == 0 then document == body[5..] else |body| >= 9 && document == body[5..|body| - 4]
  }

  lemma BodyAccepted(s: Session, codec: Codec, header: seq<byte>, body: seq<byte>, document: seq<byte>, flags: int)
    requires |header| == HEADER_LEN
    ensures ReadBody(s, codec, header, body).1 == Reply(document, flags) <==> Contains(body, codec, document, flags)
  {
    if |body| >= 9 { assert body[..|body| - 4][5..] == body[5..|body| - 4]; }
  }

  lemma PlainAccepted(s: Session, codec: Codec, document: seq<byte>, flags: int)
    requires |s.inbox| >= 16 && U32(s.inbox[12..16]) == 2013
    ensures ReadReply(s, codec).1 == Reply(document, flags) <==>
            exists body :: Carries(s.inbox, codec, body) && Contains(body, codec, document, flags)
  {
    var header := s.inbox[..HEADER_LEN];
    assert header[..4] == s.inbox[..4] && header[12..] == s.inbox[12..16];
    var length := Signed(U32(s.inbox[..4]));
    if 21 <= length <= |s.inbox| {
      var body := s.inbox[16..length];
      PlainReplyTaken(s, codec, length);
      BodyAccepted(Received(s, length, -1, 0, length - 16, s.inbox[length..]), codec, header, body, document, flags);
      assert Carries(s.inbox, codec, body);
    }
  }

  lemma CompressedAccepted(s: Session, codec: Codec, document: seq<byte>, flags: int)
    requires |s.inbox| >= 16 && U32(s.inbox[12..16]) == 2012
    ensures ReadReply(s, codec).1 == Reply(document, flags) <==>
            exists body :: Carries(s.inbox, codec, body) && Contains(body, codec, document, flags)
  {
    var header := s.inbox[..HEADER_LEN];
    assert header[..4] == s.inbox[..4] && header[12..] == s.inbox[12..16];
    var length := Signed(U32(s.inbox[..4]));
    if 25 <= length <= |s.inbox| {
      var rest := s.inbox[16..length];
      RestParts(s.inbox, length);
      SignedIs(rest[..4], OP_MSG);
      var body := codec.Decompress(rest[9..], rest[8]);
      if U32(rest[..4]) == 2013 && body.Some? {
        CompressedBodyAccepted(s, codec, body.value, document, flags);
        assert Carries(s.inbox, codec, body.value);
      }
    }
  }

  lemma CompressedBodyAccepted(s: Session, codec: Codec, body: seq<byte>, document: seq<byte>, flags: int)
    requires |s.inbox| >= 16 && U32(s.inbox[12..16]) == 2012
    requires Carries(s.inbox, codec, body)
    ensures ReadReply(s, codec).1 == Reply(document, flags) <==> Contains(body, codec, document, flags)
  {
    var length := U32(s.inbox[..4]);
    CompressedReplyTaken(s, codec, length, body);
    BodyAccepted(Received(s, length, s.inbox[24], length - 25, |body|, s.inbox[length..]), codec, s.inbox[..16], body,
                 document, flags);
  }

  /** A document is accepted from exactly the bytes that are a message holding it. */
  lemma ReplyIff(s: Session, codec: Codec, document: seq<byte>, flags: int)
    ensures ReadReply(s, codec).1 == Reply(document, flags) <==>
            exists body :: Carries(s.inbox, codec, body) && Contains(body, codec, document, flags)
  {
    if |s.inbox| >= 16 {
      var header := s.inbox[..HEADER_LEN];
      assert header[..4] == s.inbox[..4] && header[12..] == s.inbox[12..16];
      if U32(s.inbox[12..16]) == 2013 {
        PlainAccepted(s, codec, document, flags);
      } else if U32(s.inbox[12..16]) == 2012 {
        CompressedAccepted(s, codec, document, flags);
      } else {
        SignedIs(s.inbox[12..16], OP_MSG);
        SignedIs(s.inbox[12..16], OP_COMPRESSED);
      }
    }
  }

  /** The checksum of an uncompressed reply is called valid exactly when its last four bytes are the CRC-32C of
      all bytes before them. */
  lemma ValidIffChecksumOfMessage(s: Session, codec: Codec, length: nat)
    requires 25 <= length <= |s.inbox| && length < 0x8000_0000 && U32(s.inbox[..4]) == length
    requires U32(s.inbox[12..16]) == 2013 && U32(s.inbox[16..20]) % 2 == 1
    ensures var sum, last := codec.crc(s.inbox[..length - 4]) % 0x1_0000_0000, U32(s.inbox[length - 4..length]);
            ReadReply(s, codec).0.lastChecksum == if sum == last then ValidChecksum else InvalidChecksum
  {
    var header, rest := s.inbox[..16], s.inbox[16..length];
    PlainReplyTaken(s, codec, length);
    assert rest[..4] == s.inbox[16..20] && rest[|rest| - 4..] == s.inbox[length - 4..length];
    OddBodyIsChecked(Received(s, length, -1, 0, length - 16, s.inbox[length..]), codec, header, rest);
    assert header[..4] == s.inbox[..4] && header[12..] == s.inbox[12..16];
    SameHeader(header);
    assert OriginalHeader(header, |rest|) == header;
    assert header + rest[..|rest| - 4] == s.inbox[..length - 4];
  }

  lemma OddBodyIsChecked(s: Session, codec: Codec, header: seq<byte>, body: seq<byte>)
    requires |header| == HEADER_LEN && |body| >= 9 && U32(body[..4]) % 2 == 1
    ensures var sum := codec.Checksum(OriginalHeader(header, |body|) + body[..|body| - 4]);
            ReadBody(s, codec, header, body).0.lastChecksum ==
            if sum == U32(body[|body| - 4..]) then ValidChecksum else InvalidChecksum
  {
  }

  /** Four bytes are the little-endian bytes of the number they give. */
  lemma Le32OfU32(b: seq<byte>)
    requires |b| == 4
    ensures Le32(U32(b)) == b
  {
    var v := U32(b);
    var high := (b[2] as int) + 256 * (b[3] as int);
    assert v == 256 * ((b[1] as int) + 256 * high) + b[0] as int;
    assert v / 256 == (b[1] as int) + 256 * high;
    assert v / 65536 == high;
    assert v / 16777216 == b[3] as int;
  }

  lemma SameHeader(header: seq<byte>)
    requires |header| == HEADER_LEN
    ensures header == Le32(U32(header[..4])) + header[4..12] + Le32(U32(header[12..]))
  {
    Le32OfU32(header[..4]);
    Le32OfU32(header[12..]);
  }

  /** Why a reply is refused before its body is looked at, and how much of it is taken. */
  lemma HeaderErrors(s: Session, codec: Codec)
    requires |s.inbox| >= 16
    ensures var (after, result) := ReadReply(s, codec);
            var length, opcode := U32(s.inbox[..4]), U32(s.inbox[12..16]);
            if length < 21 || length >= 0x8000_0000 then
              result == Failed(ShortReply) && after == s.(inbox := s.inbox[16..])
            else if opcode != 2013 && opcode != 2012 then
              result == Failed(UnexpectedOpcode) && after == s.(inbox := s.inbox[16..])
            else if |s.inbox| < length then
              result == Failed(ShortRead) && after == s.(inbox := [])
            else
              && after.inbox == s.inbox[length..] && after.traffic.replyWire == s.traffic.replyWire + length
              && (opcode == 2012 && (length < 25 || U32(s.inbox[16..20]) != 2013) ==>
                    result == Failed(MalformedCompressed))
              && (opcode == 2012 && length >= 25 && U32(s.inbox[16..20]) == 2013 ==>
                    codec.Decompress(s.inbox[25..length], s.inbox[24]).None? ==> result == Failed(Undecompressable))
  {
    var header := s.inbox[..HEADER_LEN];
    assert header[..4] == s.inbox[..4] && header[12..] == s.inbox[12..16];
    SignedIs(s.inbox[12..16], OP_MSG);
    SignedIs(s.inbox[12..16], OP_COMPRESSED);
    var length := U32(s.inbox[..4]);
    if 25 <= length <= |s.inbox| {
      RestParts(s.inbox, length);
      SignedIs(s.inbox[16..20], OP_MSG);
    }
  }

  /** Why a body is refused: too short for a section, too short for the checksum it announces, a section of another
      kind, a document that cannot be decoded. */
  lemma BodyErrors(s: Session, codec: Codec, header: seq<byte>, body: seq<byte>)
    requires |header| == 16
    ensures var result := ReadBody(s, codec, header, body).1;
            if |body| < 5 then result == Failed(TruncatedSection)
            else if U32(body[..4]) % 2 == 1 && |body| < 9 then result == Failed(MissingChecksum)
            else if body[4] != 0 then result == Failed(UnexpectedKind)
            else
              var document := body[5..if U32(body[..4]) % 2 == 1 then |body| - 4 else |body|];
              !codec.decodable(document) ==> result == Failed(UndecodableDocument)
  {
    if |body| >= 5 { assert body[5..|body|] == body[5..]; }
    if |body| >= 9 { assert body[..|body| - 4][5..] == body[5..|body| - 4]; }
  }
}
