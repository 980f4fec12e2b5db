/**
 QUIC frames, src/frame.rs and section 19 of RFC 9000.

 `PutFrame` and `ReadFrame` define the wire format; `ToBytes` and `FromBytes` are the codec
 itself, with its padding and acknowledgement loops, and are proved to compute them.
 */
module Frames {
  import opened Options
  import opened Codec
  import opened Ranges
  import opened AckFrames

  const MAX_STREAM_SIZE: nat := 0x4000_0000_0000_0000

  datatype PacketType = VersionNegotiation | Initial | ZeroRTT | Handshake | Retry | OneRTT

  datatype Frame =
    | Paddings(len: nat)
    | Ping(pmtuProbe: Option<(nat, nat)>)
    | Ack(ack: AckFields)
    | ResetStream(streamId: nat, errorCode: nat, finalSize: nat)
    | StopSending(streamId: nat, errorCode: nat)
    | Crypto(offset: nat, length: nat, data: Bytes)
    | NewToken(token: Bytes)
    | Stream(streamId: nat, offset: nat, length: nat, fin: bool, data: Bytes)
    | MaxData(max: nat)
    | MaxStreamData(streamId: nat, max: nat)
    | MaxStreams(bidi: bool, max: nat)
    | DataBlocked(max: nat)
    | StreamDataBlocked(streamId: nat, max: nat)
    | StreamsBlocked(bidi: bool, max: nat)
    | NewConnectionId(seqNum: nat, retirePriorTo: nat, connId: Bytes, resetToken: Bytes)
    | RetireConnectionId(seqNum: nat)
    | PathChallenge(challenge: Bytes)
    | PathResponse(challenge: Bytes)
    | ConnectionClose(errorCode: nat, frameType: nat, reason: Bytes)
    | ApplicationClose(errorCode: nat, reason: Bytes)
    | HandshakeDone
    | PathAbandon(dcidSeqNum: nat, errorCode: nat, reason: Bytes)
    | PathStatus(dcidSeqNum: nat, statusSeqNum: nat, status: nat)
    | Datagram(data: Bytes)

  predicate Allowed(pkt: PacketType, f: Frame) {
    match f
    case Paddings(_) => true
    case Ping(_) => true
    case Ack(_) => pkt != ZeroRTT
    case Crypto(_, _, _) => pkt != ZeroRTT
    case ConnectionClose(_, _, _) => pkt != ZeroRTT
    case HandshakeDone => pkt == OneRTT
    case NewToken(_) => pkt == OneRTT
    case PathResponse(_) => pkt == OneRTT
    case RetireConnectionId(_) => pkt == OneRTT
    case _ => pkt == OneRTT || pkt == ZeroRTT
  }

  // ----- What the encoder expects

  /** Fields fit their wire representation; the STREAM and CRYPTO length is left free. */
  ghost predicate Encodable(f: Frame) {
    match f
    case Paddings(_) => true
    case Ping(_) => true
    case Ack(a) => EncodableAck(a)
    case ResetStream(id, code, size) => id <= VINT_MAX && code <= VINT_MAX && size <= VINT_MAX
    case StopSending(id, code) => id <= VINT_MAX && code <= VINT_MAX
    case Crypto(offset, _, _) => offset <= VINT_MAX
    case NewToken(token) => |token| <= VINT_MAX
    case Stream(id, offset, _, _, _) => id <= VINT_MAX && offset <= VINT_MAX
    case MaxData(max) => max <= VINT_MAX
    case MaxStreamData(id, max) => id <= VINT_MAX && max <= VINT_MAX
    case MaxStreams(_, max) => max <= VINT_MAX
    case DataBlocked(max) => max <= VINT_MAX
    case StreamDataBlocked(id, max) => id <= VINT_MAX && max <= VINT_MAX
    case StreamsBlocked(_, max) => max <= VINT_MAX
    case NewConnectionId(seqNum, retire, cid, token) =>
      seqNum <= VINT_MAX && retire <= VINT_MAX && |cid| <= MAX_CID_LEN && |token| == RESET_TOKEN_LEN
    case RetireConnectionId(seqNum) => seqNum <= VINT_MAX
    case PathChallenge(data) => |data| == 8
    case PathResponse(data) => |data| == 8
    case ConnectionClose(code, frameType, reason) =>
      code <= VINT_MAX && frameType <= VINT_MAX && |reason| <= VINT_MAX
    case ApplicationClose(code, reason) => code <= VINT_MAX && |reason| <= VINT_MAX
    case HandshakeDone => true
    case PathAbandon(cid, code, reason) => cid <= VINT_MAX && code <= VINT_MAX && |reason| <= VINT_MAX
    case PathStatus(cid, seqNum, status) => cid <= VINT_MAX && seqNum <= VINT_MAX && status <= VINT_MAX
    case Datagram(data) => |data| <= VINT_MAX
  }

  /** What the wire format can carry, besides field widths. */
  ghost predicate Transmittable(f: Frame) {
    && Encodable(f)
    && (f.Paddings? ==> f.len > 0)
    && (f.Ping? ==> f.pmtuProbe == None)
    && (f.Crypto? || f.Stream? ==> f.length == |f.data| <= 16383)
    && (f.Stream? ==> f.offset + f.length < MAX_STREAM_SIZE)
  }

  // ----- Wire format

  function Zeros(n: nat): (z: Bytes)
    ensures |z| == n
  {
    if n == 0 then [] else [0] + Zeros(n - 1)
  }

  /** CRYPTO and STREAM frames always carry a two-byte length. */
  function PutShortLength(n: nat, tail: Bytes): Bytes {
    VarintField(n, 2) + tail
  }

  /** The type a frame is sent with. */
  function TypeOf(f: Frame): (t: nat)
    ensures t <= VINT_MAX
  {
    match f
    case Paddings(_) => 0x00
    case Ping(_) => 0x01
    case Ack(a) => if a.ecn == None then 0x02 else 0x03
    case ResetStream(_, _, _) => 0x04
    case StopSending(_, _) => 0x05
    case Crypto(_, _, _) => 0x06
    case NewToken(_) => 0x07
    case Stream(_, _, _, fin, _) => if fin then 0x0f else 0x0e
    case MaxData(_) => 0x10
    case MaxStreamData(_, _) => 0x11
    case MaxStreams(bidi, _) => if bidi then 0x12 else 0x13
    case DataBlocked(_) => 0x14
    case StreamDataBlocked(_, _) => 0x15
    case StreamsBlocked(bidi, _) => if bidi then 0x16 else 0x17
    case NewConnectionId(_, _, _, _) => 0x18
    case RetireConnectionId(_) => 0x19
    case PathChallenge(_) => 0x1a
    case PathResponse(_) => 0x1b
    case ConnectionClose(_, _, _) => 0x1c
    case ApplicationClose(_, _) => 0x1d
    case HandshakeDone => 0x1e
    case PathAbandon(_, _, _) => 0x15228c05
    case PathStatus(_, _, _) => 0x15228c06
    case Datagram(_) => 0x31
  }

  function PutAckBody(a: AckFields, tail: Bytes): Bytes
    requires EncodableAck(a)
  {
    AckRoundTrip(a, tail);
    PutAck(a.delay, Descending(a.ranges), a.ecn, tail)
  }

  /** What follows the type of a frame, and then `tail`. */
  function PutBody(f: Frame, tail: Bytes): Bytes
    requires Encodable(f) && !f.Paddings?
  {
    match f
    case Ping(_) => tail
    case Ack(a) => PutAckBody(a, tail)
    case ResetStream(id, code, size) => PutVarint(id, PutVarint(code, PutVarint(size, tail)))
    case StopSending(id, code) => PutVarint(id, PutVarint(code, tail))
    case Crypto(offset, length, data) => PutVarint(offset, PutShortLength(length, data + tail))
    case NewToken(token) => PutWithVarintLength(token, tail)
    case Stream(id, offset, length, _, data) =>
      PutVarint(id, PutVarint(offset, PutShortLength(length, data + tail)))
    case MaxData(max) => PutVarint(max, tail)
    case MaxStreamData(id, max) => PutVarint(id, PutVarint(max, tail))
    case MaxStreams(_, max) => PutVarint(max, tail)
    case DataBlocked(max) => PutVarint(max, tail)
    case StreamDataBlocked(id, max) => PutVarint(id, PutVarint(max, tail))
    case StreamsBlocked(_, max) => PutVarint(max, tail)
    case NewConnectionId(seqNum, retire, cid, token) =>
      PutVarint(seqNum, PutVarint(retire, [|cid|] + (cid + (token + tail))))
    case RetireConnectionId(seqNum) => PutVarint(seqNum, tail)
    case PathChallenge(data) => data + tail
    case PathResponse(data) => data + tail
    case ConnectionClose(code, frameType, reason) =>
      PutVarint(code, PutVarint(frameType, PutWithVarintLength(reason, tail)))
    case ApplicationClose(code, reason) => PutVarint(code, PutWithVarintLength(reason, tail))
    case HandshakeDone => tail
    case PathAbandon(cid, code, reason) =>
      PutVarint(cid, PutVarint(code, PutWithVarintLength(reason, tail)))
    case PathStatus(cid, seqNum, status) => PutVarint(cid, PutVarint(seqNum, PutVarint(status, tail)))
    case Datagram(data) => PutWithVarintLength(data, tail)
  }

  /** The bytes of a frame, followed by `tail`. */
  function PutFrame(f: Frame, tail: Bytes): Bytes
    requires Encodable(f)
  {
    if f.Paddings? then Zeros(f.len) + tail else PutVarint(TypeOf(f), PutBody(f, tail))
  }

  function LeadingZeros(b: Bytes): (n: nat)
    ensures n <= |b|
  {
    if b == [] || b[0] != 0 then 0 else 1 + LeadingZeros(b[1..])
  }

  /** Read a frame of type `t` from the bytes after the type. */
  function ReadFrame(t: nat, b: Bytes): Read<Frame> {
    if t == 0x00 then
      Got(Paddings(1 + LeadingZeros(b)), b[LeadingZeros(b)..])
    else if 0x02 <= t <= 0x03 then
      var (a, b) :- ReadAck(t == 0x03, b);
      Got(Ack(a), b)
    else
      ReadFields(t, b)
  }

  function ReadStream(t: nat, b: Bytes): Read<Frame>
    requires 0x08 <= t <= 0x0f
  {
    var (id, b) :- ReadVarint(b);
    var (offset, b) :- if t / 4 % 2 == 1 then ReadVarint(b) else Got(0, b);
    var (length, b) :- if t / 2 % 2 == 1 then ReadVarint(b) else Got(|b|, b);
    if offset + length >= MAX_STREAM_SIZE then Failed(FrameEncodingError)
    else
      var (data, b) :- ReadBytes(b, length);
      Got(Stream(id, offset, length, t % 2 == 1, data), b)
  }

  function ReadCrypto(b: Bytes): Read<Frame> {
    var (offset, b) :- ReadVarint(b);
    var (length, b) :- ReadVarint(b);
    var (data, b) :- ReadBytes(b, length);
    Got(Crypto(offset, length, data), b)
  }

  function ReadNewConnectionId(b: Bytes): Read<Frame> {
    var (seqNum, b) :- ReadVarint(b);
    var (retire, b) :- ReadVarint(b);
    var (cid, b) :- ReadWithU8Length(b);
    var (token, b) :- ReadBytes(b, RESET_TOKEN_LEN);
    Got(NewConnectionId(seqNum, retire, ConnectionIdOf(cid), token), b)
  }

  function ReadTwo(b: Bytes): Read<(nat, nat)> {
    var (x, b) :- ReadVarint(b);
    var (y, b) :- ReadVarint(b);
    Got((x, y), b)
  }

  function ReadThree(b: Bytes): Read<(nat, nat, nat)> {
    var (x, b) :- ReadVarint(b);
    var (y, b) :- ReadVarint(b);
    var (z, b) :- ReadVarint(b);
    Got((x, y, z), b)
  }

  function ReadOneAndBytes(b: Bytes): Read<(nat, Bytes)> {
    var (x, b) :- ReadVarint(b);
    var (bytes, b) :- ReadWithVarintLength(b);
    Got((x, bytes), b)
  }

  function ReadTwoAndBytes(b: Bytes): Read<(nat, nat, Bytes)> {
    var (x, b) :- ReadVarint(b);
    var (y, b) :- ReadVarint(b);
    var (bytes, b) :- ReadWithVarintLength(b);
    Got((x, y, bytes), b)
  }

  /** Frames made of one integer, by type. */
  function ReadLimit(t: nat, b: Bytes): Read<Frame>
    requires t in {0x10, 0x12, 0x13, 0x14, 0x16, 0x17, 0x19}
  {
    var (x, b) :- ReadVarint(b);
    Got(if t == 0x10 then MaxData(x)
        else if t == 0x12 then MaxStreams(true, x)
        else if t == 0x13 then MaxStreams(false, x)
        else if t == 0x14 then DataBlocked(x)
        else if t == 0x16 then StreamsBlocked(true, x)
        else if t == 0x17 then StreamsBlocked(false, x)
        else RetireConnectionId(x), b)
  }

  /** Frames made of two integers, by type. */
  function ReadPair(t: nat, b: Bytes): Read<Frame>
    requires t in {0x05, 0x11, 0x15}
  {
    var (p, b) :- ReadTwo(b);
    Got(if t == 0x05 then StopSending(p.0, p.1)
        else if t == 0x11 then MaxStreamData(p.0, p.1)
        else StreamDataBlocked(p.0, p.1), b)
  }

  /** Frames made of three integers, by type. */
  function ReadTriple(t: nat, b: Bytes): Read<Frame>
    requires t in {0x04, 0x15228c06}
  {
    var (p, b) :- ReadThree(b);
    Got(if t == 0x04 then ResetStream(p.0, p.1, p.2) else PathStatus(p.0, p.1, p.2), b)
  }

  /** Frames that end in a reason phrase, by type. */
  function ReadClose(t: nat, b: Bytes): Read<Frame>
    requires t in {0x1c, 0x1d, 0x15228c05}
  {
    if t == 0x1d then
      var (p, b) :- ReadOneAndBytes(b);
      Got(ApplicationClose(p.0, p.1), b)
    else
      var (p, b) :- ReadTwoAndBytes(b);
      Got(if t == 0x1c then ConnectionClose(p.0, p.1, p.2) else PathAbandon(p.0, p.1, p.2), b)
  }

  /** Frames that are one byte string, by type. */
  function ReadString(t: nat, b: Bytes): Read<Frame>
    requires t in {0x07, 0x1a, 0x1b, 0x30, 0x31}
  {
    if t == 0x07 || t == 0x31 then
      var (bytes, b) :- ReadWithVarintLength(b);
      Got(if t == 0x07 then NewToken(bytes) else Datagram(bytes), b)
    else if t == 0x30 then
      Got(Datagram(b), [])
    else
      var (bytes, b) :- ReadBytes(b, 8);
      Got(if t == 0x1a then PathChallenge(bytes) else PathResponse(bytes), b)
  }

  function ReadFields(t: nat, b: Bytes): Read<Frame> {
    if t == 0x01 then Got(Ping(None), b)
    else if t == 0x1e then Got(HandshakeDone, b)
    else if t in {0x10, 0x12, 0x13, 0x14, 0x16, 0x17, 0x19} then ReadLimit(t, b)
    else if t in {0x05, 0x11, 0x15} then ReadPair(t, b)
    else if t in {0x04, 0x15228c06} then ReadTriple(t, b)
    else if t in {0x1c, 0x1d, 0x15228c05} then ReadClose(t, b)
    else if t in {0x07, 0x1a, 0x1b, 0x30, 0x31} then ReadString(t, b)
    else if t == 0x06 then ReadCrypto(b)
    else if 0x08 <= t <= 0x0f then ReadStream(t, b)
    else if t == 0x18 then ReadNewConnectionId(b)
    else Failed(FrameEncodingError)
  }

  /** Decode the frame at the front of `buf`; the result carries the bytes consumed. */
  function Decode(buf: Bytes, pkt: PacketType): Read<Frame> {
    var (t, b) :- ReadVarint(buf);
    var (f, b) :- ReadFrame(t, b);
    if Allowed(pkt, f) then Got(f, b) else Failed(InvalidPacket)
  }

  // ----- Round trip

  lemma TwoRoundTrip(x: nat, y: nat, tail: Bytes)
    requires x <= VINT_MAX && y <= VINT_MAX
    ensures ReadTwo(PutVarint(x, PutVarint(y, tail))) == Got((x, y), tail)
  {
    hide ReadVarint, PutVarint;
    VarintRoundTrip(x, PutVarint(y, tail));
    VarintRoundTrip(y, tail);
  }

  lemma ThreeRoundTrip(x: nat, y: nat, z: nat, tail: Bytes)
    requires x <= VINT_MAX && y <= VINT_MAX && z <= VINT_MAX
    ensures ReadThree(PutVarint(x, PutVarint(y, PutVarint(z, tail)))) == Got((x, y, z), tail)
  {
    hide ReadVarint, PutVarint;
    VarintRoundTrip(x, PutVarint(y, PutVarint(z, tail)));
    VarintRoundTrip(y, PutVarint(z, tail));
    VarintRoundTrip(z, tail);
  }

  lemma OneAndBytesRoundTrip(x: nat, bytes: Bytes, tail: Bytes)
    requires x <= VINT_MAX && |bytes| <= VINT_MAX
    ensures ReadOneAndBytes(PutVarint(x, PutWithVarintLength(bytes, tail))) == Got((x, bytes), tail)
  {
    hide ReadVarint, PutVarint, ReadWithVarintLength, PutWithVarintLength;
    VarintRoundTrip(x, PutWithVarintLength(bytes, tail));
    WithVarintLengthRoundTrip(bytes, tail);
  }

  lemma TwoAndBytesRoundTrip(x: nat, y: nat, bytes: Bytes, tail: Bytes)
    requires x <= VINT_MAX && y <= VINT_MAX && |bytes| <= VINT_MAX
    ensures ReadTwoAndBytes(PutVarint(x, PutVarint(y, PutWithVarintLength(bytes, tail)))) == Got((x, y, bytes), tail)
  {
    hide ReadVarint, PutVarint, ReadWithVarintLength, PutWithVarintLength;
    VarintRoundTrip(x, PutVarint(y, PutWithVarintLength(bytes, tail)));
    VarintRoundTrip(y, PutWithVarintLength(bytes, tail));
    WithVarintLengthRoundTrip(bytes, tail);
  }

  lemma CryptoRoundTrip(f: Frame, tail: Bytes)
    requires f.Crypto? && Transmittable(f)
    ensures ReadCrypto(PutVarint(f.offset, PutShortLength(f.length, f.data + tail))) == Got(f, tail)
  {
    hide ReadVarint, PutVarint, VarintField;
    VarintRoundTrip(f.offset, PutShortLength(f.length, f.data + tail));
    TwoByteRoundTrip(f.length, f.data + tail);
    BytesRoundTrip(f.data, tail);
  }

  lemma StreamRoundTrip(f: Frame, tail: Bytes)
    requires f.Stream? && Transmittable(f)
    ensures
      ReadStream(if f.fin then 0x0f else 0x0e,
                 PutVarint(f.streamId, PutVarint(f.offset, PutShortLength(f.length, f.data + tail)))) == Got(f, tail)
  {
    hide ReadVarint, PutVarint, VarintField;
    VarintRoundTrip(f.streamId, PutVarint(f.offset, PutShortLength(f.length, f.data + tail)));
    VarintRoundTrip(f.offset, PutShortLength(f.length, f.data + tail));
    TwoByteRoundTrip(f.length, f.data + tail);
    BytesRoundTrip(f.data, tail);
  }

  lemma NewConnectionIdRoundTrip(f: Frame, tail: Bytes)
    requires f.NewConnectionId? && Encodable(f)
    ensures
      ReadNewConnectionId(PutVarint(f.seqNum, PutVarint(f.retirePriorTo, [|f.connId|] + (f.connId + (f.resetToken + tail)))))
      == Got(f, tail)
  {
    hide ReadVarint, PutVarint;
    var b := [|f.connId|] + (f.connId + (f.resetToken + tail));
    VarintRoundTrip(f.seqNum, PutVarint(f.retirePriorTo, b));
    VarintRoundTrip(f.retirePriorTo, b);
    assert b[1..] == f.connId + (f.resetToken + tail);
    BytesRoundTrip(f.connId, f.resetToken + tail);
    BytesRoundTrip(f.resetToken, tail);
  }

  /** The frames that are just integers. */
  predicate OnlyIntegers(f: Frame) {
    f.ResetStream? || f.StopSending? || f.MaxData? || f.MaxStreamData? || f.MaxStreams? || f.DataBlocked? ||
    f.StreamDataBlocked? || f.StreamsBlocked? || f.RetireConnectionId? || f.PathStatus?
  }

  lemma IntegersRoundTrip(f: Frame, tail: Bytes)
    requires Encodable(f) && OnlyIntegers(f)
    ensures ReadFields(TypeOf(f), PutBody(f, tail)) == Got(f, tail)
  {
    hide ReadVarint, PutVarint, ReadTwo, ReadThree;
    match f
    case ResetStream(id, code, size) => ThreeRoundTrip(id, code, size, tail);
    case PathStatus(cid, seqNum, status) => ThreeRoundTrip(cid, seqNum, status, tail);
    case StopSending(id, code) => TwoRoundTrip(id, code, tail);
    case MaxStreamData(id, max) => TwoRoundTrip(id, max, tail);
    case StreamDataBlocked(id, max) => TwoRoundTrip(id, max, tail);
    case MaxData(max) => VarintRoundTrip(max, tail);
    case MaxStreams(_, max) => VarintRoundTrip(max, tail);
    case DataBlocked(max) => VarintRoundTrip(max, tail);
    case StreamsBlocked(_, max) => VarintRoundTrip(max, tail);
    case RetireConnectionId(seqNum) => VarintRoundTrip(seqNum, tail);
  }

  /** The frames that carry byte strings, and those with no fields. */
  lemma StringsRoundTrip(f: Frame, tail: Bytes)
    requires Transmittable(f) && !f.Paddings? && !f.Ack? && !OnlyIntegers(f)
    ensures ReadFields(TypeOf(f), PutBody(f, tail)) == Got(f, tail)
  {
    hide ReadVarint, PutVarint, ReadOneAndBytes, ReadTwoAndBytes, ReadCrypto, ReadStream, ReadNewConnectionId;
    hide ReadWithVarintLength, PutWithVarintLength, PutShortLength;
    match f
    case Ping(_) =>
    case HandshakeDone =>
    case Crypto(_, _, _) => CryptoRoundTrip(f, tail);
    case NewToken(token) => WithVarintLengthRoundTrip(token, tail);
    case Stream(_, _, _, _, _) => StreamRoundTrip(f, tail);
    case NewConnectionId(_, _, _, _) => NewConnectionIdRoundTrip(f, tail);
    case PathChallenge(data) => BytesRoundTrip(data, tail);
    case PathResponse(data) => BytesRoundTrip(data, tail);
    case ConnectionClose(code, frameType, reason) => TwoAndBytesRoundTrip(code, frameType, reason, tail);
    case ApplicationClose(code, reason) => OneAndBytesRoundTrip(code, reason, tail);
    case PathAbandon(cid, code, reason) => TwoAndBytesRoundTrip(cid, code, reason, tail);
    case Datagram(data) => WithVarintLengthRoundTrip(data, tail);
  }

  lemma BodyRoundTrip(f: Frame, tail: Bytes)
    requires Transmittable(f) && !f.Paddings?
    ensures ReadFrame(TypeOf(f), PutBody(f, tail)) == Got(f, tail)
  {
    hide ReadFields, ReadAck, PutAckBody;
    if f.Ack? {
      AckBodyRoundTrip(f.ack, tail);
    } else if OnlyIntegers(f) {
      IntegersRoundTrip(f, tail);
    } else {
      StringsRoundTrip(f, tail);
    }
  }

  lemma AckBodyRoundTrip(a: AckFields, tail: Bytes)
    requires EncodableAck(a)
    ensures ReadAck(a.ecn.Some?, PutAckBody(a, tail)) == Got(a, tail)
  {
    hide ReadAck, PutAck;
    AckRoundTrip(a, tail);
  }

  lemma {:induction false} LeadingZerosOfZeros(n: nat, tail: Bytes)
    ensures
      var b := Zeros(n) + tail;
      LeadingZeros(b) == n + LeadingZeros(tail) && b[LeadingZeros(b)..] == tail[LeadingZeros(tail)..]
    decreases n
  {
    var b := Zeros(n) + tail;
    if n == 0 {
      assert b == tail;
    } else {
      LeadingZerosOfZeros(n - 1, tail);
      assert b[1..] == Zeros(n - 1) + tail;
      assert b[1 + LeadingZeros(b[1..])..] == b[1..][LeadingZeros(b[1..])..];
    }
  }

  lemma PaddingBytes(n: nat, tail: Bytes)
    requires n > 0
    ensures PutFrame(Paddings(n), tail) == [0] + (Zeros(n - 1) + tail)
  {
  }

  /** A run of padding absorbs the zero bytes that follow it. */
  lemma PaddingRun(n: nat, pkt: PacketType, suffix: Bytes)
    requires n > 0
    ensures
      Decode(PutFrame(Paddings(n), suffix), pkt) ==
      Got(Paddings(n + LeadingZeros(suffix)), suffix[LeadingZeros(suffix)..])
  {
    hide ReadVarint, LeadingZeros, Zeros, ReadFields, ReadAck;
    PaddingBytes(n, suffix);
    OneByteRoundTrip(0, Zeros(n - 1) + suffix);
    LeadingZerosOfZeros(n - 1, suffix);
  }

  /**
   Decoding the bytes of a frame, whatever follows, gives the frame back and leaves exactly
   what follows; a packet type that does not allow the frame makes it an error.
   */
  lemma FrameRoundTrip(f: Frame, pkt: PacketType, suffix: Bytes)
    requires Transmittable(f)
    requires f.Paddings? ==> suffix == [] || suffix[0] != 0
    ensures Decode(PutFrame(f, suffix), pkt) == if Allowed(pkt, f) then Got(f, suffix) else Failed(InvalidPacket)
  {
    if f.Paddings? {
      PaddingRun(f.len, pkt, suffix);
    } else {
      hide ReadVarint, PutVarint, PutBody, ReadFrame;
      VarintRoundTrip(TypeOf(f), PutBody(f, suffix));
      BodyRoundTrip(f, suffix);
    }
  }

  // ----- Encodings that only a peer sends

  /** The type of a STREAM frame with or without offset, length and end. */
  function StreamType(hasOffset: bool, hasLength: bool, fin: bool): nat {
    0x08 + (if hasOffset then 0x04 else 0) + (if hasLength then 0x02 else 0) + if fin then 0x01 else 0
  }

  /** What follows the type; a frame without length runs to the end of the packet. */
  function PutStreamBody(id: nat, offset: Option<nat>, hasLength: bool, data: Bytes, tail: Bytes): Bytes
    requires id <= VINT_MAX && |data| <= VINT_MAX && (offset.Some? ==> offset.value <= VINT_MAX)
  {
    var rest := if hasLength then PutVarint(|data|, data + tail) else data + tail;
    PutVarint(id, if offset.Some? then PutVarint(offset.value, rest) else rest)
  }

  lemma StreamTypeBits(hasOffset: bool, hasLength: bool, fin: bool)
    ensures
      var t := StreamType(hasOffset, hasLength, fin);
      && 0x08 <= t <= 0x0f
      && (t / 4 % 2 == 1 <==> hasOffset) && (t / 2 % 2 == 1 <==> hasLength) && (t % 2 == 1 <==> fin)
  {
  }

  lemma StreamBodyDecodes(id: nat, offset: Option<nat>, hasLength: bool, fin: bool, data: Bytes, suffix: Bytes)
    requires id <= VINT_MAX && |data| <= VINT_MAX && (offset.Some? ==> offset.value <= VINT_MAX)
    requires !hasLength ==> suffix == []
    ensures 0x08 <= StreamType(offset.Some?, hasLength, fin) <= 0x0f
    ensures
      var start := if offset.Some? then offset.value else 0;
      ReadStream(StreamType(offset.Some?, hasLength, fin), PutStreamBody(id, offset, hasLength, data, suffix)) ==
      if start + |data| < 0x4000_0000_0000_0000 then Got(Stream(id, start, |data|, fin, data), suffix)
      else Failed(FrameEncodingError)
  {
    hide ReadVarint, PutVarint, ReadBytes, StreamType;
    StreamTypeBits(offset.Some?, hasLength, fin);
    var rest := if hasLength then PutVarint(|data|, data + suffix) else data + suffix;
    VarintRoundTrip(id, if offset.Some? then PutVarint(offset.value, rest) else rest);
    if offset.Some? {
      VarintRoundTrip(offset.value, rest);
    }
    if hasLength {
      VarintRoundTrip(|data|, data + suffix);
    } else {
      assert data + suffix == data;
    }
    BytesRoundTrip(data, suffix);
  }

  /** Every form of a STREAM frame is decoded, unless it reaches past the largest stream size. */
  lemma StreamFormsDecode(
    id: nat, offset: Option<nat>, hasLength: bool, fin: bool, data: Bytes, suffix: Bytes, pkt: PacketType)
    requires id <= VINT_MAX && |data| <= VINT_MAX && (offset.Some? ==> offset.value <= VINT_MAX)
    requires !hasLength ==> suffix == []
    requires pkt == OneRTT || pkt == ZeroRTT
    ensures StreamType(offset.Some?, hasLength, fin) <= VINT_MAX
    ensures
      var start := if offset.Some? then offset.value else 0;
      var buf := PutVarint(StreamType(offset.Some?, hasLength, fin), PutStreamBody(id, offset, hasLength, data, suffix));
      Decode(buf, pkt) ==
      if start + |data| < 0x4000_0000_0000_0000 then Got(Stream(id, start, |data|, fin, data), suffix)
      else Failed(FrameEncodingError)
  {
    hide ReadVarint, PutVarint, ReadStream, StreamType, PutStreamBody;
    StreamBodyDecodes(id, offset, hasLength, fin, data, suffix);
    VarintRoundTrip(StreamType(offset.Some?, hasLength, fin), PutStreamBody(id, offset, hasLength, data, suffix));
  }

  /** CRYPTO data of any length is decoded. */
  lemma CryptoDecodes(offset: nat, data: Bytes, suffix: Bytes, pkt: PacketType)
    requires offset <= VINT_MAX && |data| <= VINT_MAX && pkt != ZeroRTT
    ensures
      Decode(PutVarint(0x06, PutVarint(offset, PutVarint(|data|, data + suffix))), pkt) ==
      Got(Crypto(offset, |data|, data), suffix)
  {
    hide ReadVarint, PutVarint, ReadBytes;
    VarintRoundTrip(0x06, PutVarint(offset, PutVarint(|data|, data + suffix)));
    VarintRoundTrip(offset, PutVarint(|data|, data + suffix));
    VarintRoundTrip(|data|, data + suffix);
    BytesRoundTrip(data, suffix);
  }

  /** A DATAGRAM frame without length takes the rest of the packet. */
  lemma DatagramToEnd(data: Bytes, pkt: PacketType)
    requires pkt == OneRTT || pkt == ZeroRTT
    ensures Decode([0x30] + data, pkt) == Got(Datagram(data), [])
  {
    hide ReadVarint;
    OneByteRoundTrip(0x30, data);
  }

  /** Of a connection id that is too long the first twenty bytes are kept. */
  lemma LongConnectionId(seqNum: nat, retire: nat, cid: Bytes, token: Bytes, suffix: Bytes)
    requires seqNum <= VINT_MAX && retire <= VINT_MAX && 20 < |cid| < 256 && |token| == 16
    ensures
      Decode(PutVarint(0x18, PutVarint(seqNum, PutVarint(retire, [|cid|] + (cid + (token + suffix))))), OneRTT) ==
      Got(NewConnectionId(seqNum, retire, cid[..20], token), suffix)
  {
    hide ReadVarint, PutVarint, ReadBytes;
    var b := [|cid|] + (cid + (token + suffix));
    VarintRoundTrip(0x18, PutVarint(seqNum, PutVarint(retire, b)));
    VarintRoundTrip(seqNum, PutVarint(retire, b));
    VarintRoundTrip(retire, b);
    assert b[1..] == cid + (token + suffix);
    BytesRoundTrip(cid, token + suffix);
    BytesRoundTrip(token, suffix);
  }

  /** Every other type is an encoding error. */
  lemma UnknownTypes(t: nat, tail: Bytes, pkt: PacketType)
    requires t <= VINT_MAX && (0x1f <= t <= 0x2f || 0x32 <= t) && t != 0x15228c05 && t != 0x15228c06
    ensures Decode(PutVarint(t, tail), pkt) == Failed(FrameEncodingError)
  {
    hide ReadVarint, PutVarint;
    VarintRoundTrip(t, tail);
  }

  /** Before the handshake keys, a packet carries padding, PING, ACK, CRYPTO and CONNECTION_CLOSE and nothing else. */
  lemma HandshakeFrames(buf: Bytes, pkt: PacketType)
    requires pkt == Initial || pkt == Handshake
    ensures
      Decode(buf, pkt).Got? ==>
        var f := Decode(buf, pkt).value;
        f.Paddings? || f.Ping? || f.Ack? || f.Crypto? || f.ConnectionClose?
  {
    hide ReadVarint, ReadFrame;
  }

  /** A 0-RTT packet carries everything but what answers the server or closes the transport. */
  lemma ZeroRttFrames(f: Frame)
    ensures
      Allowed(ZeroRTT, f) <==>
      !(f.Ack? || f.Crypto? || f.ConnectionClose? || f.HandshakeDone? || f.NewToken? || f.PathResponse?
        || f.RetireConnectionId?)
    ensures Allowed(OneRTT, f)
    ensures f.Paddings? || f.Ping? || f.Ack? || f.Crypto? || f.ConnectionClose? ==>
              Allowed(Initial, f) && Allowed(Handshake, f)
  {
  }

  // ----- Lengths

  function BlocksLen(rs: seq<Range>, smallest: nat): nat
    requires Falling(rs, smallest) && smallest <= VINT_MAX
    decreases |rs|
  {
    if rs == [] then 0
    else
      EncodeVarintLen(smallest - rs[0].end - 1) + EncodeVarintLen(rs[0].end - 1 - rs[0].start) +
      BlocksLen(rs[1..], rs[0].start)
  }

  function AckLen(a: AckFields): nat
    requires EncodableAck(a)
  {
    AckRoundTrip(a, []);
    var rs := Descending(a.ranges);
    FallingLength(rs[1..], rs[0].start);
    1 + EncodeVarintLen(rs[0].end - 1) + EncodeVarintLen(a.delay) + EncodeVarintLen(|rs| - 1) +
    EncodeVarintLen(rs[0].end - 1 - rs[0].start) +
    BlocksLen(rs[1..], rs[0].start) +
    (match a.ecn
     case None => 0
     case Some(c) => EncodeVarintLen(c.ect0) + EncodeVarintLen(c.ect1) + EncodeVarintLen(c.ce))
  }

  function WireLen(f: Frame): nat
    requires Encodable(f)
  {
    match f
    case Paddings(len) => len
    case Ping(_) => 1
    case Ack(a) => AckLen(a)
    case ResetStream(id, code, size) => 1 + EncodeVarintLen(id) + EncodeVarintLen(code) + EncodeVarintLen(size)
    case StopSending(id, code) => 1 + EncodeVarintLen(id) + EncodeVarintLen(code)
    case Crypto(offset, _, data) => 1 + EncodeVarintLen(offset) + 2 + |data|
    case NewToken(token) => 1 + EncodeVarintLen(|token|) + |token|
    case Stream(id, offset, _, _, data) => 1 + EncodeVarintLen(id) + EncodeVarintLen(offset) + 2 + |data|
    case MaxData(max) => 1 + EncodeVarintLen(max)
    case MaxStreamData(id, max) => 1 + EncodeVarintLen(id) + EncodeVarintLen(max)
    case MaxStreams(_, max) => 1 + EncodeVarintLen(max)
    case DataBlocked(max) => 1 + EncodeVarintLen(max)
    case StreamDataBlocked(id, max) => 1 + EncodeVarintLen(id) + EncodeVarintLen(max)
    case StreamsBlocked(_, max) => 1 + EncodeVarintLen(max)
    case NewConnectionId(seqNum, retire, cid, token) =>
      1 + EncodeVarintLen(seqNum) + EncodeVarintLen(retire) + 1 + |cid| + |token|
    case RetireConnectionId(seqNum) => 1 + EncodeVarintLen(seqNum)
    case PathChallenge(_) => 1 + 8
    case PathResponse(_) => 1 + 8
    case ConnectionClose(code, frameType, reason) =>
      1 + EncodeVarintLen(code) + EncodeVarintLen(frameType) + EncodeVarintLen(|reason|) + |reason|
    case ApplicationClose(code, reason) => 1 + EncodeVarintLen(code) + EncodeVarintLen(|reason|) + |reason|
    case HandshakeDone => 1
    case PathAbandon(cid, code, reason) =>
      4 + EncodeVarintLen(cid) + EncodeVarintLen(code) + EncodeVarintLen(|reason|) + |reason|
    case PathStatus(cid, seqNum, status) =>
      4 + EncodeVarintLen(cid) + EncodeVarintLen(seqNum) + EncodeVarintLen(status)
    case Datagram(data) => 1 + EncodeVarintLen(|data|) + |data|
  }

  lemma {:induction false} BlocksLenExact(rs: seq<Range>, smallest: nat, tail: Bytes)
    requires Falling(rs, smallest) && smallest <= VINT_MAX
    ensures |PutBlocks(rs, smallest, tail)| == BlocksLen(rs, smallest) + |tail|
    decreases |rs|
  {
    hide PutVarint, EncodeVarintLen;
    if rs != [] {
      BlocksLenExact(rs[1..], rs[0].start, tail);
    }
  }

  lemma AckLenExact(a: AckFields, tail: Bytes)
    requires EncodableAck(a)
    ensures |PutAckBody(a, tail)| + 1 == AckLen(a) + |tail|
  {
    hide PutVarint, EncodeVarintLen, PutBlocks, BlocksLen, Descending, Normal, ReadAck;
    AckRoundTrip(a, tail);
    var rs := Descending(a.ranges);
    FallingLength(rs[1..], rs[0].start);
    BlocksLenExact(rs[1..], rs[0].start, PutCounts(a.ecn, tail));
  }

  /** `wire_len` is the number of bytes a frame takes. */
  lemma WireLenExact(f: Frame, tail: Bytes)
    requires Encodable(f)
    ensures |PutFrame(f, tail)| == WireLen(f) + |tail|
  {
    hide PutVarint, PutAckBody, AckLen, VarintField;
    if f.Ack? {
      AckLenExact(f.ack, tail);
    }
  }

  // ----- Appending

  lemma VarintAppends()
    ensures forall n: nat, a: Bytes, b: Bytes {:trigger PutVarint(n, a) + b} ::
              n <= VINT_MAX ==> PutVarint(n, a) + b == PutVarint(n, a + b)
  {
  }

  lemma StringsAppend()
    ensures forall d: Bytes, a: Bytes, b: Bytes {:trigger d + a + b} :: d + a + b == d + (a + b)
  {
  }

  lemma {:induction false} BlocksAppend(rs: seq<Range>, smallest: nat, a: Bytes, b: Bytes)
    requires Falling(rs, smallest) && smallest <= VINT_MAX
    ensures PutBlocks(rs, smallest, a) + b == PutBlocks(rs, smallest, a + b)
    decreases |rs|
  {
    hide PutVarint;
    VarintAppends();
    if rs != [] {
      BlocksAppend(rs[1..], rs[0].start, a, b);
    }
  }

  lemma AckAppend(ack: AckFields, a: Bytes, b: Bytes)
    requires EncodableAck(ack)
    ensures PutAckBody(ack, a) + b == PutAckBody(ack, a + b)
  {
    hide PutVarint, PutBlocks, Descending, Normal, ReadAck;
    AckRoundTrip(ack, a);
    VarintAppends();
    var rs := Descending(ack.ranges);
    FallingLength(rs[1..], rs[0].start);
    BlocksAppend(rs[1..], rs[0].start, PutCounts(ack.ecn, a), b);
  }

  lemma IntegersAppend(f: Frame, a: Bytes, b: Bytes)
    requires Encodable(f) && OnlyIntegers(f)
    ensures PutFrame(f, a) + b == PutFrame(f, a + b)
  {
    hide PutVarint, PutAckBody, VarintField;
    VarintAppends();
  }

  lemma StringsFrameAppend(f: Frame, a: Bytes, b: Bytes)
    requires Encodable(f) && !OnlyIntegers(f) && !f.Ack?
    ensures PutFrame(f, a) + b == PutFrame(f, a + b)
  {
    hide PutVarint, PutAckBody, VarintField;
    VarintAppends();
    StringsAppend();
  }

  /** The bytes of a frame do not depend on what follows them. */
  lemma PutFrameAppend(f: Frame, a: Bytes, b: Bytes)
    requires Encodable(f)
    ensures PutFrame(f, a) + b == PutFrame(f, a + b)
  {
    if f.Ack? {
      hide PutVarint, PutAckBody;
      VarintAppends();
      AckAppend(f.ack, a, b);
    } else if OnlyIntegers(f) {
      IntegersAppend(f, a, b);
    } else {
      StringsFrameAppend(f, a, b);
    }
  }

  /** The codec's round trip on plain byte strings: the frame comes back and its own bytes are consumed. */
  lemma EncodeDecode(f: Frame, pkt: PacketType, suffix: Bytes)
    requires Transmittable(f) && Allowed(pkt, f)
    requires f.Paddings? ==> suffix == [] || suffix[0] != 0
    ensures Decode(PutFrame(f, []) + suffix, pkt) == Got(f, suffix)
    ensures |PutFrame(f, [])| == WireLen(f)
  {
    hide Decode, PutFrame, WireLen;
    PutFrameAppend(f, [], suffix);
    assert [] + suffix == suffix;
    WireLenExact(f, []);
    FrameRoundTrip(f, pkt, suffix);
  }

  // ----- Frames too long for a two-byte length

  /** Decoding starts with the type that was put in front. */
  lemma DecodeBody(f: Frame, pkt: PacketType, suffix: Bytes)
    requires Encodable(f) && !f.Paddings? && Allowed(pkt, f)
    ensures Decode(PutFrame(f, suffix), pkt) == Got(f, suffix) <==>
            ReadFrame(TypeOf(f), PutBody(f, suffix)) == Got(f, suffix)
  {
    hide ReadVarint, PutVarint, ReadFrame, PutBody;
    VarintRoundTrip(TypeOf(f), PutBody(f, suffix));
  }

  lemma ShortLengthLost(length: nat, data: Bytes, suffix: Bytes)
    requires length == |data| > 16383
    ensures
      var r := ReadVarint(PutShortLength(length, data + suffix));
      r.Got? && r.value == length ==> ReadBytes(r.rest, length) != Got(data, suffix)
  {
    hide ReadVarint, VarintField;
    ShortFieldLosesLargeValues(length, data + suffix);
  }

  /**
   A CRYPTO frame survives the round trip if and only if its data fits the two-byte length.
   Longer data is not rejected by the encoder: it is sent with a corrupted length.
   */
  lemma CryptoRoundTripIff(f: Frame, pkt: PacketType, suffix: Bytes)
    requires f.Crypto? && Encodable(f) && f.length == |f.data| && Allowed(pkt, f)
    ensures Decode(PutFrame(f, suffix), pkt) == Got(f, suffix) <==> |f.data| <= 16383
  {
    hide ReadVarint, PutVarint, PutShortLength, Decode, PutFrame, ReadBytes;
    DecodeBody(f, pkt, suffix);
    if |f.data| <= 16383 {
      BodyRoundTrip(f, suffix);
    } else {
      VarintRoundTrip(f.offset, PutShortLength(f.length, f.data + suffix));
      ShortLengthLost(f.length, f.data, suffix);
      assert ReadFrame(0x06, PutBody(f, suffix)) == ReadCrypto(PutBody(f, suffix));
    }
  }

  /** The same for STREAM frames, whose end must also stay below the largest stream size. */
  lemma StreamRoundTripIff(f: Frame, pkt: PacketType, suffix: Bytes)
    requires f.Stream? && Encodable(f) && f.length == |f.data| && Allowed(pkt, f)
    ensures Decode(PutFrame(f, suffix), pkt) == Got(f, suffix) <==>
            |f.data| <= 16383 && f.offset + |f.data| < MAX_STREAM_SIZE
  {
    hide ReadVarint, PutVarint, PutShortLength, Decode, PutFrame, ReadBytes;
    DecodeBody(f, pkt, suffix);
    if |f.data| <= 16383 && f.offset + |f.data| < MAX_STREAM_SIZE {
      BodyRoundTrip(f, suffix);
    } else {
      var field := PutShortLength(f.length, f.data + suffix);
      VarintRoundTrip(f.streamId, PutVarint(f.offset, field));
      VarintRoundTrip(f.offset, field);
      if |f.data| > 16383 {
        ShortLengthLost(f.length, f.data, suffix);
      }
      assert ReadFrame(TypeOf(f), PutBody(f, suffix)) == ReadStream(TypeOf(f), PutBody(f, suffix));
    }
  }

  // ----- What the decoder accepts

  /** What the decoder promises about a frame: all but the limit on CRYPTO and STREAM data. */
  ghost predicate Acceptable(f: Frame) {
    && Encodable(f)
    && (f.Paddings? ==> f.len > 0)
    && (f.Ping? ==> f.pmtuProbe == None)
    && (f.Crypto? || f.Stream? ==> f.length == |f.data|)
    && (f.Stream? ==> f.offset + f.length < MAX_STREAM_SIZE)
  }

  lemma CryptoAcceptable(b: Bytes)
    requires |b| <= VINT_MAX && ReadCrypto(b).Got?
    ensures Acceptable(ReadCrypto(b).value)
  {
    hide ReadVarint;
  }

  lemma StreamAcceptable(t: nat, b: Bytes)
    requires |b| <= VINT_MAX && 0x08 <= t <= 0x0f && ReadStream(t, b).Got?
    ensures Acceptable(ReadStream(t, b).value)
  {
    hide ReadVarint;
  }

  lemma NewConnectionIdAcceptable(b: Bytes)
    requires |b| <= VINT_MAX && ReadNewConnectionId(b).Got?
    ensures Acceptable(ReadNewConnectionId(b).value)
  {
    hide ReadVarint;
  }

  lemma StringAcceptable(t: nat, b: Bytes)
    requires |b| <= VINT_MAX && t in {0x07, 0x1a, 0x1b, 0x30, 0x31} && ReadString(t, b).Got?
    ensures Acceptable(ReadString(t, b).value)
  {
    hide ReadVarint;
  }

  lemma CloseAcceptable(t: nat, b: Bytes)
    requires |b| <= VINT_MAX && t in {0x1c, 0x1d, 0x15228c05} && ReadClose(t, b).Got?
    ensures Acceptable(ReadClose(t, b).value)
  {
    hide ReadVarint;
  }

  lemma TripleAcceptable(t: nat, b: Bytes)
    requires |b| <= VINT_MAX && t in {0x04, 0x15228c06} && ReadTriple(t, b).Got?
    ensures Acceptable(ReadTriple(t, b).value)
  {
    hide ReadVarint;
  }

  lemma PairAcceptable(t: nat, b: Bytes)
    requires |b| <= VINT_MAX && t in {0x05, 0x11, 0x15} && ReadPair(t, b).Got?
    ensures Acceptable(ReadPair(t, b).value)
  {
    hide ReadVarint;
  }

  lemma LimitAcceptable(t: nat, b: Bytes)
    requires |b| <= VINT_MAX && t in {0x10, 0x12, 0x13, 0x14, 0x16, 0x17, 0x19} && ReadLimit(t, b).Got?
    ensures Acceptable(ReadLimit(t, b).value)
  {
    hide ReadVarint;
  }

  lemma FieldsAcceptable(t: nat, b: Bytes)
    requires |b| <= VINT_MAX && ReadFields(t, b).Got?
    ensures Acceptable(ReadFields(t, b).value)
  {
    hide ReadCrypto, ReadStream, ReadNewConnectionId, ReadString, ReadClose, ReadTriple, ReadPair, ReadLimit;
    if t in {0x10, 0x12, 0x13, 0x14, 0x16, 0x17, 0x19} {
      LimitAcceptable(t, b);
    } else if t in {0x05, 0x11, 0x15} {
      PairAcceptable(t, b);
    } else if t in {0x04, 0x15228c06} {
      TripleAcceptable(t, b);
    } else if t in {0x1c, 0x1d, 0x15228c05} {
      CloseAcceptable(t, b);
    } else if t in {0x07, 0x1a, 0x1b, 0x30, 0x31} {
      StringAcceptable(t, b);
    } else if t == 0x06 {
      CryptoAcceptable(b);
    } else if 0x08 <= t <= 0x0f {
      StreamAcceptable(t, b);
    } else if t == 0x18 {
      NewConnectionIdAcceptable(b);
    }
  }

  /** Every frame the decoder returns could have been encoded. */
  lemma DecodedIsAcceptable(buf: Bytes, pkt: PacketType)
    requires |buf| <= VINT_MAX
    ensures Decode(buf, pkt).Got? ==> Acceptable(Decode(buf, pkt).value) && Allowed(pkt, Decode(buf, pkt).value)
  {
    hide ReadVarint, ReadFields, ReadAck, Acceptable;
    if Decode(buf, pkt).Got? {
      var t := ReadVarint(buf);
      if t.value == 0 {
        PaddingAcceptable(t.rest);
      } else if 0x02 <= t.value <= 0x03 {
        AcceptedAckIsNormal(t.value == 0x03, t.rest);
        AckAcceptable(ReadAck(t.value == 0x03, t.rest).value);
      } else {
        FieldsAcceptable(t.value, t.rest);
      }
    }
  }

  lemma PaddingAcceptable(b: Bytes)
    ensures Acceptable(Paddings(1 + LeadingZeros(b)))
  {
  }

  lemma AckAcceptable(a: AckFields)
    requires EncodableAck(a)
    ensures Acceptable(Ack(a))
  {
  }

  /**
   Re-encoding a decoded frame and decoding it again gives the same frame, unless it carries
   more CRYPTO or STREAM data than the encoder's two-byte length can express.
   */
  lemma DecodeEncodeDecode(buf: Bytes, pkt: PacketType, suffix: Bytes)
    requires |buf| <= VINT_MAX
    ensures
      Decode(buf, pkt).Got? ==>
        var f := Decode(buf, pkt).value;
        && Encodable(f)
        && ((f.Paddings? ==> suffix == [] || suffix[0] != 0) && (f.Crypto? || f.Stream? ==> |f.data| <= 16383) ==>
              Decode(PutFrame(f, suffix), pkt) == Got(f, suffix))
  {
    hide Decode, PutFrame;
    DecodedIsAcceptable(buf, pkt);
    if Decode(buf, pkt).Got? {
      var f := Decode(buf, pkt).value;
      if (f.Paddings? ==> suffix == [] || suffix[0] != 0) && (f.Crypto? || f.Stream? ==> |f.data| <= 16383) {
        FrameRoundTrip(f, pkt, suffix);
      }
    }
  }
}
