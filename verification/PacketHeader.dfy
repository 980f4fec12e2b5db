/**
 Packet headers, src/packet.rs: section 17 of RFC 9000. The receiver parses a header before it
 removes the protection, so parsing must not depend on the bits that are masked.
 */
module PacketHeaders {
  import opened Arithmetic
  import opened Codec
  import opened HeaderProtection
  import opened Options
  import opened PacketNumbers
  import F = Frames
  import W = FrameCodec

  const QUIC_VERSION_V1: nat := 1
  const TAG_LEN: nat := 16

  datatype Header = Header(
    pktType: F.PacketType,
    version: nat,
    dcid: Bytes,
    scid: Bytes,
    pktNumLen: nat,
    pktNum: nat,
    token: Option<Bytes>,
    keyPhase: bool)

  /** The ranges of the fields; a Retry packet always has a token. */
  predicate WellTyped(h: Header) {
    && h.version < 0x1_0000_0000
    && |h.dcid| <= MAX_CID_LEN && |h.scid| <= MAX_CID_LEN
    && h.pktNumLen <= MAX_PKT_NUM_LEN
    && (h.token.Some? ==> |h.token.value| <= VINT_MAX)
    && (h.pktType == F.Retry ==> h.token.Some?)
  }

  // ----- Encoding

  function TypeBits(t: F.PacketType): nat {
    match t
    case ZeroRTT => 1
    case Handshake => 2
    case Retry => 3
    case _ => 0
  }

  function FirstByte(h: Header): Byte
    requires WellTyped(h)
  {
    var len := if h.pktNumLen == 0 then 0 else h.pktNumLen - 1;
    if h.pktType == F.OneRTT then 0x40 + (if h.keyPhase then 0x04 else 0) + len
    else 0xc0 + 0x10 * TypeBits(h.pktType) + len
  }

  function PutToken(h: Header, tail: Bytes): Bytes
    requires WellTyped(h)
  {
    match h.pktType
    case Initial =>
      (match h.token
       case Some(token) => PutVarint(|token|, token + tail)
       case None => PutVarint(0, tail))
    case Retry => h.token.value + tail
    case _ => tail
  }

  /** What follows the first byte. */
  function PutFields(h: Header, tail: Bytes): Bytes
    requires WellTyped(h)
  {
    if h.pktType == F.OneRTT then h.dcid + tail
    else
      BigEndian(h.version, 4) +
      ([|h.dcid|] + (h.dcid + ([|h.scid|] + (h.scid + PutToken(h, tail)))))
  }

  function PutHeader(h: Header, tail: Bytes): Bytes
    requires WellTyped(h)
  {
    [FirstByte(h)] + PutFields(h, tail)
  }

  // ----- Decoding

  function ReadU32(b: Bytes): Read<nat> {
    if |b| < 4 then Failed(BufferTooShort) else Got(FromBigEndian(b[..4]), b[4..])
  }

  function ReadCid(version: nat, b: Bytes): Read<Bytes> {
    var (len, b) :- ReadU8(b);
    if version == QUIC_VERSION_V1 && len > MAX_CID_LEN then Failed(InvalidPacket)
    else ReadBytes(b, len)
  }

  function ReadToken(t: F.PacketType, b: Bytes): Read<Option<Bytes>> {
    match t
    case Initial =>
      var (len, b) :- ReadVarint(b);
      if len == 0 then Got(None, b)
      else
        var (token, b) :- ReadBytes(b, len);
        Got(Some(token), b)
    case Retry =>
      if |b| < TAG_LEN then Failed(InvalidPacket)
      else
        var (token, b) :- ReadBytes(b, |b| - TAG_LEN);
        Got(Some(token), b)
    case _ => Got(None, b)
  }

  function LongType(version: nat, bits: nat): F.PacketType {
    if version == 0 then F.VersionNegotiation
    else if bits == 0 then F.Initial
    else if bits == 1 then F.ZeroRTT
    else if bits == 2 then F.Handshake
    else F.Retry
  }

  function ReadLong(bits: nat, b: Bytes): Read<Header> {
    var (version, b) :- ReadU32(b);
    var t := LongType(version, bits);
    var (dcid, b) :- ReadCid(version, b);
    var (scid, b) :- ReadCid(version, b);
    var (token, b) :- ReadToken(t, b);
    Got(Header(t, version, ConnectionIdOf(dcid), ConnectionIdOf(scid), 0, 0, token, false), b)
  }

  /** The header without what the protection hides; `dcidLen` is the length this endpoint gave its own ids. */
  function ReadHeader(b: Bytes, dcidLen: nat): Read<Header> {
    var (first, b) :- ReadU8(b);
    if LongHeader(first) then ReadLong(first / 0x10 % 4, b)
    else
      var (dcid, b) :- ReadBytes(b, dcidLen);
      Got(Header(F.OneRTT, 0, ConnectionIdOf(dcid), [], 0, 0, None, false), b)
  }

  // ----- Round trips

  /** What a header says apart from its protected part. */
  function Bare(h: Header): Header {
    h.(pktNumLen := 0, pktNum := 0, keyPhase := false)
  }

  /** The headers that their encoding carries in full. */
  predicate Carried(h: Header, tail: Bytes) {
    match h.pktType
    case VersionNegotiation => false
    case OneRTT => h.version == 0 && h.scid == [] && h.token == None
    case Initial => h.version != 0 && h.token != Some([])
    case Retry => h.version != 0 && |tail| == TAG_LEN
    case _ => h.version != 0 && h.token == None
  }

  /** The bits of the first byte that tell how to parse the rest. */
  predicate Announces(first: Byte, t: F.PacketType) {
    if t == F.OneRTT then !LongHeader(first) else LongHeader(first) && first / 0x10 % 4 == TypeBits(t)
  }

  lemma FirstByteAnnounces(h: Header)
    requires WellTyped(h)
    ensures Announces(FirstByte(h), h.pktType)
    ensures h.pktNumLen >= 1 ==> FirstByte(h) % 4 + 1 == h.pktNumLen
    ensures h.pktType == F.OneRTT ==> (FirstByte(h) / 4 % 2 == 1 <==> h.keyPhase)
  {
  }

  /**
   The first byte in full: the fixed bit is set, the reserved bits are not, and the other bits
   tell the type of a long header, the key phase of a short one and the packet number length.
   */
  lemma FirstByteIs(h: Header)
    requires WellTyped(h)
    ensures
      var form :=
        match h.pktType
        case OneRTT => if h.keyPhase then 0x44 else 0x40
        case ZeroRTT => 0xd0
        case Handshake => 0xe0
        case Retry => 0xf0
        case _ => 0xc0;
      FirstByte(h) == if h.pktNumLen <= 1 then form else form + h.pktNumLen - 1
  {
  }

  /** No mask touches the fixed bit, nor the type of a long header. */
  lemma FixedBitSurvives(h: Header, m: Byte)
    requires WellTyped(h)
    ensures
      var first := MaskFirst(FirstByte(h), m);
      && first / 0x40 % 2 == 1
      && (h.pktType == F.OneRTT <==> first < 0x80)
      && (h.pktType != F.OneRTT ==> first / 0x10 == FirstByte(h) / 0x10)
  {
    hide MaskFirst;
    var first := FirstByte(h);
    MaskHides(first, MaskFirst(first, m));
  }

  lemma U32RoundTrip(n: nat, tail: Bytes)
    requires n < 0x1_0000_0000
    ensures ReadU32(BigEndian(n, 4) + tail) == Got(n, tail)
  {
    Powers();
    BigEndianRoundTrip(n, 4);
    assert (BigEndian(n, 4) + tail)[..4] == BigEndian(n, 4);
  }

  /** A connection id is refused if and only if it has more than 20 bytes in version 1. */
  lemma CidRoundTrip(version: nat, cid: Bytes, tail: Bytes)
    requires |cid| < 256
    ensures
      ReadCid(version, [|cid|] + (cid + tail)) ==
      if version == 1 && |cid| > 20 then Failed(InvalidPacket) else Got(cid, tail)
  {
    assert ([|cid|] + (cid + tail))[1..] == cid + tail;
    BytesRoundTrip(cid, tail);
  }

  lemma TokenRoundTripIff(h: Header, tail: Bytes)
    requires WellTyped(h) && h.pktType != F.OneRTT && h.pktType != F.VersionNegotiation && h.version != 0
    ensures ReadToken(h.pktType, PutToken(h, tail)) == Got(h.token, tail) <==> Carried(h, tail)
  {
    hide ReadVarint, PutVarint;
    match h.pktType
    case Initial =>
      var token := if h.token.Some? then h.token.value else [];
      assert token == [] ==> token + tail == tail;
      VarintRoundTrip(|token|, token + tail);
      BytesRoundTrip(token, tail);
    case Retry =>
      var b := h.token.value + tail;
      if |tail| == TAG_LEN {
        BytesRoundTrip(h.token.value, tail);
      } else if |b| >= TAG_LEN {
        assert |ReadBytes(b, |b| - TAG_LEN).value| != |h.token.value|;
      }
    case _ =>
  }

  /**
   Whatever the masked bits of the first byte are, parsing gives the header back, and leaves
   what follows it, if and only if the encoding carries the header.
   */
  lemma FieldsRoundTripIff(h: Header, first: Byte, dcidLen: nat, tail: Bytes)
    requires WellTyped(h) && h.pktType != F.VersionNegotiation && Announces(first, h.pktType)
    requires h.pktType == F.OneRTT ==> dcidLen == |h.dcid|
    ensures ReadHeader([first] + PutFields(h, tail), dcidLen) == Got(Bare(h), tail) <==> Carried(h, tail)
  {
    hide ReadCid, ReadToken, ReadU32, PutToken, BigEndian, ReadBytes;
    var b := [first] + PutFields(h, tail);
    assert b[1..] == PutFields(h, tail);
    if h.pktType == F.OneRTT {
      BytesRoundTrip(h.dcid, tail);
    } else {
      var b3 := PutToken(h, tail);
      var b2 := [|h.scid|] + (h.scid + b3);
      U32RoundTrip(h.version, [|h.dcid|] + (h.dcid + b2));
      CidRoundTrip(h.version, h.dcid, b2);
      CidRoundTrip(h.version, h.scid, b3);
      if h.version != 0 {
        TokenRoundTripIff(h, tail);
      }
    }
  }

  /** Any long header as it stands on the wire, up to its token. */
  function LongFields(version: nat, dcid: Bytes, scid: Bytes, tail: Bytes): Bytes
    requires |dcid| < 256 && |scid| < 256
  {
    BigEndian(version, 4) + ([|dcid|] + (dcid + ([|scid|] + (scid + tail))))
  }

  /**
   What a receiver makes of any long header: version 1 with a long connection id is refused and
   other versions have it cut to 20 bytes; version 0 is a version negotiation whatever the type
   bits say; the token of a Retry is all but the last 16 bytes, which must be there.
   */
  lemma ReadLongMeans(first: Byte, version: nat, dcid: Bytes, scid: Bytes, tail: Bytes, dcidLen: nat)
    requires first >= 0x80 && version < 0x1_0000_0000 && |dcid| < 256 && |scid| < 256
    ensures
      var r := ReadHeader([first] + LongFields(version, dcid, scid, tail), dcidLen);
      var bits := first / 0x10 % 4;
      var d, s := if |dcid| > 20 then dcid[..20] else dcid, if |scid| > 20 then scid[..20] else scid;
      if version == 1 && (|dcid| > 20 || |scid| > 20) then r == Failed(InvalidPacket)
      else if version == 0 then r == Got(Header(F.VersionNegotiation, 0, d, s, 0, 0, None, false), tail)
      else if bits == 1 then r == Got(Header(F.ZeroRTT, version, d, s, 0, 0, None, false), tail)
      else if bits == 2 then r == Got(Header(F.Handshake, version, d, s, 0, 0, None, false), tail)
      else if bits == 3 && |tail| < 16 then r == Failed(InvalidPacket)
      else if bits == 3 then
        var end := |tail| - 16;
        r == Got(Header(F.Retry, version, d, s, 0, 0, Some(tail[..end]), false), tail[end..])
      else r.Got? ==> r.value == Header(F.Initial, version, d, s, 0, 0, r.value.token, false)
  {
    hide ReadCid, ReadU32, BigEndian, ReadVarint;
    var b2 := [|scid|] + (scid + tail);
    var b := [first] + LongFields(version, dcid, scid, tail);
    assert b[1..] == LongFields(version, dcid, scid, tail);
    U32RoundTrip(version, [|dcid|] + (dcid + b2));
    CidRoundTrip(version, dcid, b2);
    CidRoundTrip(version, scid, tail);
  }

  /** A short header starts with the connection id, whose length only the receiver knows. */
  lemma ReadShortMeans(first: Byte, b: Bytes, dcidLen: nat)
    requires first < 0x80
    ensures
      var r := ReadHeader([first] + b, dcidLen);
      if |b| < dcidLen then r == Failed(BufferTooShort)
      else
        var d := if dcidLen > 20 then b[..20] else b[..dcidLen];
        r == Got(Header(F.OneRTT, 0, d, [], 0, 0, None, false), b[dcidLen..])
  {
    assert ([first] + b)[1..] == b;
    assert 20 < dcidLen <= |b| ==> b[..dcidLen][..20] == b[..20];
  }

  /** The round trip of an unprotected header. */
  lemma HeaderRoundTripIff(h: Header, dcidLen: nat, tail: Bytes)
    requires WellTyped(h) && h.pktType != F.VersionNegotiation
    requires h.pktType == F.OneRTT ==> dcidLen == |h.dcid|
    ensures ReadHeader(PutHeader(h, tail), dcidLen) == Got(Bare(h), tail) <==> Carried(h, tail)
  {
    hide PutFields, ReadHeader;
    FirstByteAnnounces(h);
    FieldsRoundTripIff(h, FirstByte(h), dcidLen, tail);
  }

  // ----- Parsing under protection

  lemma MaskKeepsAnnouncement(first: Byte, m: Byte, t: F.PacketType)
    requires Announces(first, t)
    ensures Announces(MaskFirst(first, m), t)
  {
    hide Xor;
    assert Power2(4) == 0x10 && Power2(5) == 0x20;
    XorKeepsHighBits(first, m % 0x10, 4);
    XorKeepsHighBits(first, m % 0x20, 5);
  }

  lemma FieldsAppend(h: Header, tail: Bytes)
    requires WellTyped(h)
    ensures PutFields(h, tail) == PutFields(h, []) + tail
  {
    hide BigEndian, VarintField;
    TokenAppend(h, tail);
    if h.pktType != F.OneRTT {
      hide PutToken;
      assert PutFields(h, tail) == PutFields(h, []) + tail;
    }
  }

  lemma TokenAppend(h: Header, tail: Bytes)
    requires WellTyped(h)
    ensures PutToken(h, tail) == PutToken(h, []) + tail
  {
    hide VarintField;
  }

  function HeaderLen(h: Header): nat
    requires WellTyped(h)
  {
    1 + |PutFields(h, [])|
  }

  /** Protection changes the first byte and what follows the header, and keeps the shape of the packet. */
  lemma ProtectedShape(h: Header, tail: Bytes, offset: nat, len: nat, newMask: Bytes -> Mask)
    requires WellTyped(h) && 1 <= len <= MAX_PKT_NUM_LEN && HeaderLen(h) <= offset
    requires offset + MAX_PKT_NUM_LEN + SAMPLE_LEN <= |PutHeader(h, tail)|
    ensures
      var sent := Protect(PutHeader(h, tail), offset, len, newMask);
      && |sent| == |PutHeader(h, tail)| == HeaderLen(h) + |tail|
      && sent == [sent[0]] + PutFields(h, sent[HeaderLen(h)..])
      && Announces(sent[0], h.pktType)
  {
    hide PutFields, MaskFirst, MaskByte, Announces, FirstByte;
    var buf := PutHeader(h, tail);
    var sent := Protect(buf, offset, len, newMask);
    FieldsAppend(h, tail);
    FieldsAppend(h, sent[HeaderLen(h)..]);
    FirstByteAnnounces(h);
    MaskKeepsAnnouncement(FirstByte(h), newMask(Sample(buf, offset))[0], h.pktType);
    assert forall i :: 1 <= i < HeaderLen(h) ==> sent[i] == buf[i] == PutFields(h, [])[i - 1];
    assert sent[1..HeaderLen(h)] == PutFields(h, []);
    assert sent == [sent[0]] + (sent[1..HeaderLen(h)] + sent[HeaderLen(h)..]);
  }

  lemma NumberLength(n: nat, len: nat)
    ensures |EncodePacketNum(n, len)| == len
  {
  }

  /** The sender's choice of packet number length serves the receiver. */
  predicate NumberFits(h: Header, largestAcked: Option<nat>, largest: nat) {
    && h.pktNum < PKT_NUM_LIMIT && largest < PKT_NUM_LIMIT
    && (largestAcked.Some? ==> largestAcked.value < h.pktNum && largestAcked.value <= largest)
    && NumUnacked(h.pktNum, largestAcked) < 0x8000_0000
    && h.pktNumLen == PacketNumLen(h.pktNum, largestAcked)
    && largest + 1 < h.pktNum + Power256(h.pktNumLen) / 2
  }

  /**
   From header to header: the sender encodes the header, appends the length field if any, the
   truncated packet number and the sealed payload, and masks; the receiver parses, unmasks and
   completes the packet number. For every cipher it ends up with exactly the sender's header.
   */
  lemma HeaderDelivered(
    h: Header, middle: Bytes, payload: Bytes, buf: Bytes, offset: nat, dcidLen: nat, newMask: Bytes -> Mask,
    largestAcked: Option<nat>, largest: nat)
    requires WellTyped(h) && h.pktType != F.Retry && Carried(h, []) && 1 <= h.pktNumLen
    requires h.pktType == F.OneRTT ==> dcidLen == |h.dcid|
    requires NumberFits(h, largestAcked, largest)
    requires buf == PutHeader(h, middle + (EncodePacketNum(h.pktNum, h.pktNumLen) + payload))
    requires offset == HeaderLen(h) + |middle| && offset + MAX_PKT_NUM_LEN + SAMPLE_LEN <= |buf|
    ensures
      var sent := Protect(buf, offset, h.pktNumLen, newMask);
      |sent| == |buf| && ReadHeader(sent, dcidLen) == Got(Bare(h), sent[HeaderLen(h)..])
    ensures
      var plain := Unprotect(Protect(buf, offset, h.pktNumLen, newMask), offset, newMask);
      && plain.buf == buf
      && plain.len == h.pktNumLen
      && DecodePacketNum(largest, plain.pktNum, h.pktNumLen) == h.pktNum
      && (h.pktType == F.OneRTT ==> plain.keyPhase == h.keyPhase)
  {
    hide PutFields, Protect, Unprotect, ReadHeader, EncodePacketNum, PacketNumLen, NumUnacked, DecodePacketNum, FirstByte,
      Announces, Power256;
    var number := EncodePacketNum(h.pktNum, h.pktNumLen);
    NumberLength(h.pktNum, h.pktNumLen);
    var tail := middle + (number + payload);
    FieldsAppend(h, tail);
    var sent := Protect(buf, offset, h.pktNumLen, newMask);
    ProtectedShape(h, tail, offset, h.pktNumLen, newMask);
    FieldsRoundTripIff(h, sent[0], dcidLen, sent[HeaderLen(h)..]);
    FirstByteAnnounces(h);
    assert buf[offset..offset + h.pktNumLen] == number;
    ProtectionRoundTrip(buf, offset, h.pktNumLen, newMask);
    PacketNumberRoundTrip(h.pktNum, largestAcked, largest);
  }

  // ----- In place

  /** Encode into the buffer; a version negotiation packet has no such header. */
  method ToBytes(h: Header, buf: array<Byte>) returns (len: Option<nat>)
    requires WellTyped(h)
    modifies buf
    ensures len == None <==> h.pktType == F.VersionNegotiation || HeaderLen(h) > buf.Length
    ensures len.Some? ==> len.value == HeaderLen(h) && buf[..len.value] == PutHeader(h, [])
    ensures len.Some? ==> buf[len.value..] == old(buf[..])[len.value..]
  {
    hide BigEndian, PutVarint, FirstByte;
    if h.pktType == F.VersionNegotiation {
      return None;
    }
    var w := new W.Writer(buf);
    var ok := w.Write([FirstByte(h)]);
    if !ok {
      return None;
    }
    ok := w.Write(PutFields(h, []));
    if !ok {
      return None;
    }
    len := Some(w.pos);
  }
}
