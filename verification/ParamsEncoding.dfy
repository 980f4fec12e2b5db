/** Encoding transport parameters, and what the opposite role decodes from it: src/trans_param.rs. */
module ParamsEncoding {
  import opened Codec
  import opened Options
  import opened TransportParams

  /** The parameters in the order in which the encoder writes them. */
  const ORDER: seq<nat> := [
    ORIGINAL_DCID, MAX_IDLE_TIMEOUT, STATELESS_RESET_TOKEN, MAX_UDP_PAYLOAD_SIZE, MAX_DATA,
    MAX_STREAM_DATA_BIDI_LOCAL, MAX_STREAM_DATA_BIDI_REMOTE, MAX_STREAM_DATA_UNI, MAX_STREAMS_BIDI,
    MAX_STREAMS_UNI, ACK_DELAY_EXPONENT, MAX_ACK_DELAY, DISABLE_ACTIVE_MIGRATION, PREFERRED_ADDRESS,
    ACTIVE_CONN_ID_LIMIT, INITIAL_SCID, RETRY_SCID, ENABLE_MULTIPATH, DISABLE_ENCRYPTION,
    MAX_DATAGRAM_FRAME_SIZE]

  predicate Known(id: nat) {
    || IsInteger(id)
    || ServerOnly(id)
    || id == DISABLE_ACTIVE_MIGRATION
    || id == INITIAL_SCID
    || id == ENABLE_MULTIPATH
    || id == DISABLE_ENCRYPTION
  }

  /** The ranges of the fields: varint values, ids of at most 20 bytes, a token of 128 bits. */
  predicate WellTyped(p: Params) {
    && p.maxIdleTimeout <= VINT_MAX
    && p.maxUdpPayloadSize <= VINT_MAX
    && p.maxData <= VINT_MAX
    && p.maxStreamDataBidiLocal <= VINT_MAX
    && p.maxStreamDataBidiRemote <= VINT_MAX
    && p.maxStreamDataUni <= VINT_MAX
    && p.maxStreamsBidi <= VINT_MAX
    && p.maxStreamsUni <= VINT_MAX
    && p.ackDelayExponent <= VINT_MAX
    && p.maxAckDelay <= VINT_MAX
    && p.activeConnIdLimit <= VINT_MAX
    && (p.maxDatagramFrameSize.Some? ==> p.maxDatagramFrameSize.value <= VINT_MAX)
    && (p.statelessResetToken.Some? ==> p.statelessResetToken.value < TOKEN_LIMIT)
    && (p.originalDcid.Some? ==> |p.originalDcid.value| <= MAX_CID_LEN)
    && (p.initialScid.Some? ==> |p.initialScid.value| <= MAX_CID_LEN)
    && (p.retryScid.Some? ==> |p.retryScid.value| <= MAX_CID_LEN)
    && (p.preferredAddress.Some? ==> WellTypedAddress(p.preferredAddress.value))
  }

  // ----- Encoding

  function NonZero(n: nat): Option<nat> {
    if n != 0 then Some(n) else None
  }

  /** The integer written for a parameter, if it is written. */
  function IntegerWritten(p: Params, id: nat): (n: Option<nat>)
    requires WellTyped(p)
    ensures n.Some? ==> n.value <= VINT_MAX
  {
    if id == MAX_IDLE_TIMEOUT then NonZero(p.maxIdleTimeout)
    else if id == MAX_UDP_PAYLOAD_SIZE then NonZero(p.maxUdpPayloadSize)
    else if id == MAX_DATA then NonZero(p.maxData)
    else if id == MAX_STREAM_DATA_BIDI_LOCAL then NonZero(p.maxStreamDataBidiLocal)
    else if id == MAX_STREAM_DATA_BIDI_REMOTE then NonZero(p.maxStreamDataBidiRemote)
    else if id == MAX_STREAM_DATA_UNI then NonZero(p.maxStreamDataUni)
    else if id == MAX_STREAMS_BIDI then NonZero(p.maxStreamsBidi)
    else if id == MAX_STREAMS_UNI then NonZero(p.maxStreamsUni)
    else if id == ACK_DELAY_EXPONENT then NonZero(p.ackDelayExponent)
    else if id == MAX_ACK_DELAY then NonZero(p.maxAckDelay)
    else if id == ACTIVE_CONN_ID_LIMIT then (if p.activeConnIdLimit >= 2 then Some(p.activeConnIdLimit) else None)
    else if id == MAX_DATAGRAM_FRAME_SIZE then p.maxDatagramFrameSize
    else None
  }

  /** The bytes written for a parameter, if it is written. */
  function ValueWritten(p: Params, isServer: bool, id: nat): (v: Option<Bytes>)
    requires WellTyped(p)
    ensures v.Some? ==> |v.value| < 64
  {
    if IsInteger(id) then
      match IntegerWritten(p, id)
      case Some(n) => Some(PutVarint(n, []))
      case None => None
    else if id == ORIGINAL_DCID then (if isServer then p.originalDcid else None)
    else if id == STATELESS_RESET_TOKEN then
      if isServer && p.statelessResetToken.Some? then Some(BigEndian(p.statelessResetToken.value, 16)) else None
    else if id == DISABLE_ACTIVE_MIGRATION then (if p.disableActiveMigration then Some([]) else None)
    else if id == PREFERRED_ADDRESS then
      if p.preferredAddress.Some? then Some(PutAddress(p.preferredAddress.value, [])) else None
    else if id == INITIAL_SCID then p.initialScid
    else if id == RETRY_SCID then (if isServer then p.retryScid else None)
    else if id == ENABLE_MULTIPATH then (if p.enableMultipath then Some([]) else None)
    else if id == DISABLE_ENCRYPTION then (if p.disableEncryption then Some([]) else None)
    else None
  }

  function PutEntry(e: Entry, tail: Bytes): Bytes
    requires e.id <= VINT_MAX && |e.value| <= VINT_MAX
  {
    PutVarint(e.id, PutWithVarintLength(e.value, tail))
  }

  /** The parameters with the given ids that are written, in that order. */
  function Entries(p: Params, isServer: bool, ids: seq<nat>): seq<Entry>
    requires WellTyped(p)
  {
    if ids == [] then []
    else
      var rest := Entries(p, isServer, ids[1..]);
      match ValueWritten(p, isServer, ids[0])
      case Some(v) => [Entry(ids[0], v)] + rest
      case None => rest
  }

  ghost predicate Writable(entries: seq<Entry>) {
    forall e :: e in entries ==> e.id <= VINT_MAX && |e.value| <= VINT_MAX
  }

  ghost function PutEntries(entries: seq<Entry>, tail: Bytes): Bytes
    requires Writable(entries)
  {
    if entries == [] then tail
    else
      assert entries[0] in entries;
      PutEntry(entries[0], PutEntries(entries[1..], tail))
  }

  lemma {:induction false} EntriesMean(p: Params, isServer: bool, ids: seq<nat>)
    requires WellTyped(p)
    ensures forall e :: e in Entries(p, isServer, ids) <==> e.id in ids && ValueWritten(p, isServer, e.id) == Some(e.value)
    decreases |ids|
  {
    hide ValueWritten;
    if ids != [] {
      EntriesMean(p, isServer, ids[1..]);
      assert ids == [ids[0]] + ids[1..];
    }
  }

  lemma {:induction false} EntriesDistinct(p: Params, isServer: bool, ids: seq<nat>)
    requires WellTyped(p)
    requires forall i, j :: 0 <= i < j < |ids| ==> ids[i] != ids[j]
    ensures NoRepeats(Entries(p, isServer, ids))
    decreases |ids|
  {
    hide ValueWritten, NoRepeats;
    if ids == [] {
      NothingRepeats();
    } else {
      EntriesDistinct(p, isServer, ids[1..]);
      EntriesMean(p, isServer, ids[1..]);
      if ValueWritten(p, isServer, ids[0]).Some? {
        RepeatsFirst(Entry(ids[0], ValueWritten(p, isServer, ids[0]).value), Entries(p, isServer, ids[1..]));
      }
    }
  }

  lemma NothingRepeats()
    ensures NoRepeats([])
  {
  }

  lemma OrderIsKnown(id: nat)
    ensures id in ORDER <==> Known(id)
  {
  }

  lemma OrderDistinct()
    ensures forall i, j :: 0 <= i < j < |ORDER| ==> ORDER[i] != ORDER[j]
    ensures forall id :: id in ORDER ==> id <= VINT_MAX
  {
  }

  lemma EntriesWritable(p: Params, isServer: bool)
    requires WellTyped(p)
    ensures Writable(Entries(p, isServer, ORDER)) && NoRepeats(Entries(p, isServer, ORDER))
  {
    hide ValueWritten, NoRepeats, WellTyped;
    OrderDistinct();
    EntriesMean(p, isServer, ORDER);
    EntriesDistinct(p, isServer, ORDER);
  }

  ghost function Encode(p: Params, isServer: bool): Bytes
    requires WellTyped(p)
  {
    EntriesWritable(p, isServer);
    PutEntries(Entries(p, isServer, ORDER), [])
  }

  // ----- Round trips

  lemma {:induction false} EntriesRoundTrip(entries: seq<Entry>)
    requires Writable(entries)
    ensures ReadEntries(PutEntries(entries, [])) == Some(entries)
    decreases |entries|
  {
    hide ReadVarint, PutVarint, ReadWithVarintLength, PutWithVarintLength;
    if entries != [] {
      var first, rest := entries[0], entries[1..];
      assert entries == [first] + rest;
      EntriesRoundTrip(rest);
      var tail := PutEntries(rest, []);
      VarintRoundTrip(first.id, PutWithVarintLength(first.value, tail));
      WithVarintLengthRoundTrip(first.value, tail);
      VarintNotEmpty(first.id, PutWithVarintLength(first.value, tail));
    }
  }

  lemma VarintNotEmpty(n: nat, tail: Bytes)
    requires n <= VINT_MAX
    ensures PutVarint(n, tail) != []
  {
  }

  // ----- One parameter on the wire

  lemma DecodeOne(id: nat, v: Bytes, isServer: bool)
    requires id <= VINT_MAX && |v| <= VINT_MAX
    ensures Decode(PutEntry(Entry(id, v), []), isServer) == Apply(DEFAULT, id, v, isServer)
  {
    hide ReadVarint, PutVarint, ReadWithVarintLength, PutWithVarintLength, Apply;
    VarintRoundTrip(id, PutWithVarintLength(v, []));
    WithVarintLengthRoundTrip(v, []);
    VarintNotEmpty(id, PutWithVarintLength(v, []));
    var r, b := Apply(DEFAULT, id, v, isServer), PutEntry(Entry(id, v), []);
    assert b != [] && ReadVarint(b) == Got(id, PutWithVarintLength(v, []));
    assert r.Ok? ==> DecodeFrom([], r.value, {} + {id}, isServer) == r;
  }

  /** The bounds of section 18.2 of RFC 9000 on the integers, by parameter id. */
  predicate InBounds(id: nat, n: nat) {
    if id == 0x03 then n >= 1200
    else if id == 0x08 || id == 0x09 then n <= 0x1000_0000_0000_0000
    else if id == 0x0a then n <= 20
    else if id == 0x0b then n < 16384
    else if id == 0x0e then n >= 2
    else true
  }

  /**
   A single integer parameter, for every id and every value: it is taken if and only if it is in
   bounds, and sets its own field over the defaults; zero switches datagrams off.
   */
  lemma IntegerParameter(id: nat, n: nat, isServer: bool)
    requires n <= VINT_MAX && id in {0x01, 0x03, 0x04, 0x05, 0x06, 0x07, 0x08, 0x09, 0x0a, 0x0b, 0x0e, 0x20}
    ensures
      var r := Decode(PutEntry(Entry(id, PutVarint(n, [])), []), isServer);
      if !InBounds(id, n) then r == Err(TransportParameterError)
      else
        && r.Ok?
        && r.value.maxIdleTimeout == (if id == 0x01 then n else 0)
        && r.value.maxUdpPayloadSize == (if id == 0x03 then n else 65527)
        && r.value.maxData == (if id == 0x04 then n else 0)
        && r.value.maxStreamDataBidiLocal == (if id == 0x05 then n else 0)
        && r.value.maxStreamDataBidiRemote == (if id == 0x06 then n else 0)
        && r.value.maxStreamDataUni == (if id == 0x07 then n else 0)
        && r.value.maxStreamsBidi == (if id == 0x08 then n else 0)
        && r.value.maxStreamsUni == (if id == 0x09 then n else 0)
        && r.value.ackDelayExponent == (if id == 0x0a then n else 3)
        && r.value.maxAckDelay == (if id == 0x0b then n else 25)
        && r.value.activeConnIdLimit == (if id == 0x0e then n else 2)
        && r.value.maxDatagramFrameSize == (if id == 0x20 && n > 0 then Some(n) else None)
  {
    hide ReadVarint, PutVarint, Decode;
    var v := PutVarint(n, []);
    VarintRoundTrip(n, []);
    DecodeOne(id, v, isServer);
  }

  /**
   Any other parameter: four are for clients to receive only, the reset token takes 16 bytes, the
   flags ignore their bytes and an unknown id is skipped.
   */
  lemma OtherParameter(id: nat, v: Bytes, isServer: bool)
    requires id <= VINT_MAX && |v| < 64
    requires id !in {0x01, 0x03, 0x04, 0x05, 0x06, 0x07, 0x08, 0x09, 0x0a, 0x0b, 0x0e, 0x20}
    ensures
      var r := Decode(PutEntry(Entry(id, v), []), isServer);
      if id in {0x00, 0x02, 0x0d, 0x10} && isServer then r == Err(TransportParameterError)
      else if id == 0x02 && |v| < 16 then r == Err(BufferTooShort)
      else if id == 0x0d && ReadAddress(v).Failed? then r == Err(ReadAddress(v).error)
      else
        && r.Ok?
        && r.value.originalDcid == (if id == 0x00 then Some(ConnectionIdOf(v)) else None)
        && r.value.statelessResetToken == (if id == 0x02 then Some(FromBigEndian(v[..16])) else None)
        && r.value.disableActiveMigration == (id == 0x0c)
        && r.value.preferredAddress == (if id == 0x0d then Some(ReadAddress(v).value) else None)
        && r.value.initialScid == (if id == 0x0f then Some(ConnectionIdOf(v)) else None)
        && r.value.retryScid == (if id == 0x10 then Some(ConnectionIdOf(v)) else None)
        && r.value.enableMultipath == (id == 0x0f73_9bbc_1b66_6d05)
        && r.value.disableEncryption == (id == 0xbaad)
  {
    hide ReadVarint, PutVarint, Decode, ReadAddress, ConnectionIdOf, FromBigEndian;
    DecodeOne(id, v, isServer);
  }

  /** Whatever the buffer, what is let through is in bounds, and a server learns nothing a client may not say. */
  lemma DecodedInBounds(b: Bytes, isServer: bool)
    requires Decode(b, isServer).Ok?
    ensures
      var p := Decode(b, isServer).value;
      && InBounds(0x03, p.maxUdpPayloadSize)
      && InBounds(0x08, p.maxStreamsBidi) && InBounds(0x09, p.maxStreamsUni)
      && InBounds(0x0a, p.ackDelayExponent) && InBounds(0x0b, p.maxAckDelay)
      && InBounds(0x0e, p.activeConnIdLimit)
      && (isServer ==> p.originalDcid == None && p.statelessResetToken == None
                       && p.preferredAddress == None && p.retryScid == None)
      && p.maxDatagramFrameSize != Some(0)
  {
    hide Decode, ReadEntries, ReadVarint, ReadAddress, ConnectionIdOf, ToMap, NoRepeats;
    DecodeIff(b, isServer);
    var entries := ReadEntries(b).value;
    ToMapMeans(entries, map[]);
    var m := ToMap(entries, map[]);
    forall id | id in m
      ensures ValidValue(Entry(id, m[id]), isServer)
    {
      var e :| e in entries && e.id == id;
      assert e == Entry(id, m[id]);
    }
  }

  /** The entries of an encoding as a map. */
  ghost function EncodedMap(p: Params, isServer: bool): map<nat, Bytes>
    requires WellTyped(p)
  {
    ToMap(Entries(p, isServer, ORDER), map[])
  }

  lemma EncodedMapMeans(p: Params, isServer: bool, id: nat)
    requires WellTyped(p) && Known(id)
    ensures
      match ValueWritten(p, isServer, id)
      case Some(v) => id in EncodedMap(p, isServer) && EncodedMap(p, isServer)[id] == v
      case None => id !in EncodedMap(p, isServer)
  {
    hide ValueWritten, NoRepeats, WellTyped, ToMap, Entries, Known;
    OrderIsKnown(id);
    EntriesWritable(p, isServer);
    EntriesMean(p, isServer, ORDER);
    var entries := Entries(p, isServer, ORDER);
    ToMapMeans(entries, map[]);
    if ValueWritten(p, isServer, id).Some? {
      assert Entry(id, ValueWritten(p, isServer, id).value) in entries;
    }
  }

  lemma WrittenIsMapped(p: Params, isServer: bool, id: nat)
    requires WellTyped(p) && Known(id)
    ensures id in EncodedMap(p, isServer) <==> ValueWritten(p, isServer, id).Some?
  {
    hide ValueWritten, EncodedMap, WellTyped, Known;
    EncodedMapMeans(p, isServer, id);
  }

  /** Which integers are on the wire: those that are not zero, the limit if it is at least two. */
  lemma IntegersWritten(p: Params, isServer: bool)
    requires WellTyped(p)
    ensures
      var m := EncodedMap(p, isServer);
      && (0x01 in m <==> p.maxIdleTimeout != 0)
      && (0x03 in m <==> p.maxUdpPayloadSize != 0)
      && (0x04 in m <==> p.maxData != 0)
      && (0x05 in m <==> p.maxStreamDataBidiLocal != 0)
      && (0x06 in m <==> p.maxStreamDataBidiRemote != 0)
      && (0x07 in m <==> p.maxStreamDataUni != 0)
      && (0x08 in m <==> p.maxStreamsBidi != 0)
      && (0x09 in m <==> p.maxStreamsUni != 0)
      && (0x0a in m <==> p.ackDelayExponent != 0)
      && (0x0b in m <==> p.maxAckDelay != 0)
      && (0x0e in m <==> p.activeConnIdLimit >= 2)
      && (0x20 in m <==> p.maxDatagramFrameSize.Some?)
  {
    hide EncodedMap, PutVarint, WellTyped;
    WrittenIsMapped(p, isServer, 0x01);
    WrittenIsMapped(p, isServer, 0x03);
    WrittenIsMapped(p, isServer, 0x04);
    WrittenIsMapped(p, isServer, 0x05);
    WrittenIsMapped(p, isServer, 0x06);
    WrittenIsMapped(p, isServer, 0x07);
    WrittenIsMapped(p, isServer, 0x08);
    WrittenIsMapped(p, isServer, 0x09);
    WrittenIsMapped(p, isServer, 0x0a);
    WrittenIsMapped(p, isServer, 0x0b);
    WrittenIsMapped(p, isServer, 0x0e);
    WrittenIsMapped(p, isServer, 0x20);
  }

  /** Which other parameters are: what is set, and three of them by a server alone. */
  lemma OthersWritten(p: Params, isServer: bool)
    requires WellTyped(p)
    ensures
      var m := EncodedMap(p, isServer);
      && (0x00 in m <==> isServer && p.originalDcid.Some?)
      && (0x02 in m <==> isServer && p.statelessResetToken.Some?)
      && (0x0c in m <==> p.disableActiveMigration)
      && (0x0d in m <==> p.preferredAddress.Some?)
      && (0x0f in m <==> p.initialScid.Some?)
      && (0x10 in m <==> isServer && p.retryScid.Some?)
      && (0x0f73_9bbc_1b66_6d05 in m <==> p.enableMultipath)
      && (0xbaad in m <==> p.disableEncryption)
  {
    hide EncodedMap, PutAddress, BigEndian;
    WrittenIsMapped(p, isServer, 0x00);
    WrittenIsMapped(p, isServer, 0x02);
    WrittenIsMapped(p, isServer, 0x0c);
    WrittenIsMapped(p, isServer, 0x0d);
    WrittenIsMapped(p, isServer, 0x0f);
    WrittenIsMapped(p, isServer, 0x10);
    WrittenIsMapped(p, isServer, 0x0f73_9bbc_1b66_6d05);
    WrittenIsMapped(p, isServer, 0xbaad);
  }

  lemma IntegerBack(p: Params, isServer: bool, id: nat)
    requires WellTyped(p) && IsInteger(id)
    ensures
      forall d :: IntegerAt(EncodedMap(p, isServer), id, d) ==
                  match IntegerWritten(p, id) { case Some(n) => n case None => d }
  {
    hide ReadVarint, PutVarint, IntegerWritten, EncodedMap, WellTyped;
    EncodedMapMeans(p, isServer, id);
    if IntegerWritten(p, id).Some? {
      VarintRoundTrip(IntegerWritten(p, id).value, []);
    }
  }

  lemma TokenBack(p: Params, isServer: bool)
    requires WellTyped(p)
    ensures TokenAt(EncodedMap(p, isServer)) == if isServer then p.statelessResetToken else None
  {
    hide EncodedMap, BigEndian, FromBigEndian;
    EncodedMapMeans(p, isServer, STATELESS_RESET_TOKEN);
    if isServer && p.statelessResetToken.Some? {
      var token := p.statelessResetToken.value;
      TokenLimit();
      BigEndianRoundTrip(token, 16);
      assert BigEndian(token, 16)[..16] == BigEndian(token, 16);
    }
  }

  lemma TokenLimit()
    ensures Power256(16) == TOKEN_LIMIT
  {
    Powers();
    assert Power256(9) == 256 * Power256(8);
    assert Power256(10) == 256 * Power256(9);
    assert Power256(11) == 256 * Power256(10);
    assert Power256(12) == 256 * Power256(11);
    assert Power256(13) == 256 * Power256(12);
    assert Power256(14) == 256 * Power256(13);
    assert Power256(15) == 256 * Power256(14);
  }

  lemma AddressBack(p: Params, isServer: bool)
    requires WellTyped(p)
    ensures
      AddressAt(EncodedMap(p, isServer)) == p.preferredAddress <==>
      (p.preferredAddress.Some? ==> Recoverable(p.preferredAddress.value))
  {
    hide EncodedMap, ReadAddress, PutAddress, Recoverable;
    EncodedMapMeans(p, isServer, PREFERRED_ADDRESS);
    if p.preferredAddress.Some? {
      AddressRoundTrip(p.preferredAddress.value, []);
    }
  }

  lemma OthersBack(p: Params, isServer: bool)
    requires WellTyped(p)
    ensures
      var m := EncodedMap(p, isServer);
      && CidAt(m, ORIGINAL_DCID) == (if isServer then p.originalDcid else None)
      && CidAt(m, INITIAL_SCID) == p.initialScid
      && CidAt(m, RETRY_SCID) == (if isServer then p.retryScid else None)
      && (DISABLE_ACTIVE_MIGRATION in m <==> p.disableActiveMigration)
      && (ENABLE_MULTIPATH in m <==> p.enableMultipath)
      && (DISABLE_ENCRYPTION in m <==> p.disableEncryption)
  {
    hide EncodedMap;
    EncodedMapMeans(p, isServer, ORIGINAL_DCID);
    EncodedMapMeans(p, isServer, INITIAL_SCID);
    EncodedMapMeans(p, isServer, RETRY_SCID);
    EncodedMapMeans(p, isServer, DISABLE_ACTIVE_MIGRATION);
    EncodedMapMeans(p, isServer, ENABLE_MULTIPATH);
    EncodedMapMeans(p, isServer, DISABLE_ENCRYPTION);
  }

  /** What is left out of the encoding is what the defaults restore. */
  predicate Returned(p: Params, isServer: bool) {
    && p.maxUdpPayloadSize != 0
    && p.ackDelayExponent != 0
    && p.maxAckDelay != 0
    && p.activeConnIdLimit >= 2
    && p.maxDatagramFrameSize != Some(0)
    && (p.preferredAddress.Some? ==> Recoverable(p.preferredAddress.value))
    && (!isServer ==> p.originalDcid == None && p.statelessResetToken == None && p.retryScid == None)
  }

  lemma ReturnedIff(p: Params, isServer: bool)
    requires WellTyped(p)
    ensures FromMap(EncodedMap(p, isServer)) == p <==> Returned(p, isServer)
  {
    hide EncodedMap, WellTyped, IntegerAt, CidAt, TokenAt, AddressAt, Recoverable;
    IntegersBack(p, isServer);
    TokenBack(p, isServer);
    AddressBack(p, isServer);
    OthersBack(p, isServer);
  }

  lemma IntegersBack(p: Params, isServer: bool)
    requires WellTyped(p)
    ensures
      var m := EncodedMap(p, isServer);
      && IntegerAt(m, MAX_IDLE_TIMEOUT, 0) == p.maxIdleTimeout
      && (IntegerAt(m, MAX_UDP_PAYLOAD_SIZE, 65527) == p.maxUdpPayloadSize <==> p.maxUdpPayloadSize != 0)
      && IntegerAt(m, MAX_DATA, 0) == p.maxData
      && IntegerAt(m, MAX_STREAM_DATA_BIDI_LOCAL, 0) == p.maxStreamDataBidiLocal
      && IntegerAt(m, MAX_STREAM_DATA_BIDI_REMOTE, 0) == p.maxStreamDataBidiRemote
      && IntegerAt(m, MAX_STREAM_DATA_UNI, 0) == p.maxStreamDataUni
      && IntegerAt(m, MAX_STREAMS_BIDI, 0) == p.maxStreamsBidi
      && IntegerAt(m, MAX_STREAMS_UNI, 0) == p.maxStreamsUni
      && (IntegerAt(m, ACK_DELAY_EXPONENT, 3) == p.ackDelayExponent <==> p.ackDelayExponent != 0)
      && (IntegerAt(m, MAX_ACK_DELAY, 25) == p.maxAckDelay <==> p.maxAckDelay != 0)
      && (IntegerAt(m, ACTIVE_CONN_ID_LIMIT, 2) == p.activeConnIdLimit <==> p.activeConnIdLimit >= 2)
      && (DatagramAt(m) == p.maxDatagramFrameSize <==> p.maxDatagramFrameSize != Some(0))
  {
    hide EncodedMap, WellTyped, IntegerAt;
    IntegerBack(p, isServer, MAX_IDLE_TIMEOUT);
    IntegerBack(p, isServer, MAX_UDP_PAYLOAD_SIZE);
    IntegerBack(p, isServer, MAX_DATA);
    IntegerBack(p, isServer, MAX_STREAM_DATA_BIDI_LOCAL);
    IntegerBack(p, isServer, MAX_STREAM_DATA_BIDI_REMOTE);
    IntegerBack(p, isServer, MAX_STREAM_DATA_UNI);
    IntegerBack(p, isServer, MAX_STREAMS_BIDI);
    IntegerBack(p, isServer, MAX_STREAMS_UNI);
    IntegerBack(p, isServer, ACK_DELAY_EXPONENT);
    IntegerBack(p, isServer, MAX_ACK_DELAY);
    IntegerBack(p, isServer, ACTIVE_CONN_ID_LIMIT);
    IntegerBack(p, isServer, MAX_DATAGRAM_FRAME_SIZE);
  }

  /** What the opposite role accepts. */
  predicate Accepted(p: Params, isServer: bool) {
    && (p.maxUdpPayloadSize == 0 || p.maxUdpPayloadSize >= 1200)
    && p.maxStreamsBidi <= MAX_STREAMS_PER_TYPE
    && p.maxStreamsUni <= MAX_STREAMS_PER_TYPE
    && p.ackDelayExponent <= 20
    && p.maxAckDelay < 0x4000
    && (!isServer ==> p.preferredAddress == None)
  }

  /** The value written under an id, if any, is one the opposite role accepts. */
  predicate FieldAccepted(p: Params, isServer: bool, id: nat)
    requires WellTyped(p)
  {
    ValueWritten(p, isServer, id).Some? ==>
      && (id == PREFERRED_ADDRESS ==> isServer)
      && (IsInteger(id) ==> Permitted(id, IntegerWritten(p, id).value))
  }

  lemma FieldValidIff(p: Params, isServer: bool, id: nat)
    requires WellTyped(p) && ValueWritten(p, isServer, id).Some?
    ensures
      ValidValue(Entry(id, ValueWritten(p, isServer, id).value), !isServer) <==> FieldAccepted(p, isServer, id)
  {
    hide ReadVarint, PutVarint, IntegerWritten, ReadAddress, PutAddress, Permitted, BigEndian;
    if IsInteger(id) {
      VarintRoundTrip(IntegerWritten(p, id).value, []);
    }
    if id == PREFERRED_ADDRESS {
      AddressRoundTrip(p.preferredAddress.value, []);
    }
  }

  lemma FieldsAccepted(p: Params, isServer: bool)
    requires WellTyped(p)
    ensures Accepted(p, isServer) <==> forall id :: Known(id) ==> FieldAccepted(p, isServer, id)
  {
    hide PutVarint, PutAddress, BigEndian, WellTyped;
    if forall id :: Known(id) ==> FieldAccepted(p, isServer, id) {
      assert FieldAccepted(p, isServer, MAX_UDP_PAYLOAD_SIZE);
      assert FieldAccepted(p, isServer, MAX_STREAMS_BIDI);
      assert FieldAccepted(p, isServer, MAX_STREAMS_UNI);
      assert FieldAccepted(p, isServer, ACK_DELAY_EXPONENT);
      assert FieldAccepted(p, isServer, MAX_ACK_DELAY);
      assert FieldAccepted(p, isServer, PREFERRED_ADDRESS);
    }
  }

  lemma AcceptedIff(p: Params, isServer: bool)
    requires WellTyped(p)
    ensures AllValid(Entries(p, isServer, ORDER), !isServer) <==> Accepted(p, isServer)
  {
    hide ValueWritten, Entries, ValidValue, WellTyped, FieldAccepted, Accepted, Known;
    FieldsAccepted(p, isServer);
    EntriesMean(p, isServer, ORDER);
    var entries := Entries(p, isServer, ORDER);
    forall e | e in entries
      ensures Known(e.id)
    {
      OrderIsKnown(e.id);
    }
    forall id | Known(id)
      ensures FieldAccepted(p, isServer, id) <==> (forall e :: e in entries && e.id == id ==> ValidValue(e, !isServer))
    {
      OrderIsKnown(id);
      UnwrittenAccepted(p, isServer, id);
      if ValueWritten(p, isServer, id).Some? {
        FieldValidIff(p, isServer, id);
        assert Entry(id, ValueWritten(p, isServer, id).value) in entries;
      }
    }
  }

  lemma UnwrittenAccepted(p: Params, isServer: bool, id: nat)
    requires WellTyped(p)
    ensures ValueWritten(p, isServer, id) == None ==> FieldAccepted(p, isServer, id)
  {
  }

  /**
   From either role through the decoder of the other, parameters come back unchanged if and
   only if they are within the decoder's bounds, are not ones whose zero is mistaken for the
   default, and a client sets none that only a server sends.
   */
  lemma ParamsRoundTripIff(p: Params, isServer: bool)
    requires WellTyped(p)
    ensures Decode(Encode(p, isServer), !isServer) == Ok(p) <==> Returned(p, isServer) && Accepted(p, isServer)
  {
    hide Entries, PutEntries, Decode, FromMap, WellTyped, Returned, Accepted, NoRepeats, AllValid, ReadEntries, ToMap;
    var entries := Entries(p, isServer, ORDER);
    EntriesWritable(p, isServer);
    EntriesRoundTrip(entries);
    DecodeIff(Encode(p, isServer), !isServer);
    ReturnedIff(p, isServer);
    AcceptedIff(p, isServer);
  }
}
