/**
 Transport parameters, src/trans_param.rs: section 18 of RFC 9000. A parameter is an id and a
 byte string; the decoder reads them in any order, once each, over the default values.
 */
module TransportParams {
  import opened Codec
  import opened Options

  const MAX_STREAMS_PER_TYPE: nat := 0x1000_0000_0000_0000
  const TOKEN_LIMIT: nat := 0x1_0000_0000_0000_0000_0000_0000_0000_0000

  const ORIGINAL_DCID: nat := 0x00
  const MAX_IDLE_TIMEOUT: nat := 0x01
  const STATELESS_RESET_TOKEN: nat := 0x02
  const MAX_UDP_PAYLOAD_SIZE: nat := 0x03
  const MAX_DATA: nat := 0x04
  const MAX_STREAM_DATA_BIDI_LOCAL: nat := 0x05
  const MAX_STREAM_DATA_BIDI_REMOTE: nat := 0x06
  const MAX_STREAM_DATA_UNI: nat := 0x07
  const MAX_STREAMS_BIDI: nat := 0x08
  const MAX_STREAMS_UNI: nat := 0x09
  const ACK_DELAY_EXPONENT: nat := 0x0a
  const MAX_ACK_DELAY: nat := 0x0b
  const DISABLE_ACTIVE_MIGRATION: nat := 0x0c
  const PREFERRED_ADDRESS: nat := 0x0d
  const ACTIVE_CONN_ID_LIMIT: nat := 0x0e
  const INITIAL_SCID: nat := 0x0f
  const RETRY_SCID: nat := 0x10
  const MAX_DATAGRAM_FRAME_SIZE: nat := 0x20
  const DISABLE_ENCRYPTION: nat := 0xbaad
  const ENABLE_MULTIPATH: nat := 0x0f73_9bbc_1b66_6d05

  const UNSPECIFIED_V4: Bytes := [0, 0, 0, 0]
  const UNSPECIFIED_V6: Bytes := [0, 0, 0, 0, 0, 0, 0, 0, 0, 0, 0, 0, 0, 0, 0, 0]

  datatype AddressV4 = AddressV4(ip: Bytes, port: nat)

  datatype AddressV6 = AddressV6(ip: Bytes, port: nat, flowInfo: nat, scopeId: nat)

  datatype PreferredAddress = PreferredAddress(v4: Option<AddressV4>, v6: Option<AddressV6>, cid: Bytes, token: Bytes)

  datatype Params = Params(
    originalDcid: Option<Bytes>,
    maxIdleTimeout: nat,
    statelessResetToken: Option<nat>,
    maxUdpPayloadSize: nat,
    maxData: nat,
    maxStreamDataBidiLocal: nat,
    maxStreamDataBidiRemote: nat,
    maxStreamDataUni: nat,
    maxStreamsBidi: nat,
    maxStreamsUni: nat,
    ackDelayExponent: nat,
    maxAckDelay: nat,
    disableActiveMigration: bool,
    preferredAddress: Option<PreferredAddress>,
    activeConnIdLimit: nat,
    initialScid: Option<Bytes>,
    retryScid: Option<Bytes>,
    enableMultipath: bool,
    disableEncryption: bool,
    maxDatagramFrameSize: Option<nat>)

  const DEFAULT: Params :=
    Params(None, 0, None, 65527, 0, 0, 0, 0, 0, 0, 3, 25, false, None, 2, None, None, false, false, None)

  datatype Result<T> = Ok(value: T) | Err(error: Error)

  datatype Entry = Entry(id: nat, value: Bytes)

  // ----- The preferred address

  function ReadU16(b: Bytes): Read<nat> {
    if |b| < 2 then Failed(BufferTooShort) else Got(FromBigEndian(b[..2]), b[2..])
  }

  predicate Unspecified(ip: Bytes, port: nat) {
    (forall i :: 0 <= i < |ip| ==> ip[i] == 0) && port == 0
  }

  function ReadAddress(b: Bytes): Read<PreferredAddress> {
    var (ip4, b) :- ReadBytes(b, 4);
    var (port4, b) :- ReadU16(b);
    var (ip6, b) :- ReadBytes(b, 16);
    var (port6, b) :- ReadU16(b);
    var (cid, b) :- ReadWithU8Length(b);
    var (token, b) :- ReadBytes(b, RESET_TOKEN_LEN);
    Got(PreferredAddress(
          if Unspecified(ip4, port4) then None else Some(AddressV4(ip4, port4)),
          if Unspecified(ip6, port6) then None else Some(AddressV6(ip6, port6, 0, 0)),
          ConnectionIdOf(cid), token),
        b)
  }

  predicate WellTypedAddress(a: PreferredAddress) {
    && (a.v4.Some? ==> |a.v4.value.ip| == 4 && a.v4.value.port < 0x1_0000)
    && (a.v6.Some? ==> |a.v6.value.ip| == 16 && a.v6.value.port < 0x1_0000)
    && |a.cid| <= MAX_CID_LEN
    && |a.token| == RESET_TOKEN_LEN
  }

  function PutAddress(a: PreferredAddress, tail: Bytes): (bytes: Bytes)
    requires WellTypedAddress(a)
    ensures |bytes| == 4 + 2 + 16 + 2 + 1 + |a.cid| + 16 + |tail|
  {
    var (ip4, port4) := if a.v4.Some? then (a.v4.value.ip, a.v4.value.port) else (UNSPECIFIED_V4, 0);
    var (ip6, port6) := if a.v6.Some? then (a.v6.value.ip, a.v6.value.port) else (UNSPECIFIED_V6, 0);
    ip4 + (BigEndian(port4, 2) + (ip6 + (BigEndian(port6, 2) + ([|a.cid|] + (a.cid + (a.token + tail))))))
  }

  /** The addresses the decoder can give back. */
  predicate Recoverable(a: PreferredAddress) {
    && (a.v4.Some? ==> !Unspecified(a.v4.value.ip, a.v4.value.port))
    && (a.v6.Some? ==>
          !Unspecified(a.v6.value.ip, a.v6.value.port) && a.v6.value.flowInfo == 0 && a.v6.value.scopeId == 0)
  }

  lemma U16RoundTrip(n: nat, tail: Bytes)
    requires n < 0x1_0000
    ensures ReadU16(BigEndian(n, 2) + tail) == Got(n, tail)
  {
    Powers();
    BigEndianRoundTrip(n, 2);
    assert (BigEndian(n, 2) + tail)[..2] == BigEndian(n, 2);
  }

  lemma U8LengthRoundTrip(bytes: Bytes, tail: Bytes)
    requires |bytes| < 256
    ensures ReadWithU8Length([|bytes|] + (bytes + tail)) == Got(bytes, tail)
  {
    assert ([|bytes|] + (bytes + tail))[1..] == bytes + tail;
    BytesRoundTrip(bytes, tail);
  }

  /** Whatever was written, the decoder accepts it; it is the same address if and only if recoverable. */
  lemma AddressRoundTrip(a: PreferredAddress, tail: Bytes)
    requires WellTypedAddress(a)
    ensures ReadAddress(PutAddress(a, tail)).Got?
    ensures ReadAddress(PutAddress(a, tail)).value == a <==> Recoverable(a)
  {
    hide ReadBytes, ReadU16, ReadWithU8Length, BigEndian;
    var (ip4, port4) := if a.v4.Some? then (a.v4.value.ip, a.v4.value.port) else (UNSPECIFIED_V4, 0);
    var (ip6, port6) := if a.v6.Some? then (a.v6.value.ip, a.v6.value.port) else (UNSPECIFIED_V6, 0);
    var b6 := a.token + tail;
    var b5 := [|a.cid|] + (a.cid + b6);
    var b4 := BigEndian(port6, 2) + b5;
    var b3 := ip6 + b4;
    var b2 := BigEndian(port4, 2) + b3;
    BytesRoundTrip(ip4, b2);
    U16RoundTrip(port4, b3);
    BytesRoundTrip(ip6, b4);
    U16RoundTrip(port6, b5);
    U8LengthRoundTrip(a.cid, b6);
    BytesRoundTrip(a.token, tail);
  }

  /** The order of the parts, and the all-zero address that stands for none. */
  lemma AddressLayout(ip4: Bytes, port4: nat, ip6: Bytes, port6: nat, cid: Bytes, token: Bytes, tail: Bytes)
    requires |ip4| == 4 && port4 < 0x1_0000 && |ip6| == 16 && port6 < 0x1_0000 && |cid| < 256 && |token| == 16
    ensures
      var b := ip4 + (BigEndian(port4, 2) + (ip6 + (BigEndian(port6, 2) + ([|cid|] + (cid + (token + tail))))));
      ReadAddress(b) ==
      Got(PreferredAddress(
            if ip4 == [0, 0, 0, 0] && port4 == 0 then None else Some(AddressV4(ip4, port4)),
            if (forall i :: 0 <= i < 16 ==> ip6[i] == 0) && port6 == 0 then None else Some(AddressV6(ip6, port6, 0, 0)),
            if |cid| > 20 then cid[..20] else cid, token),
          tail)
  {
    hide ReadBytes, ReadU16, ReadWithU8Length, BigEndian;
    var b5 := [|cid|] + (cid + (token + tail));
    var b4 := BigEndian(port6, 2) + b5;
    var b3 := ip6 + b4;
    var b2 := BigEndian(port4, 2) + b3;
    BytesRoundTrip(ip4, b2);
    U16RoundTrip(port4, b3);
    BytesRoundTrip(ip6, b4);
    U16RoundTrip(port6, b5);
    U8LengthRoundTrip(cid, token + tail);
    BytesRoundTrip(token, tail);
  }

  // ----- Decoding

  predicate IsInteger(id: nat) {
    || id == MAX_IDLE_TIMEOUT
    || MAX_UDP_PAYLOAD_SIZE <= id <= MAX_ACK_DELAY
    || id == ACTIVE_CONN_ID_LIMIT
    || id == MAX_DATAGRAM_FRAME_SIZE
  }

  predicate ServerOnly(id: nat) {
    id == ORIGINAL_DCID || id == STATELESS_RESET_TOKEN || id == PREFERRED_ADDRESS || id == RETRY_SCID
  }

  /** The values the decoder accepts for an integer parameter. */
  predicate Permitted(id: nat, n: nat) {
    && (id == MAX_UDP_PAYLOAD_SIZE ==> n >= 1200)
    && (id == MAX_STREAMS_BIDI || id == MAX_STREAMS_UNI ==> n <= MAX_STREAMS_PER_TYPE)
    && (id == ACK_DELAY_EXPONENT ==> n <= 20)
    && (id == MAX_ACK_DELAY ==> n < 0x4000)
    && (id == ACTIVE_CONN_ID_LIMIT ==> n >= 2)
  }

  function SetInteger(p: Params, id: nat, n: nat): Params {
    if id == MAX_IDLE_TIMEOUT then p.(maxIdleTimeout := n)
    else if id == MAX_UDP_PAYLOAD_SIZE then p.(maxUdpPayloadSize := n)
    else if id == MAX_DATA then p.(maxData := n)
    else if id == MAX_STREAM_DATA_BIDI_LOCAL then p.(maxStreamDataBidiLocal := n)
    else if id == MAX_STREAM_DATA_BIDI_REMOTE then p.(maxStreamDataBidiRemote := n)
    else if id == MAX_STREAM_DATA_UNI then p.(maxStreamDataUni := n)
    else if id == MAX_STREAMS_BIDI then p.(maxStreamsBidi := n)
    else if id == MAX_STREAMS_UNI then p.(maxStreamsUni := n)
    else if id == ACK_DELAY_EXPONENT then p.(ackDelayExponent := n)
    else if id == MAX_ACK_DELAY then p.(maxAckDelay := n)
    else if id == ACTIVE_CONN_ID_LIMIT then p.(activeConnIdLimit := n)
    else if id == MAX_DATAGRAM_FRAME_SIZE then p.(maxDatagramFrameSize := if n == 0 then None else Some(n))
    else p
  }

  /** One parameter, as the decoder takes it in. Bytes after the value proper are ignored. */
  function Apply(p: Params, id: nat, v: Bytes, isServer: bool): Result<Params> {
    if ServerOnly(id) && isServer then Err(TransportParameterError)
    else if IsInteger(id) then
      match ReadVarint(v)
      case Got(n, _) => if Permitted(id, n) then Ok(SetInteger(p, id, n)) else Err(TransportParameterError)
      case Failed(e) => Err(e)
    else if id == ORIGINAL_DCID then Ok(p.(originalDcid := Some(ConnectionIdOf(v))))
    else if id == STATELESS_RESET_TOKEN then
      match ReadBytes(v, RESET_TOKEN_LEN)
      case Got(token, _) => Ok(p.(statelessResetToken := Some(FromBigEndian(token))))
      case Failed(e) => Err(e)
    else if id == DISABLE_ACTIVE_MIGRATION then Ok(p.(disableActiveMigration := true))
    else if id == PREFERRED_ADDRESS then
      match ReadAddress(v)
      case Got(a, _) => Ok(p.(preferredAddress := Some(a)))
      case Failed(e) => Err(e)
    else if id == INITIAL_SCID then Ok(p.(initialScid := Some(ConnectionIdOf(v))))
    else if id == RETRY_SCID then Ok(p.(retryScid := Some(ConnectionIdOf(v))))
    else if id == ENABLE_MULTIPATH then Ok(p.(enableMultipath := true))
    else if id == DISABLE_ENCRYPTION then Ok(p.(disableEncryption := true))
    else Ok(p)
  }

  function DecodeFrom(b: Bytes, p: Params, found: set<nat>, isServer: bool): Result<Params>
    decreases |b|
  {
    if b == [] then Ok(p)
    else
      match ReadVarint(b)
      case Failed(e) => Err(e)
      case Got(id, afterId) =>
        if id in found then Err(TransportParameterError)
        else
          match ReadWithVarintLength(afterId)
          case Failed(e) => Err(e)
          case Got(v, rest) =>
            match Apply(p, id, v, isServer)
            case Err(e) => Err(e)
            case Ok(q) => DecodeFrom(rest, q, found + {id}, isServer)
  }

  function Decode(b: Bytes, isServer: bool): Result<Params> {
    DecodeFrom(b, DEFAULT, {}, isServer)
  }

  // ----- What decoding means

  function ReadEntries(b: Bytes): Option<seq<Entry>>
    decreases |b|
  {
    if b == [] then Some([])
    else
      match ReadVarint(b)
      case Failed(_) => None
      case Got(id, afterId) =>
        match ReadWithVarintLength(afterId)
        case Failed(_) => None
        case Got(v, rest) =>
          match ReadEntries(rest)
          case None => None
          case Some(entries) => Some([Entry(id, v)] + entries)
  }

  function IntegerAt(m: map<nat, Bytes>, id: nat, default: nat): nat {
    if id in m && ReadVarint(m[id]).Got? then ReadVarint(m[id]).value else default
  }

  function CidAt(m: map<nat, Bytes>, id: nat): Option<Bytes> {
    if id in m then Some(ConnectionIdOf(m[id])) else None
  }

  function TokenAt(m: map<nat, Bytes>): Option<nat> {
    if STATELESS_RESET_TOKEN in m && |m[STATELESS_RESET_TOKEN]| >= RESET_TOKEN_LEN
    then Some(FromBigEndian(m[STATELESS_RESET_TOKEN][..RESET_TOKEN_LEN]))
    else None
  }

  function AddressAt(m: map<nat, Bytes>): Option<PreferredAddress> {
    if PREFERRED_ADDRESS in m && ReadAddress(m[PREFERRED_ADDRESS]).Got?
    then Some(ReadAddress(m[PREFERRED_ADDRESS]).value)
    else None
  }

  function DatagramAt(m: map<nat, Bytes>): Option<nat> {
    var n := IntegerAt(m, MAX_DATAGRAM_FRAME_SIZE, 0);
    if n == 0 then None else Some(n)
  }

  /** The parameters an unordered set of entries stands for. */
  function FromMap(m: map<nat, Bytes>): Params {
    Params(
      CidAt(m, ORIGINAL_DCID),
      IntegerAt(m, MAX_IDLE_TIMEOUT, 0),
      TokenAt(m),
      IntegerAt(m, MAX_UDP_PAYLOAD_SIZE, 65527),
      IntegerAt(m, MAX_DATA, 0),
      IntegerAt(m, MAX_STREAM_DATA_BIDI_LOCAL, 0),
      IntegerAt(m, MAX_STREAM_DATA_BIDI_REMOTE, 0),
      IntegerAt(m, MAX_STREAM_DATA_UNI, 0),
      IntegerAt(m, MAX_STREAMS_BIDI, 0),
      IntegerAt(m, MAX_STREAMS_UNI, 0),
      IntegerAt(m, ACK_DELAY_EXPONENT, 3),
      IntegerAt(m, MAX_ACK_DELAY, 25),
      DISABLE_ACTIVE_MIGRATION in m,
      AddressAt(m),
      IntegerAt(m, ACTIVE_CONN_ID_LIMIT, 2),
      CidAt(m, INITIAL_SCID),
      CidAt(m, RETRY_SCID),
      ENABLE_MULTIPATH in m,
      DISABLE_ENCRYPTION in m,
      DatagramAt(m))
  }

  predicate ValidValue(e: Entry, isServer: bool) {
    && (ServerOnly(e.id) ==> !isServer)
    && (IsInteger(e.id) ==> ReadVarint(e.value).Got? && Permitted(e.id, ReadVarint(e.value).value))
    && (e.id == STATELESS_RESET_TOKEN ==> |e.value| >= RESET_TOKEN_LEN)
    && (e.id == PREFERRED_ADDRESS ==> ReadAddress(e.value).Got?)
  }

  ghost predicate AllValid(entries: seq<Entry>, isServer: bool) {
    forall e :: e in entries ==> ValidValue(e, isServer)
  }

  ghost predicate NoRepeats(entries: seq<Entry>) {
    forall i, j :: 0 <= i < j < |entries| ==> entries[i].id != entries[j].id
  }

  /** The entries as a map, in order, over those already there. */
  function ToMap(entries: seq<Entry>, m: map<nat, Bytes>): map<nat, Bytes> {
    if entries == [] then m else ToMap(entries[1..], m[entries[0].id := entries[0].value])
  }

  /** Adding one entry leaves the meaning of the others alone. */
  lemma OthersKept(m: map<nat, Bytes>, id: nat, v: Bytes)
    ensures forall k, d :: k != id ==> IntegerAt(m[id := v], k, d) == IntegerAt(m, k, d)
    ensures forall k :: k != id ==> CidAt(m[id := v], k) == CidAt(m, k)
    ensures id != STATELESS_RESET_TOKEN ==> TokenAt(m[id := v]) == TokenAt(m)
    ensures id != PREFERRED_ADDRESS ==> AddressAt(m[id := v]) == AddressAt(m)
  {
    hide ReadVarint, ReadAddress, ConnectionIdOf, FromBigEndian;
  }

  lemma IntegerAtSelf(m: map<nat, Bytes>, id: nat)
    requires id in m && ReadVarint(m[id]).Got?
    ensures forall d :: IntegerAt(m, id, d) == ReadVarint(m[id]).value
  {
    hide ReadVarint;
  }

  lemma SetIntegerAt(m: map<nat, Bytes>, id: nat, v: Bytes)
    requires IsInteger(id) && ReadVarint(v).Got?
    ensures SetInteger(FromMap(m), id, ReadVarint(v).value) == FromMap(m[id := v])
  {
    hide ReadVarint, IntegerAt, CidAt, TokenAt, AddressAt;
    OthersKept(m, id, v);
    IntegerAtSelf(m[id := v], id);
  }

  /** Taking in one parameter is adding it to the map; it is refused if and only if its value is invalid. */
  lemma ApplyIsUpdate(m: map<nat, Bytes>, id: nat, v: Bytes, isServer: bool)
    ensures Apply(FromMap(m), id, v, isServer).Ok? <==> ValidValue(Entry(id, v), isServer)
    ensures
      Apply(FromMap(m), id, v, isServer).Ok? ==>
        Apply(FromMap(m), id, v, isServer).value == FromMap(m[id := v])
  {
    hide ReadVarint, ReadAddress, ConnectionIdOf, FromBigEndian, SetInteger, IntegerAt;
    OthersKept(m, id, v);
    if IsInteger(id) && ReadVarint(v).Got? {
      SetIntegerAt(m, id, v);
    }
  }

  // ----- Decoding in any order

  /** The entries can be taken in one after the other. */
  predicate Acceptable(entries: seq<Entry>, m: map<nat, Bytes>, isServer: bool) {
    entries != [] ==>
      && entries[0].id !in m
      && ValidValue(entries[0], isServer)
      && Acceptable(entries[1..], m[entries[0].id := entries[0].value], isServer)
  }

  lemma {:induction false} DecodeSteps(b: Bytes, m: map<nat, Bytes>, isServer: bool)
    ensures
      var r, entries := DecodeFrom(b, FromMap(m), m.Keys, isServer), ReadEntries(b);
      && (r.Ok? <==> entries.Some? && Acceptable(entries.value, m, isServer))
      && (r.Ok? ==> r.value == FromMap(ToMap(entries.value, m)))
    decreases |b|
  {
    hide ReadVarint, ReadWithVarintLength, Apply, FromMap, ValidValue;
    if b != [] {
      var first := ReadVarint(b);
      if first.Got? && ReadWithVarintLength(first.rest).Got? {
        var id, v := first.value, ReadWithVarintLength(first.rest);
        ApplyIsUpdate(m, id, v.value, isServer);
        var next := m[id := v.value];
        assert next.Keys == m.Keys + {id};
        ShorterRest(b);
        DecodeSteps(v.rest, next, isServer);
      }
    }
  }

  lemma ShorterRest(b: Bytes)
    requires ReadVarint(b).Got? && ReadWithVarintLength(ReadVarint(b).rest).Got?
    ensures |ReadWithVarintLength(ReadVarint(b).rest).rest| < |b|
  {
  }

  ghost predicate Fresh(entries: seq<Entry>, m: map<nat, Bytes>) {
    forall e :: e in entries ==> e.id !in m
  }

  lemma {:induction false} AcceptableIff(entries: seq<Entry>, m: map<nat, Bytes>, isServer: bool)
    ensures
      Acceptable(entries, m, isServer) <==> NoRepeats(entries) && Fresh(entries, m) && AllValid(entries, isServer)
    decreases |entries|
  {
    hide ValidValue;
    if entries != [] {
      var first, rest := entries[0], entries[1..];
      AcceptableIff(rest, m[first.id := first.value], isServer);
      assert entries == [first] + rest;
      assert NoRepeats(entries) <==> NoRepeats(rest) && forall e :: e in rest ==> e.id != first.id by {
        RepeatsFirst(first, rest);
      }
    }
  }

  lemma RepeatsFirst(first: Entry, rest: seq<Entry>)
    ensures NoRepeats([first] + rest) <==> NoRepeats(rest) && forall e :: e in rest ==> e.id != first.id
  {
    var entries := [first] + rest;
    if NoRepeats(entries) {
      forall i, j | 0 <= i < j < |rest|
        ensures rest[i].id != rest[j].id
      {
        assert entries[i + 1] == rest[i] && entries[j + 1] == rest[j];
      }
      forall e | e in rest
        ensures e.id != first.id
      {
        var j :| 0 <= j < |rest| && rest[j] == e;
        assert entries[j + 1] == e && entries[0] == first;
      }
    }
  }

  lemma {:induction false} ToMapMeans(entries: seq<Entry>, m: map<nat, Bytes>)
    requires NoRepeats(entries) && Fresh(entries, m)
    ensures forall e :: e in entries ==> e.id in ToMap(entries, m) && ToMap(entries, m)[e.id] == e.value
    ensures forall k :: k in m ==> k in ToMap(entries, m) && ToMap(entries, m)[k] == m[k]
    ensures forall k :: k in ToMap(entries, m) ==> k in m || exists e :: e in entries && e.id == k
    decreases |entries|
  {
    if entries != [] {
      var first, rest := entries[0], entries[1..];
      assert entries == [first] + rest;
      RepeatsFirst(first, rest);
      ToMapMeans(rest, m[first.id := first.value]);
    }
  }

  /**
   The decoder accepts exactly the buffers that split into entries with distinct ids and valid
   values, and then gives what the unordered set of entries stands for.
   */
  lemma DecodeIff(b: Bytes, isServer: bool)
    ensures
      Decode(b, isServer).Ok? <==>
      && ReadEntries(b).Some?
      && NoRepeats(ReadEntries(b).value)
      && AllValid(ReadEntries(b).value, isServer)
    ensures Decode(b, isServer).Ok? ==> Decode(b, isServer).value == FromMap(ToMap(ReadEntries(b).value, map[]))
  {
    hide ReadEntries, DecodeFrom, NoRepeats, ValidValue;
    var none: map<nat, Bytes> := map[];
    assert none.Keys == {} && FromMap(none) == DEFAULT;
    DecodeSteps(b, map[], isServer);
    if ReadEntries(b).Some? {
      AcceptableIff(ReadEntries(b).value, map[], isServer);
    }
  }

  lemma TakeOut(entries: seq<Entry>, i: nat)
    requires i < |entries|
    ensures multiset(entries[..i] + entries[i + 1..]) == multiset(entries) - multiset{entries[i]}
  {
    assert entries == entries[..i] + [entries[i]] + entries[i + 1..];
  }

  /** Any order of entries without repeats is without repeats. */
  lemma {:induction false} ReorderedEntries(one: seq<Entry>, other: seq<Entry>)
    requires multiset(one) == multiset(other) && NoRepeats(one)
    ensures NoRepeats(other)
    decreases |one|
  {
    if one != [] {
      var first, rest := one[0], one[1..];
      assert one == [first] + rest;
      RepeatsFirst(first, rest);
      assert first in multiset(other);
      var i :| 0 <= i < |other| && other[i] == first;
      var left := other[..i] + other[i + 1..];
      TakeOut(other, i);
      TakeOut(one, 0);
      assert one[..0] + one[1..] == rest;
      ReorderedEntries(rest, left);
      assert forall e :: e in left ==> e in multiset(rest);
      InsertOne(other, i);
    } else {
      assert |multiset(other)| == |multiset(one)| == 0;
      assert other == [];
    }
  }

  lemma InsertOne(entries: seq<Entry>, i: nat)
    requires i < |entries|
    requires
      var left := entries[..i] + entries[i + 1..];
      NoRepeats(left) && forall e :: e in left ==> e.id != entries[i].id
    ensures NoRepeats(entries)
  {
    var left := entries[..i] + entries[i + 1..];
    assert forall j :: 0 <= j < i ==> left[j] == entries[j];
    assert forall j :: i < j < |entries| ==> left[j - 1] == entries[j];
  }

  /** Decoding does not depend on the order of the parameters. */
  lemma DecodeAnyOrder(b: Bytes, c: Bytes, isServer: bool)
    requires ReadEntries(b).Some? && ReadEntries(c).Some?
    requires multiset(ReadEntries(b).value) == multiset(ReadEntries(c).value)
    ensures Decode(b, isServer).Ok? <==> Decode(c, isServer).Ok?
    ensures Decode(b, isServer).Ok? ==> Decode(b, isServer) == Decode(c, isServer)
  {
    hide ReadEntries, Decode, FromMap, ValidValue;
    var one, other := ReadEntries(b).value, ReadEntries(c).value;
    DecodeIff(b, isServer);
    DecodeIff(c, isServer);
    assert forall e :: e in one <==> e in multiset(other);
    if NoRepeats(one) || NoRepeats(other) {
      if NoRepeats(one) {
        ReorderedEntries(one, other);
      } else {
        ReorderedEntries(other, one);
      }
      SameMap(one, other);
    }
  }

  lemma SameMap(one: seq<Entry>, other: seq<Entry>)
    requires NoRepeats(one) && NoRepeats(other) && forall e :: e in one <==> e in other
    ensures ToMap(one, map[]) == ToMap(other, map[])
  {
    hide ToMap, NoRepeats;
    ToMapMeans(one, map[]);
    ToMapMeans(other, map[]);
  }
}
