/** The transport parameter coder as it runs, src/trans_param.rs: a read cursor with a set of ids, a write cursor. */
module ParamsCodec {
  import opened Codec
  import opened FrameCodec
  import opened Options
  import opened ParamsEncoding
  import opened TransportParams

  /** Decode the whole buffer; the number of bytes consumed is its length. */
  method DecodeParams(buf: Bytes, isServer: bool) returns (r: Result<(Params, nat)>)
    ensures r.Ok? ==> Decode(buf, isServer) == Ok(r.value.0) && r.value.1 == |buf|
    ensures r.Err? ==> Decode(buf, isServer) == Err(r.error)
  {
    hide ReadVarint, ReadWithVarintLength, TransportParams.Apply;
    var b, p, found := buf, DEFAULT, {};
    while b != []
      invariant DecodeFrom(b, p, found, isServer) == Decode(buf, isServer)
      decreases |b|
    {
      var id := ReadVarint(b);
      if id.Failed? {
        return Err(id.error);
      }
      if id.value in found {
        return Err(TransportParameterError);
      }
      found := found + {id.value};
      var v := ReadWithVarintLength(id.rest);
      if v.Failed? {
        return Err(v.error);
      }
      var q := TransportParams.Apply(p, id.value, v.value, isServer);
      if q.Err? {
        return Err(q.error);
      }
      ShorterRest(b);
      b, p := v.rest, q.value;
    }
    r := Ok((p, |buf| - |b|));
  }

  ghost predicate SmallIds(ids: seq<nat>) {
    forall id :: id in ids ==> id <= VINT_MAX
  }

  lemma SmallIdsWritable(p: Params, isServer: bool, ids: seq<nat>)
    requires WellTyped(p) && SmallIds(ids)
    ensures Writable(Entries(p, isServer, ids))
  {
    hide ValueWritten, Entries, WellTyped;
    EntriesMean(p, isServer, ids);
  }

  /** What the encoder writes for the parameters with the given ids. */
  ghost function Written(p: Params, isServer: bool, ids: seq<nat>): Bytes
    requires WellTyped(p) && SmallIds(ids)
  {
    SmallIdsWritable(p, isServer, ids);
    PutEntries(Entries(p, isServer, ids), [])
  }

  lemma WrittenStep(p: Params, isServer: bool, id: nat, rest: seq<nat>)
    requires WellTyped(p) && SmallIds([id] + rest) && SmallIds(rest) && id <= VINT_MAX
    ensures
      Written(p, isServer, [id] + rest) ==
      match ValueWritten(p, isServer, id)
      case Some(v) => PutVarint(id, PutVarint(|v|, v + Written(p, isServer, rest)))
      case None => Written(p, isServer, rest)
  {
    hide ValueWritten, WellTyped, PutVarint;
    SmallIdsWritable(p, isServer, [id] + rest);
    SmallIdsWritable(p, isServer, rest);
    var entries := Entries(p, isServer, rest);
    assert ([id] + rest)[1..] == rest;
    if ValueWritten(p, isServer, id).Some? {
      var first := Entry(id, ValueWritten(p, isServer, id).value);
      assert Entries(p, isServer, [id] + rest) == [first] + entries;
      assert ([first] + entries)[1..] == entries;
    }
  }

  /** Write one parameter, if it is to be written; `rest` are the ids still to come. */
  method WriteNext(w: Writer, p: Params, isServer: bool, id: nat, ghost rest: seq<nat>, ghost goal: Bytes)
    returns (ok: bool)
    requires w.Valid() && WellTyped(p) && id <= VINT_MAX && SmallIds(rest) && SmallIds([id] + rest)
    requires w.Written() + Written(p, isServer, [id] + rest) == goal
    modifies w`pos, w.buf
    ensures w.Valid()
    ensures ok ==> w.Written() + Written(p, isServer, rest) == goal
    ensures |goal| <= w.buf.Length ==> ok
  {
    hide ValueWritten, WellTyped, PutVarint, Written;
    WrittenStep(p, isServer, id, rest);
    var v := ValueWritten(p, isServer, id);
    if v.None? {
      return true;
    }
    ghost var tail := Written(p, isServer, rest);
    ok := WriteVarint(w, id, PutVarint(|v.value|, v.value + tail), goal);
    if !ok {
      return;
    }
    ok := WriteVarint(w, |v.value|, v.value + tail, goal);
    if !ok {
      return;
    }
    assert w.Written() + v.value + tail == goal;
    ok := w.Write(v.value);
  }

  lemma SuffixSmall(ids: seq<nat>, k: nat)
    requires SmallIds(ids) && k <= |ids|
    ensures SmallIds(ids[k..])
    ensures k < |ids| ==> ids[k] <= VINT_MAX && [ids[k]] + ids[k + 1..] == ids[k..]
  {
    assert forall i :: k <= i < |ids| ==> ids[i] in ids;
  }

  lemma WrittenEnds(p: Params, isServer: bool)
    requires WellTyped(p)
    ensures SmallIds(ORDER) && SmallIds(ORDER[0..]) && Written(p, isServer, ORDER[0..]) == Encode(p, isServer)
    ensures SmallIds(ORDER[|ORDER|..]) && Written(p, isServer, ORDER[|ORDER|..]) == []
  {
    hide WellTyped;
    OrderDistinct();
    SuffixSmall(ORDER, 0);
    SuffixSmall(ORDER, |ORDER|);
    assert ORDER[0..] == ORDER;
  }

  /** Encode into the buffer, parameter by parameter; it fails if and only if the encoding does not fit. */
  method EncodeParams(p: Params, isServer: bool, buf: array<Byte>) returns (ok: bool, len: nat)
    requires WellTyped(p)
    modifies buf
    ensures ok <==> |Encode(p, isServer)| <= buf.Length
    ensures ok ==> len == |Encode(p, isServer)| && buf[..len] == Encode(p, isServer)
  {
    hide Encode, Written, WellTyped, SmallIds;
    var w := new Writer(buf);
    ghost var goal := Encode(p, isServer);
    WrittenEnds(p, isServer);
    var k, ids := 0, ORDER;
    ok, len := true, 0;
    while k < |ids|
      invariant k <= |ids| && ids == ORDER && SmallIds(ids)
      invariant w.Valid() && w.buf == buf && fresh(w) && ok
      invariant SmallIds(ids[k..]) && w.Written() + Written(p, isServer, ids[k..]) == goal
    {
      SuffixSmall(ids, k);
      SuffixSmall(ids, k + 1);
      ok := WriteNext(w, p, isServer, ids[k], ids[k + 1..], goal);
      if !ok {
        return;
      }
      k := k + 1;
    }
    len := w.pos;
  }
}
