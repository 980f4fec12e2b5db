/**
 The frame encoder and decoder of src/frame.rs as they run: over a buffer with a cursor, with
 loops for padding and for the ranges of an ACK frame.
 */
module FrameCodec {
  import opened Options
  import opened Codec
  import opened Ranges
  import opened AckFrames
  import opened Frames

  // ----- Decoding

  /** Decode the frame at the front of the buffer; what is left tells how much was consumed. */
  method FromBytes(buf: Bytes, pkt: PacketType) returns (r: Read<Frame>)
    requires |buf| < SLICE_LIMIT
    ensures r == Decode(buf, pkt)
  {
    hide ReadVarint, ReadFields, ReadAck;
    var typeField :- ReadVarint(buf);
    var t, b := typeField.0, typeField.1;
    var f: Frame;
    if t == 0x00 {
      var len := SkipPadding(b);
      f, b := Paddings(1 + len), b[len..];
    } else if 0x02 <= t <= 0x03 {
      var ack :- ParseAckFrame(t == 0x03, b);
      f, b := Ack(ack.0), ack.1;
    } else {
      var fields :- ReadFields(t, b);
      f, b := fields.0, fields.1;
    }
    if !Allowed(pkt, f) {
      return Failed(InvalidPacket);
    }
    r := Got(f, b);
  }

  /** The loop that counts padding. */
  method SkipPadding(b: Bytes) returns (len: nat)
    ensures len == LeadingZeros(b)
  {
    len := 0;
    while len < |b| && b[len] == 0
      invariant len <= |b|
      invariant LeadingZeros(b) == len + LeadingZeros(b[len..])
    {
      assert b[len..][1..] == b[len + 1..];
      len := len + 1;
    }
  }

  // ----- Encoding

  /** A buffer that is filled from the front. */
  class Writer {
    const buf: array<Byte>
    var pos: nat

    ghost predicate Valid()
      reads this
    {
      pos <= buf.Length
    }

    /** What was written so far. */
    ghost function Written(): Bytes
      requires Valid()
      reads this, buf
    {
      buf[..pos]
    }

    constructor (buf: array<Byte>)
      ensures Valid() && this.buf == buf && Written() == []
    {
      this.buf := buf;
      pos := 0;
    }

    /** Append bytes, or leave the buffer alone when they do not fit. */
    method Write(bytes: Bytes) returns (ok: bool)
      requires Valid()
      modifies this`pos, buf
      ensures Valid()
      ensures ok <==> old(|Written()|) + |bytes| <= buf.Length
      ensures Written() == if ok then old(Written()) + bytes else old(Written())
      ensures old(pos) <= pos
      ensures forall k :: pos <= k < buf.Length ==> buf[k] == old(buf[k])
    {
      if |bytes| > buf.Length - pos {
        return false;
      }
      forall i | 0 <= i < |bytes| {
        buf[pos + i] := bytes[i];
      }
      pos := pos + |bytes|;
      assert Written() == old(Written()) + bytes;
      ok := true;
    }
  }

  lemma NextVarint(written: Bytes, n: nat, rest: Bytes)
    requires n <= VINT_MAX
    ensures written + PutVarint(n, rest) == written + PutVarint(n, []) + rest
    ensures |PutVarint(n, rest)| == |PutVarint(n, [])| + |rest|
  {
  }

  /** Write one integer; `rest` is what the caller still has to write after it to reach `goal`. */
  method WriteVarint(w: Writer, n: nat, ghost rest: Bytes, ghost goal: Bytes) returns (ok: bool)
    requires w.Valid() && n <= VINT_MAX
    requires w.Written() + PutVarint(n, rest) == goal
    modifies w`pos, w.buf
    ensures w.Valid()
    ensures ok ==> w.Written() + rest == goal
    ensures |goal| <= w.buf.Length ==> ok
    ensures old(w.pos) <= w.pos
    ensures forall k :: w.pos <= k < w.buf.Length ==> w.buf[k] == old(w.buf[k])
  {
    NextVarint(w.Written(), n, rest);
    hide PutVarint;
    ok := w.Write(PutVarint(n, []));
  }

  lemma NextZero(written: Bytes, left: nat)
    requires left > 0
    ensures written + Zeros(left) == written + [0] + Zeros(left - 1)
  {
  }

  lemma NoZeros(written: Bytes)
    ensures written + Zeros(0) == written
  {
  }

  /** The loop that writes padding. */
  method WritePadding(w: Writer, len: nat) returns (ok: bool)
    requires w.Valid()
    modifies w`pos, w.buf
    ensures w.Valid()
    ensures ok ==> w.Written() == old(w.Written()) + Zeros(len)
    ensures old(|w.Written()|) + len <= w.buf.Length ==> ok
    ensures old(w.pos) <= w.pos
    ensures forall k :: w.pos <= k < w.buf.Length ==> w.buf[k] == old(w.buf[k])
  {
    hide Zeros;
    var left := len;
    ghost var goal := w.Written() + Zeros(len);
    while left > 0
      invariant w.Valid()
      invariant w.Written() + Zeros(left) == goal
      invariant old(w.pos) <= w.pos
      invariant forall k :: w.pos <= k < w.buf.Length ==> w.buf[k] == old(w.buf[k])
    {
      NextZero(w.Written(), left);
      ok := w.Write([0]);
      if !ok {
        return;
      }
      left := left - 1;
    }
    NoZeros(w.Written());
    ok := true;
  }

  /** The loop over the lower ranges of an ACK frame. */
  method WriteBlocks(w: Writer, rs: seq<Range>, first: nat, ghost rest: Bytes, ghost goal: Bytes) returns (ok: bool)
    requires w.Valid() && Falling(rs, first) && first <= VINT_MAX
    requires w.Written() + PutBlocks(rs, first, rest) == goal
    modifies w`pos, w.buf
    ensures w.Valid()
    ensures ok ==> w.Written() + rest == goal
    ensures |goal| <= w.buf.Length ==> ok
    ensures old(w.pos) <= w.pos
    ensures forall k :: w.pos <= k < w.buf.Length ==> w.buf[k] == old(w.buf[k])
  {
    hide PutVarint;
    var smallest: nat := first;
    var i := 0;
    while i < |rs|
      invariant w.Valid() && i <= |rs|
      invariant Falling(rs[i..], smallest) && smallest <= VINT_MAX
      invariant w.Written() + PutBlocks(rs[i..], smallest, rest) == goal
      invariant old(w.pos) <= w.pos
      invariant forall k :: w.pos <= k < w.buf.Length ==> w.buf[k] == old(w.buf[k])
    {
      var r := rs[i];
      assert rs[i..][0] == r && rs[i..][1..] == rs[i + 1..];
      ghost var lower := PutBlocks(rs[i + 1..], r.start, rest);
      var gap, len := smallest - r.end - 1, r.end - 1 - r.start;
      ok := WriteVarint(w, gap, PutVarint(len, lower), goal);
      if !ok {
        return;
      }
      ok := WriteVarint(w, len, lower, goal);
      if !ok {
        return;
      }
      smallest, i := r.start, i + 1;
    }
    ok := true;
  }

  method WriteCounts(w: Writer, ecn: Option<EcnCounts>, ghost goal: Bytes) returns (ok: bool)
    requires w.Valid() && EncodableCounts(ecn)
    requires w.Written() + PutCounts(ecn, []) == goal
    modifies w`pos, w.buf
    ensures w.Valid()
    ensures ok ==> w.Written() == goal
    ensures |goal| <= w.buf.Length ==> ok
    ensures old(w.pos) <= w.pos
    ensures forall k :: w.pos <= k < w.buf.Length ==> w.buf[k] == old(w.buf[k])
  {
    hide PutVarint;
    if ecn == None {
      assert w.Written() + [] == w.Written();
      return true;
    }
    var c := ecn.value;
    ok := WriteVarint(w, c.ect0, PutVarint(c.ect1, PutVarint(c.ce, [])), goal);
    if ok {
      ok := WriteVarint(w, c.ect1, PutVarint(c.ce, []), goal);
    }
    if ok {
      ok := WriteVarint(w, c.ce, [], goal);
    }
    assert w.Written() + [] == w.Written();
  }

  /** The fields of an ACK frame up to its first range. */
  method WriteAckHeader(w: Writer, t: nat, delay: nat, count: nat, first: Range, ghost rest: Bytes, ghost goal: Bytes)
    returns (ok: bool)
    requires w.Valid() && t <= VINT_MAX && delay <= VINT_MAX && count <= VINT_MAX
    requires first.start < first.end <= VINT_MAX + 1
    requires
      goal == w.Written() +
      PutVarint(t, PutVarint(first.end - 1, PutVarint(delay, PutVarint(count, PutVarint(first.end - 1 - first.start, rest)))))
    modifies w`pos, w.buf
    ensures w.Valid()
    ensures ok ==> w.Written() + rest == goal
    ensures |goal| <= w.buf.Length ==> ok
    ensures old(w.pos) <= w.pos
    ensures forall k :: w.pos <= k < w.buf.Length ==> w.buf[k] == old(w.buf[k])
  {
    hide PutVarint;
    var len := first.end - 1 - first.start;
    ghost var b3 := PutVarint(len, rest);
    ghost var b2 := PutVarint(count, b3);
    ghost var b1 := PutVarint(delay, b2);
    ok := WriteVarint(w, t, PutVarint(first.end - 1, b1), goal);
    if ok {
      ok := WriteVarint(w, first.end - 1, b1, goal);
    }
    if ok {
      ok := WriteVarint(w, delay, b2, goal);
    }
    if ok {
      ok := WriteVarint(w, count, b3, goal);
    }
    if ok {
      ok := WriteVarint(w, len, rest, goal);
    }
  }

  /** An ACK frame, whose ranges are visited from the highest to the lowest. */
  method WriteAck(w: Writer, a: AckFields) returns (ok: bool)
    requires w.Valid() && EncodableAck(a)
    modifies w`pos, w.buf
    ensures w.Valid()
    ensures ok ==> w.Written() == old(w.Written()) + PutFrame(Ack(a), [])
    ensures old(|w.Written()|) + |PutFrame(Ack(a), [])| <= w.buf.Length ==> ok
    ensures old(w.pos) <= w.pos
    ensures forall k :: w.pos <= k < w.buf.Length ==> w.buf[k] == old(w.buf[k])
  {
    hide PutVarint, PutBlocks, PutCounts, ReadAck, Normal, Descending;
    AckRoundTrip(a, []);
    ghost var goal := w.Written() + PutFrame(Ack(a), []);
    var rs := Descending(a.ranges);
    FallingLength(rs[1..], rs[0].start);
    ghost var counts := PutCounts(a.ecn, []);
    ghost var blocks := PutBlocks(rs[1..], rs[0].start, counts);
    ok := WriteAckHeader(w, if a.ecn == None then 0x02 else 0x03, a.delay, |rs| - 1, rs[0], blocks, goal);
    if ok {
      ok := WriteBlocks(w, rs[1..], rs[0].start, counts, goal);
    }
    if ok {
      ok := WriteCounts(w, a.ecn, goal);
    }
  }

  /**
   Encode a frame at the front of the buffer. It fails exactly when the frame is longer than
   the buffer, and otherwise writes the bytes of the frame and nothing else.
   */
  method ToBytes(f: Frame, buf: array<Byte>) returns (len: Option<nat>)
    requires Encodable(f)
    modifies buf
    ensures len == None <==> WireLen(f) > buf.Length
    ensures len.Some? ==>
      && len.value == WireLen(f)
      && buf[..len.value] == PutFrame(f, [])
      && buf[len.value..] == old(buf[..])[len.value..]
  {
    hide PutBody, WireLen;
    var w := new Writer(buf);
    WireLenExact(f, []);
    var ok: bool;
    if f.Paddings? {
      ok := WritePadding(w, f.len);
      assert PutFrame(f, []) == Zeros(f.len);
    } else if f.Ack? {
      ok := WriteAck(w, f.ack);
    } else {
      ok := w.Write(PutFrame(f, []));
    }
    if !ok {
      return None;
    }
    assert w.Written() == PutFrame(f, []);
    len := Some(w.pos);
  }
}
