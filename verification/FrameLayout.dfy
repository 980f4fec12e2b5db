/**
 The wire layout of the frames, sections 19.3 to 19.20 of RFC 9000: what the decoder of
 src/frame.rs makes of each sequence of fields, with the types written as numbers.
 */
module FrameLayouts {
  import opened AckFrames
  import opened Codec
  import opened Frames
  import opened Options
  import opened Ranges

  /** The bytes given are those of a frame the encoder could have sent. */
  lemma DecodesAs(buf: Bytes, f: Frame, suffix: Bytes)
    requires Transmittable(f) && !f.Paddings? && buf == PutFrame(f, suffix)
    ensures Decode(buf, OneRTT) == Got(f, suffix)
  {
    hide Decode, PutFrame;
    FrameRoundTrip(f, OneRTT, suffix);
    ZeroRttFrames(f);
  }

  /** The credit frames, of one integer. */
  lemma CreditLayout(x: nat, suffix: Bytes)
    requires x <= VINT_MAX
    ensures Decode(PutVarint(0x10, PutVarint(x, suffix)), OneRTT) == Got(MaxData(x), suffix)
    ensures Decode(PutVarint(0x12, PutVarint(x, suffix)), OneRTT) == Got(MaxStreams(true, x), suffix)
    ensures Decode(PutVarint(0x13, PutVarint(x, suffix)), OneRTT) == Got(MaxStreams(false, x), suffix)
    ensures Decode(PutVarint(0x19, PutVarint(x, suffix)), OneRTT) == Got(RetireConnectionId(x), suffix)
  {
    hide Decode, PutVarint, PutAckBody;
    DecodesAs(PutVarint(0x10, PutVarint(x, suffix)), MaxData(x), suffix);
    DecodesAs(PutVarint(0x12, PutVarint(x, suffix)), MaxStreams(true, x), suffix);
    DecodesAs(PutVarint(0x13, PutVarint(x, suffix)), MaxStreams(false, x), suffix);
    DecodesAs(PutVarint(0x19, PutVarint(x, suffix)), RetireConnectionId(x), suffix);
  }

  /** The frames of a sender that is blocked. */
  lemma BlockedLayout(x: nat, y: nat, suffix: Bytes)
    requires x <= VINT_MAX && y <= VINT_MAX
    ensures Decode(PutVarint(0x14, PutVarint(x, suffix)), OneRTT) == Got(DataBlocked(x), suffix)
    ensures Decode(PutVarint(0x15, PutVarint(x, PutVarint(y, suffix))), OneRTT) == Got(StreamDataBlocked(x, y), suffix)
    ensures Decode(PutVarint(0x16, PutVarint(x, suffix)), OneRTT) == Got(StreamsBlocked(true, x), suffix)
    ensures Decode(PutVarint(0x17, PutVarint(x, suffix)), OneRTT) == Got(StreamsBlocked(false, x), suffix)
  {
    hide Decode, PutVarint, PutAckBody;
    DecodesAs(PutVarint(0x14, PutVarint(x, suffix)), DataBlocked(x), suffix);
    DecodesAs(PutVarint(0x15, PutVarint(x, PutVarint(y, suffix))), StreamDataBlocked(x, y), suffix);
    DecodesAs(PutVarint(0x16, PutVarint(x, suffix)), StreamsBlocked(true, x), suffix);
    DecodesAs(PutVarint(0x17, PutVarint(x, suffix)), StreamsBlocked(false, x), suffix);
  }

  /** The frames about one stream or path. */
  lemma StreamControlLayout(x: nat, y: nat, z: nat, suffix: Bytes)
    requires x <= VINT_MAX && y <= VINT_MAX && z <= VINT_MAX
    ensures
      Decode(PutVarint(0x04, PutVarint(x, PutVarint(y, PutVarint(z, suffix)))), OneRTT) ==
      Got(ResetStream(x, y, z), suffix)
    ensures Decode(PutVarint(0x05, PutVarint(x, PutVarint(y, suffix))), OneRTT) == Got(StopSending(x, y), suffix)
    ensures Decode(PutVarint(0x11, PutVarint(x, PutVarint(y, suffix))), OneRTT) == Got(MaxStreamData(x, y), suffix)
    ensures
      Decode(PutVarint(0x15228c06, PutVarint(x, PutVarint(y, PutVarint(z, suffix)))), OneRTT) ==
      Got(PathStatus(x, y, z), suffix)
  {
    hide Decode, PutVarint, PutAckBody;
    DecodesAs(PutVarint(0x04, PutVarint(x, PutVarint(y, PutVarint(z, suffix)))), ResetStream(x, y, z), suffix);
    DecodesAs(PutVarint(0x05, PutVarint(x, PutVarint(y, suffix))), StopSending(x, y), suffix);
    DecodesAs(PutVarint(0x11, PutVarint(x, PutVarint(y, suffix))), MaxStreamData(x, y), suffix);
    DecodesAs(PutVarint(0x15228c06, PutVarint(x, PutVarint(y, PutVarint(z, suffix)))), PathStatus(x, y, z), suffix);
  }

  /** The frames that end in a reason, which has its length in front. */
  lemma CloseLayout(x: nat, y: nat, reason: Bytes, suffix: Bytes)
    requires x <= VINT_MAX && y <= VINT_MAX && |reason| <= VINT_MAX
    ensures
      Decode(PutVarint(0x1c, PutVarint(x, PutVarint(y, PutVarint(|reason|, reason + suffix)))), OneRTT) ==
      Got(ConnectionClose(x, y, reason), suffix)
    ensures
      Decode(PutVarint(0x1d, PutVarint(x, PutVarint(|reason|, reason + suffix))), OneRTT) ==
      Got(ApplicationClose(x, reason), suffix)
    ensures
      Decode(PutVarint(0x15228c05, PutVarint(x, PutVarint(y, PutVarint(|reason|, reason + suffix)))), OneRTT) ==
      Got(PathAbandon(x, y, reason), suffix)
  {
    hide Decode, PutVarint, PutAckBody;
    var tail := PutVarint(x, PutVarint(y, PutVarint(|reason|, reason + suffix)));
    DecodesAs(PutVarint(0x1c, tail), ConnectionClose(x, y, reason), suffix);
    DecodesAs(PutVarint(0x1d, PutVarint(x, PutVarint(|reason|, reason + suffix))), ApplicationClose(x, reason), suffix);
    DecodesAs(PutVarint(0x15228c05, tail), PathAbandon(x, y, reason), suffix);
  }

  /** A token or a datagram has its length in front. */
  lemma StringLayout(data: Bytes, suffix: Bytes)
    requires |data| <= VINT_MAX
    ensures Decode(PutVarint(0x07, PutVarint(|data|, data + suffix)), OneRTT) == Got(NewToken(data), suffix)
    ensures Decode(PutVarint(0x31, PutVarint(|data|, data + suffix)), OneRTT) == Got(Datagram(data), suffix)
  {
    hide Decode, PutVarint, PutAckBody;
    DecodesAs(PutVarint(0x07, PutVarint(|data|, data + suffix)), NewToken(data), suffix);
    DecodesAs(PutVarint(0x31, PutVarint(|data|, data + suffix)), Datagram(data), suffix);
  }

  /** A challenge and its response are eight bytes; two frames are their type alone. */
  lemma ChallengeLayout(data: Bytes, suffix: Bytes)
    requires |data| == 8
    ensures Decode(PutVarint(0x1a, data + suffix), OneRTT) == Got(PathChallenge(data), suffix)
    ensures Decode(PutVarint(0x1b, data + suffix), OneRTT) == Got(PathResponse(data), suffix)
    ensures Decode(PutVarint(0x01, suffix), OneRTT) == Got(Ping(None), suffix)
    ensures Decode(PutVarint(0x1e, suffix), OneRTT) == Got(HandshakeDone, suffix)
  {
    hide Decode, PutVarint, PutAckBody;
    DecodesAs(PutVarint(0x1a, data + suffix), PathChallenge(data), suffix);
    DecodesAs(PutVarint(0x1b, data + suffix), PathResponse(data), suffix);
    DecodesAs(PutVarint(0x01, suffix), Ping(None), suffix);
    DecodesAs(PutVarint(0x1e, suffix), HandshakeDone, suffix);
  }

  /** A new connection id comes after its number and the number to retire up to, before its token. */
  lemma NewConnectionIdLayout(seqNum: nat, retire: nat, cid: Bytes, token: Bytes, suffix: Bytes)
    requires seqNum <= VINT_MAX && retire <= VINT_MAX && |cid| <= 20 && |token| == 16
    ensures
      Decode(PutVarint(0x18, PutVarint(seqNum, PutVarint(retire, [|cid|] + (cid + (token + suffix))))), OneRTT) ==
      Got(NewConnectionId(seqNum, retire, cid, token), suffix)
  {
    hide Decode, PutVarint, PutAckBody;
    var tail := PutVarint(seqNum, PutVarint(retire, [|cid|] + (cid + (token + suffix))));
    DecodesAs(PutVarint(0x18, tail), NewConnectionId(seqNum, retire, cid, token), suffix);
  }

  // ----- Acknowledgements

  lemma TwoRangesRead(smallest: nat, top: nat, gap: nat, len: nat, tail: Bytes)
    requires gap <= VINT_MAX && len <= VINT_MAX
    ensures
      ReadBlocks(PutVarint(gap, PutVarint(len, tail)), 1, smallest, [Range(smallest, top)]) ==
      if smallest < gap + 2 + len then Failed(FrameEncodingError)
      else Got([Range(smallest, top), Range(smallest - gap - 2 - len, smallest - gap - 1)], tail)
  {
    hide ReadVarint, PutVarint;
    VarintRoundTrip(gap, PutVarint(len, tail));
    VarintRoundTrip(len, tail);
    var b := PutVarint(gap, PutVarint(len, tail));
    if smallest >= gap + 2 + len {
      var r := Range(smallest - gap - 2 - len, smallest - gap - 1);
      assert ReadRange(b, smallest) == Got(r, tail);
      assert [Range(smallest, top)] + [r] == [Range(smallest, top), r];
    }
  }

  lemma TwoRangesMap(r: Range, q: Range)
    ensures ToMap([r, q]) == map[q.start := q.end][r.start := r.end]
  {
    assert [r, q][1..] == [q] && [q][1..] == [];
    assert ToMap([q]) == ToMap([])[q.start := q.end] == map[q.start := q.end];
  }

  /**
   An ACK frame of two ranges with ECN counts: the largest number, the delay, the number of
   further ranges, the length of the first less one, then the gap less one and the length less
   one of the other. A range that would go below zero is an error.
   */
  lemma AckLayout(
    largest: nat, delay: nat, first: nat, gap: nat, len: nat, ect0: nat, ect1: nat, ce: nat, suffix: Bytes,
    pkt: PacketType)
    requires largest <= VINT_MAX && delay <= VINT_MAX && first <= VINT_MAX && gap <= VINT_MAX && len <= VINT_MAX
    requires ect0 <= VINT_MAX && ect1 <= VINT_MAX && ce <= VINT_MAX && pkt != ZeroRTT
    ensures
      var counts := PutVarint(ect0, PutVarint(ect1, PutVarint(ce, suffix)));
      var ranges := PutVarint(first, PutVarint(gap, PutVarint(len, counts)));
      Decode(PutVarint(0x03, PutVarint(largest, PutVarint(delay, PutVarint(1, ranges)))), pkt) ==
      if largest < first + gap + 2 + len then Failed(FrameEncodingError)
      else
        var high, low := largest - first, largest - first - gap - 2 - len;
        var acked := map[low := low + len + 1, high := largest + 1];
        Got(Ack(AckFields(delay, acked, Some(EcnCounts(ect0, ect1, ce)))), suffix)
  {
    hide ReadVarint, PutVarint, ReadBlocks, ToMap;
    var counts := PutVarint(ect0, PutVarint(ect1, PutVarint(ce, suffix)));
    var ranges := PutVarint(first, PutVarint(gap, PutVarint(len, counts)));
    var b := PutVarint(largest, PutVarint(delay, PutVarint(1, ranges)));
    VarintRoundTrip(0x03, b);
    VarintRoundTrip(largest, PutVarint(delay, PutVarint(1, ranges)));
    VarintRoundTrip(delay, PutVarint(1, ranges));
    VarintRoundTrip(1, ranges);
    VarintRoundTrip(first, PutVarint(gap, PutVarint(len, counts)));
    CountsRoundTrip(Some(EcnCounts(ect0, ect1, ce)), suffix);
    if first <= largest {
      var high := largest - first;
      TwoRangesRead(high, largest + 1, gap, len, counts);
      if largest >= first + gap + 2 + len {
        TwoRangesMap(Range(high, largest + 1), Range(high - gap - 2 - len, high - gap - 1));
      }
    }
  }
}
