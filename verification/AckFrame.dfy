/**
 ACK frames, section 19.3 of RFC 9000: the encoder and `parse_ack_frame` of src/frame.rs.

 The ranges travel from the highest to the lowest, each as the gap to its predecessor and its
 length. The encoder subtracts without a check; the normal form of range sets is what makes
 the subtractions safe.
 */
module AckFrames {
  import opened Options
  import opened Codec
  import opened Ranges

  datatype EcnCounts = EcnCounts(ect0: nat, ect1: nat, ce: nat)

  datatype AckFields = AckFields(delay: nat, ranges: RangeMap, ecn: Option<EcnCounts>)

  // ----- Range sets, listed from the highest range to the lowest

  /** Non-empty ranges, each ending before the one listed earlier starts, and the first before `x`. */
  ghost predicate Falling(rs: seq<Range>, x: nat) {
    rs == [] || (rs[0].start < rs[0].end < x && Falling(rs[1..], rs[0].start))
  }

  /** Every range ends before `x`, with a gap. */
  ghost predicate Below(m: RangeMap, x: nat) {
    forall s :: s in m ==> m[s] < x
  }

  function Descending(m: RangeMap): (rs: seq<Range>)
    ensures |rs| == |m|
    decreases |m|
  {
    if m == map[] then []
    else
      var s := Largest(m.Keys);
      assert (m - {s}).Keys == m.Keys - {s};
      [Range(s, m[s])] + Descending(m - {s})
  }

  function ToMap(rs: seq<Range>): RangeMap {
    if rs == [] then map[] else ToMap(rs[1..])[rs[0].start := rs[0].end]
  }

  lemma DescendingStep(m: RangeMap, s: nat)
    requires m != map[] && s == Largest(m.Keys)
    ensures Descending(m) == [Range(s, m[s])] + Descending(m - {s})
    ensures |m - {s}| < |m|
  {
    assert (m - {s}).Keys == m.Keys - {s};
  }

  lemma RestBelow(m: RangeMap, s: nat)
    requires Normal(m) && s in m && forall t :: t in m ==> t <= s
    ensures Normal(m - {s}) && Below(m - {s}, s)
  {
    SubmapNormal(m, m - {s});
  }

  /** Listing a set in normal form gives falling ranges. */
  lemma {:induction false} DescendingIsFalling(m: RangeMap, x: nat)
    requires Normal(m) && Below(m, x)
    ensures Falling(Descending(m), x)
    decreases |m|
  {
    if m != map[] {
      var s := Largest(m.Keys);
      DescendingStep(m, s);
      RestBelow(m, s);
      hide Descending, Largest, Normal;
      DescendingIsFalling(m - {s}, s);
      assert Descending(m)[1..] == Descending(m - {s});
    }
  }

  /** The list determines the set. */
  lemma {:induction false} DescendingToMap(m: RangeMap)
    ensures ToMap(Descending(m)) == m
    decreases |m|
  {
    if m != map[] {
      var s := Largest(m.Keys);
      DescendingStep(m, s);
      hide Descending, Largest;
      DescendingToMap(m - {s});
      assert Descending(m)[1..] == Descending(m - {s});
      assert (m - {s})[s := m[s]] == m;
    }
  }

  /** Falling ranges form a set in normal form. */
  lemma {:induction false} FallingIsNormal(rs: seq<Range>, x: nat)
    requires Falling(rs, x)
    ensures Normal(ToMap(rs)) && Below(ToMap(rs), x) && |ToMap(rs)| == |rs|
    ensures rs != [] ==> rs[0].start in ToMap(rs) && forall s :: s in ToMap(rs) ==> s <= rs[0].start
    decreases |rs|
  {
    hide Elements;
    if rs != [] {
      FallingIsNormal(rs[1..], rs[0].start);
      AddOne(ToMap(rs[1..]), rs[0].start, rs[0].end);
    }
  }

  lemma {:induction false} FallingAppend(rs: seq<Range>, x: nat, r: Range)
    requires rs != [] && Falling(rs, x) && r.start < r.end < rs[|rs| - 1].start
    ensures Falling(rs + [r], x)
    ensures ToMap(rs + [r]) == ToMap(rs)[r.start := r.end]
    ensures forall s :: s in ToMap(rs) ==> r.end < s
    decreases |rs|
  {
    assert (rs + [r])[1..] == rs[1..] + [r];
    if |rs| == 1 {
      assert rs[1..] + [r] == [r];
      assert Falling([r], rs[0].start) by {
        assert [r][1..] == [];
      }
      assert ToMap([r]) == map[r.start := r.end] by {
        assert [r][1..] == [];
      }
    } else {
      FallingAppend(rs[1..], rs[0].start, r);
      assert rs[1].start in ToMap(rs[1..]);
      assert r.end < rs[0].start;
    }
    assert ToMap(rs)[r.start := r.end] == ToMap(rs[1..])[r.start := r.end][rs[0].start := rs[0].end];
  }

  lemma OneFalls(r: Range)
    requires r.start < r.end
    ensures Falling([r], r.end + 1)
  {
    assert [r][1..] == [];
  }

  // ----- Encoding

  ghost predicate EncodableCounts(ecn: Option<EcnCounts>) {
    ecn.Some? ==> ecn.value.ect0 <= VINT_MAX && ecn.value.ect1 <= VINT_MAX && ecn.value.ce <= VINT_MAX
  }

  /** What the encoder expects: a non-empty set in normal form, and fields that fit a varint. */
  ghost predicate EncodableAck(a: AckFields) {
    && a.delay <= VINT_MAX
    && a.ranges != map[]
    && Normal(a.ranges)
    && Below(a.ranges, VINT_MAX + 2)
    && EncodableCounts(a.ecn)
  }

  /** The lower ranges, given the smallest number of the range before them. */
  function PutBlocks(rs: seq<Range>, smallest: nat, tail: Bytes): Bytes
    requires Falling(rs, smallest) && smallest <= VINT_MAX
    decreases |rs|
  {
    if rs == [] then tail
    else
      PutVarint(smallest - rs[0].end - 1,
      PutVarint(rs[0].end - 1 - rs[0].start,
      PutBlocks(rs[1..], rs[0].start, tail)))
  }

  function PutCounts(ecn: Option<EcnCounts>, tail: Bytes): Bytes
    requires EncodableCounts(ecn)
  {
    match ecn
    case None => tail
    case Some(c) => PutVarint(c.ect0, PutVarint(c.ect1, PutVarint(c.ce, tail)))
  }

  lemma {:induction false} FallingLength(rs: seq<Range>, x: nat)
    requires Falling(rs, x)
    ensures |rs| <= x
    decreases |rs|
  {
    if rs != [] {
      FallingLength(rs[1..], rs[0].start);
    }
  }

  /** An ACK frame without its type, for the listed ranges. */
  function PutAck(delay: nat, rs: seq<Range>, ecn: Option<EcnCounts>, tail: Bytes): Bytes
    requires rs != [] && Falling(rs, VINT_MAX + 2) && delay <= VINT_MAX && EncodableCounts(ecn)
  {
    var first := rs[0];
    FallingLength(rs[1..], first.start);
    PutVarint(first.end - 1,
    PutVarint(delay,
    PutVarint(|rs| - 1,
    PutVarint(first.end - 1 - first.start,
    PutBlocks(rs[1..], first.start,
    PutCounts(ecn, tail))))))
  }

  // ----- Decoding

  /** The next lower range, from its gap and length fields. */
  function ReadRange(b: Bytes, smallest: nat): (r: Read<Range>)
    ensures r.Got? ==> r.value.start < r.value.end < smallest && |r.rest| < |b|
  {
    var (gap, b) :- ReadVarint(b);
    if smallest < 2 + gap then Failed(FrameEncodingError)
    else
      var largest := smallest - gap - 2;
      var (len, b) :- ReadVarint(b);
      if largest < len then Failed(FrameEncodingError)
      else Got(Range(largest - len, largest + 1), b)
  }

  /** The remaining ranges, appended to those already read. */
  function ReadBlocks(b: Bytes, count: nat, smallest: nat, read: seq<Range>): Read<seq<Range>>
    decreases count
  {
    if count == 0 then Got(read, b)
    else
      var (r, b) :- ReadRange(b, smallest);
      ReadBlocks(b, count - 1, r.start, read + [r])
  }

  function ReadCounts(hasCounts: bool, b: Bytes): Read<Option<EcnCounts>> {
    if !hasCounts then Got(None, b)
    else
      var (ect0, b) :- ReadVarint(b);
      var (ect1, b) :- ReadVarint(b);
      var (ce, b) :- ReadVarint(b);
      Got(Some(EcnCounts(ect0, ect1, ce)), b)
  }

  function ReadAck(hasCounts: bool, b: Bytes): Read<AckFields> {
    var (largest, b) :- ReadVarint(b);
    var (delay, b) :- ReadVarint(b);
    var (count, b) :- ReadVarint(b);
    var (len, b) :- ReadVarint(b);
    if largest < len then Failed(FrameEncodingError)
    else
      var (rs, b) :- ReadBlocks(b, count, largest - len, [Range(largest - len, largest + 1)]);
      var (ecn, b) :- ReadCounts(hasCounts, b);
      Got(AckFields(delay, ToMap(rs), ecn), b)
  }

  // ----- Round trip

  lemma RangeRoundTrip(r: Range, smallest: nat, tail: Bytes)
    requires r.start < r.end < smallest <= VINT_MAX
    ensures ReadRange(PutVarint(smallest - r.end - 1, PutVarint(r.end - 1 - r.start, tail)), smallest) == Got(r, tail)
  {
    hide ReadVarint, PutVarint;
    VarintRoundTrip(smallest - r.end - 1, PutVarint(r.end - 1 - r.start, tail));
    VarintRoundTrip(r.end - 1 - r.start, tail);
  }

  /** A gap that would go below zero is an encoding error, whatever follows it. */
  lemma GapTooLarge(gap: nat, smallest: nat, tail: Bytes)
    requires gap <= VINT_MAX && smallest < gap + 2
    ensures ReadRange(PutVarint(gap, tail), smallest) == Failed(FrameEncodingError)
  {
    hide ReadVarint, PutVarint;
    VarintRoundTrip(gap, tail);
  }

  lemma {:induction false} BlocksRoundTrip(rs: seq<Range>, smallest: nat, tail: Bytes, read: seq<Range>)
    requires Falling(rs, smallest) && smallest <= VINT_MAX
    ensures ReadBlocks(PutBlocks(rs, smallest, tail), |rs|, smallest, read) == Got(read + rs, tail)
    decreases |rs|
  {
    hide PutVarint, ReadRange;
    if rs == [] {
      assert read + rs == read;
    } else {
      RangeRoundTrip(rs[0], smallest, PutBlocks(rs[1..], rs[0].start, tail));
      BlocksRoundTrip(rs[1..], rs[0].start, tail, read + [rs[0]]);
      assert read + [rs[0]] + rs[1..] == read + rs;
    }
  }

  lemma CountsRoundTrip(ecn: Option<EcnCounts>, tail: Bytes)
    requires EncodableCounts(ecn)
    ensures ReadCounts(ecn.Some?, PutCounts(ecn, tail)) == Got(ecn, tail)
  {
    hide ReadVarint, PutVarint;
    if ecn.Some? {
      var c := ecn.value;
      VarintRoundTrip(c.ect0, PutVarint(c.ect1, PutVarint(c.ce, tail)));
      VarintRoundTrip(c.ect1, PutVarint(c.ce, tail));
      VarintRoundTrip(c.ce, tail);
    }
  }

  lemma AckListRoundTrip(delay: nat, rs: seq<Range>, ecn: Option<EcnCounts>, tail: Bytes)
    requires rs != [] && Falling(rs, VINT_MAX + 2) && delay <= VINT_MAX && EncodableCounts(ecn)
    ensures ReadAck(ecn.Some?, PutAck(delay, rs, ecn, tail)) == Got(AckFields(delay, ToMap(rs), ecn), tail)
  {
    hide ReadVarint, PutVarint, ReadBlocks, PutBlocks, ReadCounts, PutCounts, ToMap;
    var first, counts := rs[0], PutCounts(ecn, tail);
    FallingLength(rs[1..], first.start);
    var b4 := PutBlocks(rs[1..], first.start, counts);
    var b3 := PutVarint(first.end - 1 - first.start, b4);
    var b2 := PutVarint(|rs| - 1, b3);
    var b1 := PutVarint(delay, b2);
    VarintRoundTrip(first.end - 1, b1);
    VarintRoundTrip(delay, b2);
    VarintRoundTrip(|rs| - 1, b3);
    VarintRoundTrip(first.end - 1 - first.start, b4);
    BlocksRoundTrip(rs[1..], first.start, counts, [first]);
    CountsRoundTrip(ecn, tail);
    assert [first] + rs[1..] == rs;
  }

  /** The parser rebuilds exactly the ranges, the delay and the counts that were encoded. */
  lemma AckRoundTrip(a: AckFields, tail: Bytes)
    requires EncodableAck(a)
    ensures Descending(a.ranges) != [] && Falling(Descending(a.ranges), VINT_MAX + 2)
    ensures ReadAck(a.ecn.Some?, PutAck(a.delay, Descending(a.ranges), a.ecn, tail)) == Got(a, tail)
  {
    hide ReadAck, PutAck;
    DescendingIsFalling(a.ranges, VINT_MAX + 2);
    DescendingToMap(a.ranges);
    AckListRoundTrip(a.delay, Descending(a.ranges), a.ecn, tail);
  }

  // ----- What the parser accepts

  lemma {:induction false} BlocksFall(b: Bytes, count: nat, smallest: nat, read: seq<Range>, x: nat)
    requires read != [] && Falling(read, x) && read[|read| - 1].start == smallest
    requires ReadBlocks(b, count, smallest, read).Got?
    ensures Falling(ReadBlocks(b, count, smallest, read).value, x)
    ensures read <= ReadBlocks(b, count, smallest, read).value
    decreases count
  {
    hide ReadRange;
    if count > 0 {
      var r := ReadRange(b, smallest);
      FallingAppend(read, x, r.value);
      BlocksFall(r.rest, count - 1, r.value.start, read + [r.value], x);
    }
  }

  /**
   Every frame the parser accepts yields an encodable set in normal form whose largest element
   is the Largest Acknowledged field.
   */
  lemma AcceptedAckIsNormal(hasCounts: bool, b: Bytes)
    ensures
      ReadAck(hasCounts, b).Got? ==>
        var a, largest := ReadAck(hasCounts, b).value, ReadVarint(b).value;
        && EncodableAck(a)
        && Has(a.ranges, largest)
        && (forall x: nat :: Has(a.ranges, x) ==> x <= largest)
        && a.ecn.Some? == hasCounts
  {
    hide ReadVarint, ReadBlocks;
    if ReadAck(hasCounts, b).Got? {
      var largest := ReadVarint(b);
      var delay := ReadVarint(largest.rest);
      var count := ReadVarint(delay.rest);
      var len := ReadVarint(count.rest);
      var r := Range(largest.value - len.value, largest.value + 1);
      OneFalls(r);
      BlocksFall(len.rest, count.value, r.start, [r], r.end + 1);
      var rs := ReadBlocks(len.rest, count.value, r.start, [r]).value;
      assert rs[0] == [r][0];
      FallingIsNormal(rs, r.end + 1);
      assert ToMap(rs)[r.start] == r.end;
      assert Has(ToMap(rs), largest.value);
    }
  }

  // ----- The parser

  /** A Rust slice holds fewer than 2^63 bytes, and a range set by default 2^64 - 1 ranges. */
  const SLICE_LIMIT: nat := 0x8000_0000_0000_0000
  const DEFAULT_CAPACITY: nat := 0xffff_ffff_ffff_ffff

  /** `m` is the set of the ranges read so far, which fall from below `x` down to `smallest`. */
  ghost predicate Built(m: RangeMap, read: seq<Range>, x: nat, smallest: nat) {
    && m == ToMap(read)
    && Falling(read, x)
    && read != []
    && read[|read| - 1].start == smallest
  }

  /** Inserting the next lower range. */
  lemma BuiltNext(m: RangeMap, read: seq<Range>, x: nat, smallest: nat, r: Range, after: RangeMap)
    requires Built(m, read, x, smallest) && r.start < r.end < smallest
    requires |read| < DEFAULT_CAPACITY
    requires Normal(after) && Elements(after) == AfterInsert(m, DEFAULT_CAPACITY, r.start, r.end)
    ensures Built(after, read + [r], x, r.start)
  {
    FallingAppend(read, x, r);
    FallingIsNormal(read, x);
    InsertApart(m, DEFAULT_CAPACITY, r.start, r.end, after);
  }

  lemma BuiltMap(m: RangeMap, read: seq<Range>, x: nat, smallest: nat)
    requires Built(m, read, x, smallest)
    ensures m == ToMap(read)
  {
  }

  lemma BuiltFirst(r: Range, after: RangeMap)
    requires r.start < r.end
    requires Normal(after) && Elements(after) == AfterInsert(map[], DEFAULT_CAPACITY, r.start, r.end)
    ensures Built(after, [r], r.end + 1, r.start)
  {
    InsertApart(map[], DEFAULT_CAPACITY, r.start, r.end, after);
    OneFalls(r);
    assert [r][1..] == [];
  }

  /** After `read`, with `left` ranges still to come at `b`, the outcome is still that of the whole. */
  ghost predicate Reached(buf: Bytes, count: nat, first: Range, b: Bytes, left: nat, smallest: nat, read: seq<Range>) {
    ReadBlocks(b, left, smallest, read) == ReadBlocks(buf, count, first.start, [first])
  }

  lemma ReachedStart(buf: Bytes, count: nat, first: Range)
    ensures Reached(buf, count, first, buf, count, first.start, [first])
  {
  }

  lemma ReachedNext(buf: Bytes, count: nat, first: Range, b: Bytes, left: nat, smallest: nat, read: seq<Range>)
    requires Reached(buf, count, first, b, left, smallest, read) && 0 < left
    ensures
      match ReadRange(b, smallest)
      case Failed(e) => ReadBlocks(buf, count, first.start, [first]) == Failed(e)
      case Got(r, rest) => Reached(buf, count, first, rest, left - 1, r.start, read + [r])
  {
    hide ReadRange;
  }

  lemma ReachedEnd(buf: Bytes, count: nat, first: Range, b: Bytes, smallest: nat, read: seq<Range>)
    requires Reached(buf, count, first, b, 0, smallest, read)
    ensures ReadBlocks(buf, count, first.start, [first]) == Got(read, b)
  {
  }

  /** The loop of the parser, which inserts each range into the range set. */
  method ParseBlocks(ranges: RangeSet, buf: Bytes, count: nat, first: Range)
    returns (rest: Read<()>, ghost read: seq<Range>)
    requires ranges.Valid() && ranges.capacity == DEFAULT_CAPACITY
    requires Built(ranges.ranges, [first], first.end + 1, first.start)
    requires |buf| < SLICE_LIMIT
    modifies ranges
    ensures rest.Got? ==> ReadBlocks(buf, count, first.start, [first]) == Got(read, rest.rest)
    ensures rest.Got? ==> ranges.ranges == ToMap(read)
    ensures rest.Failed? ==> ReadBlocks(buf, count, first.start, [first]) == Failed(rest.error)
  {
    hide Reached, Built, ReadRange, ReadBlocks, Elements, AfterInsert, Normal, ToMap, Falling;
    ReachedStart(buf, count, first);
    var b, smallest := buf, first.start;
    read := [first];
    for i := 0 to count
      invariant ranges.Valid()
      invariant |read| == i + 1 && |b| + i <= |buf|
      invariant Built(ranges.ranges, read, first.end + 1, smallest)
      invariant Reached(buf, count, first, b, count - i, smallest, read)
    {
      ReachedNext(buf, count, first, b, count - i, smallest, read);
      var next := ReadRange(b, smallest);
      if next.Failed? {
        return Failed(next.error), read;
      }
      ghost var m := ranges.ranges;
      ranges.Insert(next.value.start, next.value.end);
      BuiltNext(m, read, first.end + 1, smallest, next.value, ranges.ranges);
      smallest, b, read := next.value.start, next.rest, read + [next.value];
    }
    ReachedEnd(buf, count, first, b, smallest, read);
    BuiltMap(ranges.ranges, read, first.end + 1, smallest);
    rest := Got((), b);
  }

  method ParseAckFrame(hasCounts: bool, buf: Bytes) returns (r: Read<AckFields>)
    requires |buf| < SLICE_LIMIT
    ensures r == ReadAck(hasCounts, buf)
  {
    hide ReadVarint, Elements, AfterInsert, Normal, ReadBlocks;
    var ranges := new RangeSet(DEFAULT_CAPACITY);
    var largestField :- ReadVarint(buf);
    var delayField :- ReadVarint(largestField.1);
    var countField :- ReadVarint(delayField.1);
    var lenField :- ReadVarint(countField.1);
    var largest, len := largestField.0, lenField.0;
    if largest < len {
      return Failed(FrameEncodingError);
    }
    var smallest: nat := largest - len;
    ranges.Insert(smallest, largest + 1);
    BuiltFirst(Range(smallest, largest + 1), ranges.ranges);
    var rest, read :- ParseBlocks(ranges, lenField.1, countField.0, Range(smallest, largest + 1));
    var counts :- ReadCounts(hasCounts, rest.1);
    r := Got(AckFields(delayField.0, ranges.ranges, counts.0), counts.1);
  }
}
