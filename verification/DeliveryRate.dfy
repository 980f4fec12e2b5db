/**
 The delivery rate estimator, src/congestion_control/delivery_rate.rs: how many bytes were
 delivered in all, and how many since the most recent of the delivered packets was sent.
 Times are counted in nanoseconds. The quotient of bytes and time is left out, and with it the
 times that bound the sampling interval; where they are optional, what stays is whether they
 are set.
 */
module DeliveryRate {
  import opened Arithmetic
  import opened Options

  /** What is remembered with a packet when it is sent; `pending` is cleared once the packet counts. */
  datatype SendState = SendState(pending: bool, delivered: nat, isAppLimited: bool)

  /** A packet that does not count toward the bytes in flight keeps this empty state. */
  const NO_STATE: SendState := SendState(false, 0, false)

  datatype Packet = Packet(
    num: nat,
    size: nat,
    timeSent: nat,
    inFlight: bool,
    timeAcked: Option<nat>,
    state: SendState)

  datatype Sample = Sample(isAppLimited: bool, delivered: nat, hasPrior: bool, priorDelivered: nat, rtt: nat)

  datatype Estimator = Estimator(
    delivered: nat,
    lastAppLimited: nat,
    largestAcked: nat,
    lastSent: nat,
    sample: Sample)

  const NEW_ESTIMATOR: Estimator := Estimator(0, 0, 0, 0, Sample(false, 0, false, 0, 0))

  // ----- Steps

  predicate IsAppLimited(e: Estimator) {
    e.lastAppLimited != 0
  }

  function OnPacketSent(e: Estimator, p: Packet): (Estimator, Packet) {
    (e.(lastSent := p.num), p.(state := SendState(true, e.delivered, IsAppLimited(e))))
  }

  function UpdateRateSample(e: Estimator, p: Packet): (Estimator, Packet) {
    if !p.state.pending || p.timeAcked == None then (e, p)
    else
      var delivered := SaturatingAdd(e.delivered, p.size);
      var newest := !e.sample.hasPrior || p.state.delivered > e.sample.priorDelivered;
      var prior := if newest then p.state.delivered else e.sample.priorDelivered;
      (e.(delivered := delivered,
          largestAcked := Max(p.num, e.largestAcked),
          sample := Sample(
            if newest then p.state.isAppLimited else e.sample.isAppLimited,
            SaturatingSub(delivered, prior),
            true,
            prior,
            SaturatingSub(p.timeAcked.value, p.timeSent))),
       p.(state := p.state.(pending := false)))
  }

  function SetAppLimited(e: Estimator, limited: bool): Estimator {
    e.(lastAppLimited := if limited then Max(e.lastSent, 1) else 0)
  }

  function GenerateRateSample(e: Estimator): Estimator {
    var f := if IsAppLimited(e) && e.largestAcked > e.lastAppLimited then SetAppLimited(e, false) else e;
    if !f.sample.hasPrior then f
    else f.(sample := f.sample.(delivered := SaturatingSub(f.delivered, f.sample.priorDelivered)))
  }

  // ----- What the counters mean

  /** The packet was counted as delivered. */
  predicate Counted(p: Packet) {
    p.inFlight && !p.state.pending
  }

  /** The packet will be counted when it is acknowledged. */
  predicate Pending(p: Packet) {
    p.inFlight && p.state.pending
  }

  function CountedBytes(packets: seq<Packet>): nat {
    if packets == [] then 0
    else
      var last := packets[|packets| - 1];
      CountedBytes(packets[..|packets| - 1]) + if Counted(last) then last.size else 0
  }

  /** The bytes of the packets that count toward the bytes in flight. */
  function SentBytes(packets: seq<Packet>): nat {
    if packets == [] then 0
    else
      var last := packets[|packets| - 1];
      SentBytes(packets[..|packets| - 1]) + if last.inFlight then last.size else 0
  }

  /** The packet the sample is taken from. */
  predicate IsSampled(e: Estimator, p: Packet) {
    Counted(p) && p.state.delivered == e.sample.priorDelivered && p.state.isAppLimited == e.sample.isAppLimited
  }

  /** The sample is taken from the counted packet that was sent last, as far as deliveries can tell. */
  ghost predicate SampleIsNewest(e: Estimator, packets: seq<Packet>) {
    if !e.sample.hasPrior then forall i :: 0 <= i < |packets| ==> !Counted(packets[i])
    else
      && (forall i :: 0 <= i < |packets| && Counted(packets[i]) ==>
            packets[i].state.delivered <= e.sample.priorDelivered)
      && (exists i :: 0 <= i < |packets| && IsSampled(e, packets[i]))
  }

  /** The largest number among the counted packets. */
  ghost predicate LargestIsAcked(e: Estimator, packets: seq<Packet>) {
    && (forall i :: 0 <= i < |packets| && Counted(packets[i]) ==> packets[i].num <= e.largestAcked)
    && (e.largestAcked == 0
        || exists i :: 0 <= i < |packets| && Counted(packets[i]) && packets[i].num == e.largestAcked)
  }

  /** The number of the last packet sent that counts toward the bytes in flight. */
  function LastNumber(packets: seq<Packet>): nat {
    if packets == [] then 0
    else if packets[|packets| - 1].inFlight then packets[|packets| - 1].num
    else LastNumber(packets[..|packets| - 1])
  }

  /** No packet was stamped with more than what is delivered by now. */
  ghost predicate StampsBounded(packets: seq<Packet>, delivered: nat) {
    forall i :: 0 <= i < |packets| ==> packets[i].state.delivered <= delivered
  }

  ghost predicate OthersUnstamped(packets: seq<Packet>) {
    forall i :: 0 <= i < |packets| && !packets[i].inFlight ==> packets[i].state == NO_STATE
  }

  ghost predicate EstimatorInv(e: Estimator, packets: seq<Packet>) {
    && e.delivered == CountedBytes(packets)
    && OthersUnstamped(packets)
    && SentBytes(packets) <= U64_MAX
    && StampsBounded(packets, e.delivered)
    && SampleIsNewest(e, packets)
    && LargestIsAcked(e, packets)
    && e.lastSent == LastNumber(packets)
  }

  lemma {:induction false} CountedAtMostSent(packets: seq<Packet>)
    ensures CountedBytes(packets) <= SentBytes(packets)
    decreases |packets|
  {
    if packets != [] {
      CountedAtMostSent(packets[..|packets| - 1]);
    }
  }

  lemma BytesAppend(packets: seq<Packet>, p: Packet)
    ensures CountedBytes(packets + [p]) == CountedBytes(packets) + if Counted(p) then p.size else 0
    ensures SentBytes(packets + [p]) == SentBytes(packets) + if p.inFlight then p.size else 0
    ensures LastNumber(packets + [p]) == if p.inFlight then p.num else LastNumber(packets)
  {
    assert (packets + [p])[..|packets|] == packets;
  }

  /** Counting one more packet adds its bytes, and only those. */
  lemma {:induction false} BytesUpdate(packets: seq<Packet>, i: nat, p: Packet)
    requires i < |packets| && p.size == packets[i].size && p.inFlight == packets[i].inFlight && p.num == packets[i].num
    ensures LastNumber(packets[i := p]) == LastNumber(packets)
    ensures
      CountedBytes(packets[i := p]) ==
      CountedBytes(packets) - (if Counted(packets[i]) then p.size else 0) + if Counted(p) then p.size else 0
    ensures SentBytes(packets[i := p]) == SentBytes(packets)
    decreases |packets|
  {
    var n := |packets| - 1;
    if i == n {
      assert packets[i := p][..n] == packets[..n];
    } else {
      BytesUpdate(packets[..n], i, p);
      assert packets[i := p][..n] == packets[..n][i := p];
    }
  }

  /** Another packet that does not count as delivered leaves the sample as it is. */
  lemma AppendKeepsSample(e: Estimator, packets: seq<Packet>, p: Packet)
    requires SampleIsNewest(e, packets) && LargestIsAcked(e, packets) && !Counted(p)
    ensures SampleIsNewest(e, packets + [p]) && LargestIsAcked(e, packets + [p])
  {
    var after := packets + [p];
    assert forall i :: 0 <= i < |packets| ==> after[i] == packets[i];
    if e.sample.hasPrior {
      var i :| 0 <= i < |packets| && IsSampled(e, packets[i]);
      assert IsSampled(e, after[i]);
    }
    if e.largestAcked != 0 {
      var i :| 0 <= i < |packets| && Counted(packets[i]) && packets[i].num == e.largestAcked;
      assert Counted(after[i]) && after[i].num == e.largestAcked;
    }
  }

  /** A packet in flight carries away what was delivered, and whether the sender was limited, at that time. */
  lemma SendKeeps(e: Estimator, packets: seq<Packet>, p: Packet)
    requires EstimatorInv(e, packets) && p.inFlight && SentBytes(packets) + p.size <= U64_MAX
    ensures
      var (f, q) := OnPacketSent(e, p);
      && EstimatorInv(f, packets + [q])
      && q == p.(state := SendState(true, CountedBytes(packets), IsAppLimited(e)))
      && f == e.(lastSent := f.lastSent)
  {
    hide CountedBytes, SentBytes, SampleIsNewest, LargestIsAcked, LastNumber;
    var (f, q) := OnPacketSent(e, p);
    BytesAppend(packets, q);
    AppendKeepsSample(e, packets, q);
    SampleOnly(e, f, packets + [q]);
  }

  /** The sample and the largest number are all these two speak of. */
  lemma SampleOnly(e: Estimator, f: Estimator, packets: seq<Packet>)
    requires e.sample == f.sample && e.largestAcked == f.largestAcked
    ensures SampleIsNewest(e, packets) <==> SampleIsNewest(f, packets)
    ensures LargestIsAcked(e, packets) <==> LargestIsAcked(f, packets)
  {
    assert forall p :: IsSampled(e, p) <==> IsSampled(f, p);
  }

  /** A packet that does not count toward the bytes in flight changes nothing. */
  lemma QuietSendKeeps(e: Estimator, packets: seq<Packet>, p: Packet)
    requires EstimatorInv(e, packets) && !p.inFlight && p.state == NO_STATE
    ensures EstimatorInv(e, packets + [p])
  {
    hide CountedBytes, SentBytes, SampleIsNewest, LargestIsAcked, LastNumber;
    BytesAppend(packets, p);
    AppendKeepsSample(e, packets, p);
  }

  /**
   A packet acknowledged for the first time adds its bytes, and its round-trip time is the sample;
   one acknowledged again adds nothing.
   */
  lemma AckKeeps(e: Estimator, packets: seq<Packet>, i: nat, now: nat)
    requires EstimatorInv(e, packets) && i < |packets|
    ensures
      var (f, q) := UpdateRateSample(e, packets[i].(timeAcked := Some(now)));
      && EstimatorInv(f, packets[i := q])
      && f.delivered == e.delivered + (if Pending(packets[i]) then packets[i].size else 0)
      && q == packets[i].(timeAcked := Some(now), state := packets[i].state.(pending := false))
      && (Pending(packets[i]) && packets[i].timeSent <= now ==> packets[i].timeSent + f.sample.rtt == now)
      && (!Pending(packets[i]) ==> f == e)
      && f.lastAppLimited == e.lastAppLimited
  {
    hide CountedBytes, SentBytes, SampleIsNewest, LargestIsAcked, LastNumber;
    var (f, q) := UpdateRateSample(e, packets[i].(timeAcked := Some(now)));
    BytesUpdate(packets, i, q);
    CountedAtMostSent(packets[i := q]);
    CountKeepsNewest(e, packets, i, now);
    CountKeepsLargest(e, packets, i, now);
  }

  lemma CountKeepsNewest(e: Estimator, packets: seq<Packet>, i: nat, now: nat)
    requires SampleIsNewest(e, packets) && OthersUnstamped(packets) && i < |packets|
    ensures
      var (f, q) := UpdateRateSample(e, packets[i].(timeAcked := Some(now)));
      && SampleIsNewest(f, packets[i := q])
      // of packets with the same stamp the first one counted is kept
      && (e.sample.hasPrior && packets[i].state.delivered <= e.sample.priorDelivered ==>
            f.sample.priorDelivered == e.sample.priorDelivered && f.sample.isAppLimited == e.sample.isAppLimited)
  {
    var (f, q) := UpdateRateSample(e, packets[i].(timeAcked := Some(now)));
    var after := packets[i := q];
    assert forall k :: 0 <= k < |packets| && k != i ==> after[k] == packets[k];
    assert after[i].state.delivered == packets[i].state.delivered;
    assert Counted(after[i]) <==> packets[i].inFlight;
    if e.sample.hasPrior && !IsSampled(f, after[i]) {
      var k :| 0 <= k < |packets| && IsSampled(e, packets[k]);
      assert IsSampled(f, after[k]);
    } else if f.sample.hasPrior {
      assert IsSampled(f, after[i]);
    }
  }

  /** While packets are being counted the sample already holds what was delivered since its packet was sent. */
  lemma SampleSoFar(e: Estimator, packets: seq<Packet>, i: nat, now: nat)
    requires EstimatorInv(e, packets) && i < |packets| && Pending(packets[i])
    ensures
      var f := UpdateRateSample(e, packets[i].(timeAcked := Some(now))).0;
      f.sample.hasPrior && f.sample.delivered + f.sample.priorDelivered == f.delivered
  {
    AckKeeps(e, packets, i, now);
    hide CountedBytes, SentBytes, LargestIsAcked, LastNumber;
    if e.sample.hasPrior {
      var k :| 0 <= k < |packets| && IsSampled(e, packets[k]);
      assert packets[k].state.delivered <= e.delivered;
    }
  }

  lemma CountKeepsLargest(e: Estimator, packets: seq<Packet>, i: nat, now: nat)
    requires LargestIsAcked(e, packets) && OthersUnstamped(packets) && i < |packets|
    ensures
      var (f, q) := UpdateRateSample(e, packets[i].(timeAcked := Some(now)));
      LargestIsAcked(f, packets[i := q])
  {
    var (f, q) := UpdateRateSample(e, packets[i].(timeAcked := Some(now)));
    var after := packets[i := q];
    assert forall k :: 0 <= k < |packets| && k != i ==> after[k] == packets[k];
    assert Counted(after[i]) <==> packets[i].inFlight;
    if f.largestAcked != 0 && f.largestAcked == e.largestAcked {
      var k :| 0 <= k < |packets| && Counted(packets[k]) && packets[k].num == e.largestAcked;
      assert Counted(after[k]) && after[k].num == f.largestAcked;
    } else if f.largestAcked != 0 {
      assert Counted(after[i]) && after[i].num == f.largestAcked;
    }
  }

  /**
   The finished sample counts what was delivered since its packet was sent. The sender stays
   marked as limited until a packet with a number above the mark is delivered.
   */
  lemma GenerateKeeps(e: Estimator, packets: seq<Packet>)
    requires EstimatorInv(e, packets)
    ensures EstimatorInv(GenerateRateSample(e), packets)
    ensures
      var f := GenerateRateSample(e);
      && f.delivered == e.delivered
      && (f.sample.hasPrior ==> f.sample.delivered + f.sample.priorDelivered == CountedBytes(packets))
      && f.sample == e.sample.(delivered := f.sample.delivered)
      && (IsAppLimited(f) <==>
            && IsAppLimited(e)
            && forall i :: 0 <= i < |packets| && Counted(packets[i]) ==> packets[i].num <= e.lastAppLimited)
      && (IsAppLimited(f) ==> f.lastAppLimited == e.lastAppLimited)
  {
    hide CountedBytes, SentBytes, LastNumber;
    var f := GenerateRateSample(e);
    if e.sample.hasPrior {
      var i :| 0 <= i < |packets| && IsSampled(e, packets[i]);
      assert packets[i].state.delivered <= e.delivered;
      assert IsSampled(f, packets[i]);
    }
  }

  /** The mark is the last number sent, so that it stands until something sent later is delivered. */
  lemma LimitMarks(e: Estimator, packets: seq<Packet>, limited: bool)
    requires EstimatorInv(e, packets)
    ensures
      var f := SetAppLimited(e, limited);
      && EstimatorInv(f, packets)
      && f == e.(lastAppLimited := f.lastAppLimited)
      && (IsAppLimited(f) <==> limited)
      && (limited ==> f.lastAppLimited == LastNumber(packets) || (f.lastAppLimited == 1 && LastNumber(packets) == 0))
  {
    hide CountedBytes, SentBytes, LastNumber, SampleIsNewest, LargestIsAcked;
    SampleOnly(e, SetAppLimited(e, limited), packets);
  }
}
