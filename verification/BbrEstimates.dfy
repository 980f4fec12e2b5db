/** What BBR's estimates mean over whole runs: the full pipe, the least round-trip time, the bytes in flight. */
module BbrEstimates {
  import opened Arithmetic
  import opened BbrRounds
  import opened BbrRuns
  import opened DeliveryRate
  import opened Options

  // ----- The full pipe

  /** Event `k` starts a round whose sample is not application-limited. */
  ghost predicate CountedRound(s: System, cfg: Config, events: seq<Event>, k: nat)
    requires AllAdmissible(s, cfg, events) && k < |events|
  {
    && events[k].Ack?
    && StartsRound(s, cfg, events, k)
    && !StateAt(s, cfg, events, k + 1).bbr.estimator.sample.isAppLimited
  }

  /** The bandwidth of the last counted round that grew: by a quarter over the one before, a part of a unit aside. */
  ghost function Baseline(s: System, cfg: Config, events: seq<Event>, n: nat): nat
    requires AllAdmissible(s, cfg, events) && n <= |events|
    decreases n
  {
    if n == 0 then s.bbr.machine.fullBw
    else
      var base := Baseline(s, cfg, events, n - 1);
      if CountedRound(s, cfg, events, n - 1) && 4 * events[n - 1].readings.bandwidth + 4 > 5 * base
      then events[n - 1].readings.bandwidth
      else base
  }

  /** A counted round whose bandwidth is at least a unit short of five quarters of the baseline. */
  ghost predicate QuietRound(s: System, cfg: Config, events: seq<Event>, k: nat)
    requires AllAdmissible(s, cfg, events) && k < |events|
  {
    CountedRound(s, cfg, events, k) && 4 * events[k].readings.bandwidth + 4 <= 5 * Baseline(s, cfg, events, k)
  }

  ghost predicate GrowthRound(s: System, cfg: Config, events: seq<Event>, k: nat)
    requires AllAdmissible(s, cfg, events) && k < |events|
  {
    CountedRound(s, cfg, events, k) && 4 * events[k].readings.bandwidth + 4 > 5 * Baseline(s, cfg, events, k)
  }

  ghost predicate NoGrowth(s: System, cfg: Config, events: seq<Event>, m: nat, n: nat)
    requires AllAdmissible(s, cfg, events) && n <= |events|
  {
    forall k :: m <= k < n ==> !GrowthRound(s, cfg, events, k)
  }

  /** A round without growth, and none with growth since. */
  ghost predicate OneQuiet(s: System, cfg: Config, events: seq<Event>, n: nat)
    requires AllAdmissible(s, cfg, events) && n <= |events|
  {
    exists j :: 0 <= j < n && QuietRound(s, cfg, events, j) && NoGrowth(s, cfg, events, j, n)
  }

  /** Two rounds without growth, and none with growth since the first. */
  ghost predicate TwoQuiet(s: System, cfg: Config, events: seq<Event>, n: nat)
    requires AllAdmissible(s, cfg, events) && n <= |events|
  {
    exists i, j ::
      0 <= i < j < n && QuietRound(s, cfg, events, i) && QuietRound(s, cfg, events, j) && NoGrowth(s, cfg, events, i, n)
  }

  /** How one event moves the count. */
  lemma PipeStep(s: System, cfg: Config, events: seq<Event>, n: nat)
    requires Inv(s, cfg) && AllAdmissible(s, cfg, events) && n < |events|
    ensures
      var t, u := StateAt(s, cfg, events, n).bbr.machine, StateAt(s, cfg, events, n + 1).bbr.machine;
      && (u.filledPipe <==> u.fullBwCount >= 3)
      && u.fullBwCount ==
         (if t.filledPipe || !CountedRound(s, cfg, events, n) then t.fullBwCount
          else if 4 * events[n].readings.bandwidth + 4 > 5 * t.fullBw then 0
          else t.fullBwCount + 1)
      && u.fullBw ==
         (if !t.filledPipe && CountedRound(s, cfg, events, n) && 4 * events[n].readings.bandwidth + 4 > 5 * t.fullBw
          then events[n].readings.bandwidth
          else t.fullBw)
  {
    hide EstimatorInv, EndAck, UpdateModel, MarksProbeRtt, BeforeEnd, AllAdmissible, StateAt;
    var t := StateAt(s, cfg, events, n);
    RunKeeps(s, cfg, events, n);
    StateStep(s, cfg, events, n);
    if events[n].Ack? {
      BeforeEndMeans(t, cfg, events[n]);
      FullPipeStep(BeforeEnd(t, events[n]).0, cfg, events[n].readings);
    } else {
      OtherStepsKeepProbe(t, cfg, events[n]);
    }
  }

  /** As long as the pipe is not filled the controller holds the baseline. */
  lemma {:induction false} BaselineHeld(s: System, cfg: Config, events: seq<Event>, n: nat)
    requires Inv(s, cfg) && AllAdmissible(s, cfg, events) && n <= |events|
    requires !StateAt(s, cfg, events, n).bbr.machine.filledPipe
    ensures StateAt(s, cfg, events, n).bbr.machine.fullBw == Baseline(s, cfg, events, n)
    decreases n
  {
    hide Inv, Step, AllAdmissible, CountedRound;
    if n > 0 {
      if StateAt(s, cfg, events, n - 1).bbr.machine.filledPipe {
        FilledForGood(s, cfg, events, n - 1, n);
      }
      PipeStep(s, cfg, events, n - 1);
      BaselineHeld(s, cfg, events, n - 1);
    }
  }

  lemma OneQuietNext(s: System, cfg: Config, events: seq<Event>, n: nat)
    requires AllAdmissible(s, cfg, events) && n < |events|
    ensures
      OneQuiet(s, cfg, events, n + 1) <==>
      !GrowthRound(s, cfg, events, n) && (QuietRound(s, cfg, events, n) || OneQuiet(s, cfg, events, n))
  {
    hide CountedRound, AllAdmissible, Baseline;
    if OneQuiet(s, cfg, events, n) && !GrowthRound(s, cfg, events, n) {
      var j :| 0 <= j < n && QuietRound(s, cfg, events, j) && NoGrowth(s, cfg, events, j, n);
      assert NoGrowth(s, cfg, events, j, n + 1);
    }
    if QuietRound(s, cfg, events, n) {
      assert NoGrowth(s, cfg, events, n, n + 1);
    }
    if OneQuiet(s, cfg, events, n + 1) {
      var j :| 0 <= j < n + 1 && QuietRound(s, cfg, events, j) && NoGrowth(s, cfg, events, j, n + 1);
      assert j < n ==> NoGrowth(s, cfg, events, j, n);
    }
  }

  lemma TwoQuietNext(s: System, cfg: Config, events: seq<Event>, n: nat)
    requires AllAdmissible(s, cfg, events) && n < |events|
    ensures
      TwoQuiet(s, cfg, events, n + 1) <==>
      && !GrowthRound(s, cfg, events, n)
      && (TwoQuiet(s, cfg, events, n) || (QuietRound(s, cfg, events, n) && OneQuiet(s, cfg, events, n)))
  {
    hide CountedRound, AllAdmissible, Baseline;
    if TwoQuiet(s, cfg, events, n) && !GrowthRound(s, cfg, events, n) {
      var i, j :| 0 <= i < j < n && QuietRound(s, cfg, events, i) && QuietRound(s, cfg, events, j)
                  && NoGrowth(s, cfg, events, i, n);
      assert NoGrowth(s, cfg, events, i, n + 1);
    }
    if QuietRound(s, cfg, events, n) && OneQuiet(s, cfg, events, n) {
      var i :| 0 <= i < n && QuietRound(s, cfg, events, i) && NoGrowth(s, cfg, events, i, n);
      assert NoGrowth(s, cfg, events, i, n + 1);
    }
    if TwoQuiet(s, cfg, events, n + 1) {
      var i, j :| 0 <= i < j < n + 1 && QuietRound(s, cfg, events, i) && QuietRound(s, cfg, events, j)
                  && NoGrowth(s, cfg, events, i, n + 1);
      assert NoGrowth(s, cfg, events, i, n);
    }
  }

  /** The count, as long as the pipe is not filled. */
  lemma {:induction false} CountMeans(s: System, cfg: Config, events: seq<Event>, n: nat)
    requires Inv(s, cfg) && AllAdmissible(s, cfg, events) && n <= |events| && s.bbr.machine.fullBwCount == 0
    requires !StateAt(s, cfg, events, n).bbr.machine.filledPipe
    ensures StateAt(s, cfg, events, n).bbr.machine.fullBwCount >= 1 <==> OneQuiet(s, cfg, events, n)
    ensures StateAt(s, cfg, events, n).bbr.machine.fullBwCount >= 2 <==> TwoQuiet(s, cfg, events, n)
    decreases n
  {
    hide Inv, Step, AllAdmissible, OneQuiet, TwoQuiet, CountedRound, Baseline;
    if n == 0 {
      NothingQuiet(s, cfg, events);
    } else {
      if StateAt(s, cfg, events, n - 1).bbr.machine.filledPipe {
        FilledForGood(s, cfg, events, n - 1, n);
      }
      PipeStep(s, cfg, events, n - 1);
      BaselineHeld(s, cfg, events, n - 1);
      CountMeans(s, cfg, events, n - 1);
      OneQuietNext(s, cfg, events, n - 1);
      TwoQuietNext(s, cfg, events, n - 1);
    }
  }

  lemma NothingQuiet(s: System, cfg: Config, events: seq<Event>)
    requires AllAdmissible(s, cfg, events)
    ensures !OneQuiet(s, cfg, events, 0) && !TwoQuiet(s, cfg, events, 0)
  {
  }

  /**
   On every run the pipe becomes filled with an event if and only if it starts a counted round
   without growth, and two such rounds came before it with none that grew in between.
   */
  lemma PipeFillsIff(s: System, cfg: Config, events: seq<Event>, n: nat)
    requires Inv(s, cfg) && AllAdmissible(s, cfg, events) && n < |events| && s.bbr.machine.fullBwCount == 0
    requires !StateAt(s, cfg, events, n).bbr.machine.filledPipe
    ensures
      StateAt(s, cfg, events, n + 1).bbr.machine.filledPipe <==>
      QuietRound(s, cfg, events, n) && TwoQuiet(s, cfg, events, n)
  {
    hide Inv, AllAdmissible, StateAt, TwoQuiet, OneQuiet, CountedRound, Baseline;
    PipeStep(s, cfg, events, n);
    BaselineHeld(s, cfg, events, n);
    CountMeans(s, cfg, events, n);
    PipeCount(s, cfg, events, n);
  }

  lemma PipeCount(s: System, cfg: Config, events: seq<Event>, n: nat)
    requires Inv(s, cfg) && AllAdmissible(s, cfg, events) && n <= |events|
    ensures var m := StateAt(s, cfg, events, n).bbr.machine; m.filledPipe <==> m.fullBwCount >= 3
  {
    hide AllAdmissible, StateAt, EstimatorInv;
    RunKeeps(s, cfg, events, n);
  }

  /** A counted round with growth leaves an unfilled pipe unfilled, sets the baseline and starts the count anew. */
  lemma GrowthResets(s: System, cfg: Config, events: seq<Event>, n: nat)
    requires Inv(s, cfg) && AllAdmissible(s, cfg, events) && n < |events|
    requires !StateAt(s, cfg, events, n).bbr.machine.filledPipe && GrowthRound(s, cfg, events, n)
    ensures
      var m := StateAt(s, cfg, events, n + 1).bbr.machine;
      !m.filledPipe && m.fullBwCount == 0 && m.fullBw == events[n].readings.bandwidth
  {
    hide Inv, AllAdmissible, StateAt;
    BaselineHeld(s, cfg, events, n);
    PipeStep(s, cfg, events, n);
  }

  // ----- The least round-trip time

  /** Event `k` is an acknowledgement after which the estimate in force before it had expired. */
  ghost predicate Expires(s: System, cfg: Config, events: seq<Event>, k: nat)
    requires AllAdmissible(s, cfg, events) && k < |events|
  {
    events[k].Ack? && events[k].now > StateAt(s, cfg, events, k).bbr.rtprop.stamp + cfg.rtpropFilterLen
  }

  /** The round-trip sample event `k` brings. */
  ghost predicate Samples(s: System, cfg: Config, events: seq<Event>, k: nat, rtt: nat)
    requires AllAdmissible(s, cfg, events) && k < |events|
  {
    events[k].Ack? && rtt != 0 && StateAt(s, cfg, events, k + 1).bbr.estimator.sample.rtt == rtt
  }

  lemma RtpropEvent(s: System, cfg: Config, events: seq<Event>, n: nat)
    requires Inv(s, cfg) && AllAdmissible(s, cfg, events) && n < |events|
    ensures
      var t, u := StateAt(s, cfg, events, n).bbr, StateAt(s, cfg, events, n + 1).bbr;
      var rtt := u.estimator.sample.rtt;
      if !events[n].Ack? || rtt == 0 then u.rtprop.value == t.rtprop.value
      else if Expires(s, cfg, events, n) || t.rtprop.value == None then u.rtprop.value == Some(rtt)
      else u.rtprop.value == Some(Min(rtt, t.rtprop.value.value))
  {
    hide EstimatorInv, EndAck, UpdateModel, MarksProbeRtt, BeforeEnd, AllAdmissible, StateAt;
    var t := StateAt(s, cfg, events, n);
    RunKeeps(s, cfg, events, n);
    StateStep(s, cfg, events, n);
    if events[n].Ack? {
      BeforeEndMeans(t, cfg, events[n]);
      RtpropStep(BeforeEnd(t, events[n]).0, cfg, events[n].readings);
    }
  }

  /**
   On every run, from any moment until the estimate expires, it is the least of what it was and
   of the samples since: not above any of them, and one of them.
   */
  lemma {:induction false} RtpropIsLeast(s: System, cfg: Config, events: seq<Event>, m: nat, n: nat)
    requires Inv(s, cfg) && AllAdmissible(s, cfg, events) && m <= n <= |events|
    requires forall k :: m <= k < n ==> !Expires(s, cfg, events, k)
    ensures
      var before, after := StateAt(s, cfg, events, m).bbr.rtprop.value, StateAt(s, cfg, events, n).bbr.rtprop.value;
      && (before.Some? ==> after.Some? && after.value <= before.value)
      && (forall k, rtt :: m <= k < n && Samples(s, cfg, events, k, rtt) ==> after.Some? && after.value <= rtt)
      && (after == before || (after.Some? && exists k :: m <= k < n && Samples(s, cfg, events, k, after.value)))
    decreases n
  {
    hide Inv, AllAdmissible, StateAt;
    if m < n {
      RtpropIsLeast(s, cfg, events, m, n - 1);
      RtpropEvent(s, cfg, events, n - 1);
      var t, u := StateAt(s, cfg, events, n - 1).bbr, StateAt(s, cfg, events, n).bbr;
      if u.rtprop.value != t.rtprop.value {
        assert Samples(s, cfg, events, n - 1, u.rtprop.value.value);
      }
    }
  }

  // ----- The bytes in flight

  /** The bytes of the packets an acknowledgement names, or of those among them that are in flight. */
  function NamedBytes(packets: seq<Packet>, acked: seq<nat>, onlyInFlight: bool): nat
    requires InRange(acked, |packets|)
    decreases |acked|
  {
    if acked == [] then 0
    else
      var p := packets[acked[0]];
      (if p.inFlight || !onlyInFlight then p.size else 0) + NamedBytes(packets, acked[1..], onlyInFlight)
  }

  lemma {:induction false} NamedBytesSame(packets: seq<Packet>, other: seq<Packet>, acked: seq<nat>, onlyInFlight: bool)
    requires |packets| == |other| && InRange(acked, |packets|)
    requires forall i :: 0 <= i < |packets| ==>
               packets[i].size == other[i].size && packets[i].inFlight == other[i].inFlight
    ensures NamedBytes(packets, acked, onlyInFlight) == NamedBytes(other, acked, onlyInFlight)
    decreases |acked|
  {
    if acked != [] {
      NamedBytesSame(packets, other, acked[1..], onlyInFlight);
    }
  }

  /** A batch takes the bytes of all packets it names out of the bytes in flight, and delivers those in flight. */
  lemma {:induction false} AckAllBytes(b: Bbr, packets: seq<Packet>, acked: seq<nat>, now: nat)
    requires InRange(acked, |packets|) && EstimatorInv(b.estimator, packets) && PendingOutstanding(packets)
    requires acked != [] ==> NewlyAcked(packets, acked)
    ensures
      var c := AckAll(b, packets, acked, now).0;
      && c.inFlight == SaturatingSub(b.inFlight, NamedBytes(packets, acked, false))
      && c.estimator.delivered == b.estimator.delivered + NamedBytes(packets, acked, true)
    decreases |acked|
  {
    hide EstimatorInv, UpdateRateSample;
    if acked != [] {
      var i, rest := acked[0], acked[1..];
      var (c, q) := OnAck(b, packets[i].(timeAcked := Some(now)));
      AckKeeps(b.estimator, packets, i, now);
      var next := packets[i := q];
      assert Pending(packets[i]) <==> packets[i].inFlight;
      assert forall k :: 0 <= k < |packets| && k != i ==> next[k] == packets[k];
      assert forall k :: 0 <= k < |rest| ==> rest[k] == acked[k + 1];
      AckAllBytes(c, next, rest, now);
      NamedBytesSame(packets, next, rest, false);
      NamedBytesSame(packets, next, rest, true);
    }
  }

  /** The controller's bytes in flight are what was sent in flight and not yet delivered. */
  ghost predicate Balanced(s: System) {
    s.bbr.inFlight + CountedBytes(s.packets) == SentBytes(s.packets)
  }

  predicate Lossless(ev: Event) {
    !ev.Lose? && (ev.Ack? ==> ev.losses == [])
  }

  /** The acknowledgement names no bytes outside the bytes in flight, or leaves nothing in flight. */
  predicate NamesOnlyInFlight(s: System, ev: Event)
    requires ev.Ack? ==> InRange(ev.acked, |s.packets|)
  {
    ev.Ack? ==>
      || NamedBytes(s.packets, ev.acked, false) == NamedBytes(s.packets, ev.acked, true)
      || s.bbr.inFlight == NamedBytes(s.packets, ev.acked, true)
  }

  lemma {:induction false} NamedInFlightLess(packets: seq<Packet>, acked: seq<nat>)
    requires InRange(acked, |packets|)
    ensures NamedBytes(packets, acked, true) <= NamedBytes(packets, acked, false)
    decreases |acked|
  {
    if acked != [] {
      NamedInFlightLess(packets, acked[1..]);
    }
  }

  lemma AckBalanced(s: System, cfg: Config, ev: Event)
    requires Inv(s, cfg) && ev.Ack? && Admissible(s, ev) && Lossless(ev) && Balanced(s)
    ensures Balanced(Step(s, cfg, ev)) <==> NamesOnlyInFlight(s, ev)
  {
    hide EndAck, UpdateModel, MarksProbeRtt, CountedBytes, SentBytes, UpdateRateSample;
    var start := BeginAck(s.bbr, ev.now);
    AckAllBytes(start, s.packets, ev.acked, ev.now);
    NamedInFlightLess(s.packets, ev.acked);
    BeforeEndMeans(s, cfg, ev);
    EndAckMeans(BeforeEnd(s, ev).0, cfg, ev.readings);
    var t := Step(s, cfg, ev);
    assert BeforeEnd(s, ev).0 == AckAll(start, s.packets, ev.acked, ev.now).0;
    AckSentSame(s, cfg, ev);
    CountedAtMostSent(t.packets);
  }

  lemma {:induction false} SentSame(packets: seq<Packet>, other: seq<Packet>)
    requires |packets| == |other|
    requires forall i :: 0 <= i < |packets| ==>
               packets[i].size == other[i].size && packets[i].inFlight == other[i].inFlight
    ensures SentBytes(packets) == SentBytes(other)
    decreases |packets|
  {
    if packets != [] {
      SentSame(packets[..|packets| - 1], other[..|other| - 1]);
    }
  }

  lemma AckSentSame(s: System, cfg: Config, ev: Event)
    requires Inv(s, cfg) && ev.Ack? && Admissible(s, ev)
    ensures SentBytes(Step(s, cfg, ev).packets) == SentBytes(s.packets)
  {
    hide EndAck, UpdateModel, MarksProbeRtt, EstimatorInv, UpdateRateSample, SentBytes;
    AckAllKeeps(BeginAck(s.bbr, ev.now), s.packets, ev.acked, ev.now);
    SentSame(s.packets, Step(s, cfg, ev).packets);
  }

  lemma SendBalanced(s: System, cfg: Config, ev: Event)
    requires Inv(s, cfg) && ev.Send? && Admissible(s, ev) && Balanced(s)
    ensures Balanced(Step(s, cfg, ev))
  {
    hide CountedBytes, SentBytes, EstimatorInv;
    var t := Step(s, cfg, ev);
    BytesAppend(s.packets, t.packets[|s.packets|]);
  }

  ghost predicate BalancedThroughout(s: System, cfg: Config, events: seq<Event>)
    requires AllAdmissible(s, cfg, events)
    decreases |events|
  {
    Balanced(s) && (events != [] ==> BalancedThroughout(Step(s, cfg, events[0]), cfg, events[1..]))
  }

  predicate AllNameOnlyInFlight(s: System, cfg: Config, events: seq<Event>)
    requires AllAdmissible(s, cfg, events)
    decreases |events|
  {
    events != [] ==>
      NamesOnlyInFlight(s, events[0]) && AllNameOnlyInFlight(Step(s, cfg, events[0]), cfg, events[1..])
  }

  /**
   On every run without losses the bytes in flight are right throughout if and only if no
   acknowledgement takes out bytes that were never put in: packets that do not count toward the
   bytes in flight are subtracted when they are acknowledged.
   */
  lemma {:induction false} BalancedIff(s: System, cfg: Config, events: seq<Event>)
    requires Inv(s, cfg) && AllAdmissible(s, cfg, events) && Balanced(s)
    requires forall ev :: ev in events ==> Lossless(ev)
    ensures BalancedThroughout(s, cfg, events) <==> AllNameOnlyInFlight(s, cfg, events)
    decreases |events|
  {
    hide Inv, Balanced, NamesOnlyInFlight, Step;
    if events != [] {
      var ev := events[0];
      assert ev in events;
      StepKeeps(s, cfg, ev);
      StepBalanced(s, cfg, ev);
      if NamesOnlyInFlight(s, ev) {
        BalancedIff(Step(s, cfg, ev), cfg, events[1..]);
      }
    }
  }

  lemma StepBalanced(s: System, cfg: Config, ev: Event)
    requires Inv(s, cfg) && Admissible(s, ev) && Lossless(ev) && Balanced(s)
    ensures Balanced(Step(s, cfg, ev)) <==> NamesOnlyInFlight(s, ev)
  {
    hide Inv, CountedBytes, SentBytes, StepAck, StepSend;
    match ev
    case Send(_, _, _, _) => SendBalanced(s, cfg, ev);
    case Ack(_, _, _, _) => AckBalanced(s, cfg, ev);
    case Limit(_) =>
  }

  // ----- Recovery and application limits

  /**
   On every run: a loss outside recovery begins it, and from then on a round is counted anew; a
   loss during it changes nothing but the bytes in flight, and persistent congestion forgets when
   it began.
   */
  lemma LossBegins(s: System, cfg: Config, l: Loss)
    requires Inv(s, cfg)
    ensures
      var t := Step(s, cfg, Lose(l));
      && Admissible(s, Lose(l)) && t.packets == s.packets
      && t.bbr.inFlight == SaturatingSub(s.bbr.inFlight, l.bytes)
      && (t.bbr.recovery.active <==> s.bbr.recovery.active || !l.persistent)
      && (!s.bbr.recovery.active && !l.persistent ==>
            t.bbr.recovery.start == Some(l.now) && t.bbr.recovery.conservation
            && t.bbr.round.nextDelivered == s.bbr.estimator.delivered)
      && (s.bbr.recovery.active ==>
            t.bbr.recovery.start == (if l.persistent then None else s.bbr.recovery.start) && t.bbr.round == s.bbr.round)
  {
    LossStep(s.bbr, l.now, l.sentTime, l.persistent, l.bytes);
  }

  /**
   On every run: an acknowledgement without losses ends recovery if and only if the last packet it
   names was sent after recovery began, or nobody knows when it did.
   */
  lemma RecoveryEnds(s: System, cfg: Config, ev: Event)
    requires Inv(s, cfg) && ev.Ack? && ev.losses == [] && Admissible(s, ev) && s.bbr.recovery.active
    ensures
      var start, last := s.bbr.recovery.start, s.packets[ev.acked[|ev.acked| - 1]];
      Step(s, cfg, ev).bbr.recovery.active <==> start.Some? && last.timeSent <= start.value
  {
    hide EstimatorInv, EndAck, UpdateModel, MarksProbeRtt;
    BeforeEndMeans(s, cfg, ev);
    AckAllKeeps(BeginAck(s.bbr, ev.now), s.packets, ev.acked, ev.now);
    RecoveryStep(BeforeEnd(s, ev).0, cfg, ev.readings);
  }

  /** The application's limit is set and cleared at any time, and touches nothing else. */
  lemma LimitSets(s: System, cfg: Config, limited: bool)
    requires Inv(s, cfg)
    ensures
      var t := Step(s, cfg, Limit(limited));
      && Admissible(s, Limit(limited))
      && (IsAppLimited(t.bbr.estimator) <==> limited)
      && t == s.(bbr := s.bbr.(estimator := s.bbr.estimator.(lastAppLimited := t.bbr.estimator.lastAppLimited)))
  {
    LimitMarks(s.bbr.estimator, s.packets, limited);
  }
}
