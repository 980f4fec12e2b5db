/**
 BBR over whole runs of packets sent, acknowledged and lost: rounds and ProbeRTT take a round
 trip, exactly when the acknowledgements that begin them leave nothing behind that could pass
 for newer.
 */
module BbrRuns {
  import opened Arithmetic
  import opened BbrRounds
  import opened DeliveryRate
  import opened Options

  datatype Loss = Loss(now: nat, sentTime: nat, persistent: bool, bytes: nat)

  /**
   The controller hears of a sent packet only if it counts toward the bytes in flight, but of
   every packet newly acknowledged. An acknowledgement names packets by their place in sending
   order.
   */
  datatype Event =
    | Send(num: nat, size: nat, time: nat, inFlight: bool)
    | Ack(now: nat, acked: seq<nat>, losses: seq<Loss>, readings: Readings)
    | Lose(loss: Loss)
    | Limit(limited: bool)

  /**
   The controller and all packets in sending order, with what an observer notes: how many packets
   were sent when the last round started and when ProbeRTT began to count, and that time.
   */
  datatype System = System(bbr: Bbr, packets: seq<Packet>, roundMark: nat, probeMark: nat, probeTime: nat)

  // ----- Steps

  predicate InRange(acked: seq<nat>, n: nat) {
    forall k :: 0 <= k < |acked| ==> acked[k] < n
  }

  function AckAll(b: Bbr, packets: seq<Packet>, acked: seq<nat>, now: nat): (r: (Bbr, seq<Packet>))
    requires InRange(acked, |packets|)
    ensures |r.1| == |packets|
    decreases |acked|
  {
    if acked == [] then (b, packets)
    else
      var i := acked[0];
      var (c, q) := OnAck(b, packets[i].(timeAcked := Some(now)));
      AckAll(c, packets[i := q], acked[1..], now)
  }

  function LoseAll(b: Bbr, losses: seq<Loss>): Bbr
    decreases |losses|
  {
    if losses == [] then b
    else
      var l := losses[0];
      LoseAll(OnCongestionEvent(b, l.now, l.sentTime, l.persistent, l.bytes), losses[1..])
  }

  /** The controller just before the end of an acknowledgement, and the packets. */
  function BeforeEnd(s: System, ev: Event): (Bbr, seq<Packet>)
    requires ev.Ack? && InRange(ev.acked, |s.packets|)
  {
    var (b, packets) := AckAll(BeginAck(s.bbr, ev.now), s.packets, ev.acked, ev.now);
    (LoseAll(b, ev.losses), packets)
  }

  function StepAck(s: System, cfg: Config, ev: Event): System
    requires ev.Ack? && InRange(ev.acked, |s.packets|)
  {
    var (b, packets) := BeforeEnd(s, ev);
    var c := EndAck(b, cfg, ev.readings);
    var marked := MarksProbeRtt(UpdateModel(b, cfg, ev.readings), ev.readings.probeRttWindow);
    System(
      c,
      packets,
      if c.round.count > s.bbr.round.count then |packets| else s.roundMark,
      if marked then |packets| else s.probeMark,
      if marked then ev.now else s.probeTime)
  }

  function StepSend(s: System, ev: Event): System
    requires ev.Send?
  {
    var p := Packet(ev.num, ev.size, ev.time, ev.inFlight, None, NO_STATE);
    if ev.inFlight then
      var (b, q) := OnSent(s.bbr, p);
      s.(bbr := b, packets := s.packets + [q])
    else
      s.(packets := s.packets + [p])
  }

  function Step(s: System, cfg: Config, ev: Event): System
    requires ev.Ack? ==> InRange(ev.acked, |s.packets|)
  {
    match ev
    case Send(_, _, _, _) => StepSend(s, ev)
    case Ack(_, _, _, _) => StepAck(s, cfg, ev)
    case Lose(l) => s.(bbr := OnCongestionEvent(s.bbr, l.now, l.sentTime, l.persistent, l.bytes))
    case Limit(limited) => s.(bbr := s.bbr.(estimator := SetAppLimited(s.bbr.estimator, limited)))
  }

  predicate Outstanding(p: Packet) {
    p.timeAcked == None
  }

  /** The packets an acknowledgement names are not acknowledged yet, and each is named once. */
  predicate NewlyAcked(packets: seq<Packet>, acked: seq<nat>)
    requires InRange(acked, |packets|)
  {
    && acked != []
    && (forall k :: 0 <= k < |acked| ==> Outstanding(packets[acked[k]]))
    && (forall j, k :: 0 <= j < k < |acked| ==> acked[j] != acked[k])
  }

  predicate Admissible(s: System, ev: Event) {
    match ev
    case Send(_, size, _, inFlight) => inFlight ==> SentBytes(s.packets) + size <= U64_MAX
    case Ack(_, acked, _, _) => InRange(acked, |s.packets|) && NewlyAcked(s.packets, acked)
    case Lose(_) => true
    case Limit(_) => true
  }

  // ----- What every step keeps

  ghost predicate InStay(s: System) {
    s.bbr.machine.mode == ProbeRTT && s.bbr.probe.doneStamp.Some?
  }

  ghost predicate ProbeInv(s: System, cfg: Config) {
    InStay(s) ==>
      && s.probeMark <= |s.packets|
      && s.bbr.probe.doneStamp.value == s.probeTime + cfg.probeRttDuration
  }

  /** A packet in flight is to be counted as long as it is outstanding. */
  ghost predicate PendingOutstanding(packets: seq<Packet>) {
    forall i :: 0 <= i < |packets| && packets[i].inFlight ==> (packets[i].state.pending <==> Outstanding(packets[i]))
  }

  ghost predicate Inv(s: System, cfg: Config) {
    && EstimatorInv(s.bbr.estimator, s.packets)
    && PendingOutstanding(s.packets)
    && RecoveryInv(s.bbr.recovery)
    && ModeInv(s.bbr.machine)
    && s.bbr.round.nextDelivered <= s.bbr.estimator.delivered
    && s.roundMark <= |s.packets|
    && ProbeInv(s, cfg)
  }

  /** The packets sent before the mark that are still outstanding were stamped before the round in progress. */
  ghost predicate OldBefore(packets: seq<Packet>, mark: nat, next: nat) {
    && mark <= |packets|
    && forall i :: 0 <= i < mark && Outstanding(packets[i]) ==> packets[i].state.delivered < next
  }

  ghost predicate SomeAckedFrom(packets: seq<Packet>, mark: nat) {
    exists i :: mark <= i < |packets| && packets[i].timeAcked.Some?
  }

  /** Some packet with data in it is counted as delivered by this acknowledgement. */
  ghost predicate DeliversSome(packets: seq<Packet>, acked: seq<nat>) {
    exists i :: i in acked && i < |packets| && Pending(packets[i]) && packets[i].size > 0
  }

  /**
   The acknowledgement delivers data, or leaves no packet outstanding that carries the current
   count of delivered bytes.
   */
  ghost predicate Settles(s: System, ev: Event)
    requires ev.Ack?
  {
    || DeliversSome(s.packets, ev.acked)
    || forall i :: 0 <= i < |s.packets| && Outstanding(s.packets[i]) && i !in ev.acked ==>
         s.packets[i].state.delivered != s.bbr.estimator.delivered
  }

  // ----- One acknowledgement

  /** Acknowledging packets touches no stamp of theirs, and leaves those outstanding that it does not name. */
  ghost predicate AckedPackets(packets: seq<Packet>, acked: seq<nat>, after: seq<Packet>) {
    && |after| == |packets|
    && forall i :: 0 <= i < |packets| ==>
         && after[i] == packets[i].(timeAcked := after[i].timeAcked, state := after[i].state)
         && after[i].state == packets[i].state.(pending := after[i].state.pending)
         && (after[i].state.pending <==> packets[i].state.pending && i !in acked)
         && (Outstanding(after[i]) <==> Outstanding(packets[i]) && i !in acked)
  }

  /** It touches no round either, and notes the last packet and the latest stamp. */
  ghost predicate AckedModel(b: Bbr, packets: seq<Packet>, acked: seq<nat>, c: Bbr) {
    && c.machine == b.machine && c.round == b.round && c.probe == b.probe && c.ack.now == b.ack.now
    && c.rtprop == b.rtprop && c.recovery == b.recovery && c.idleRestart == b.idleRestart
    && c.ack.lastSentTime ==
       (if acked == [] || acked[|acked| - 1] >= |packets| then b.ack.lastSentTime
        else packets[acked[|acked| - 1]].timeSent)
    && (c.ack.packetDelivered == b.ack.packetDelivered
        || exists i :: i in acked && i < |packets| && packets[i].state.delivered == c.ack.packetDelivered)
    && c.ack.packetDelivered >= b.ack.packetDelivered
    && (forall i :: i in acked && i < |packets| ==> packets[i].state.delivered <= c.ack.packetDelivered)
  }

  lemma {:induction false} AckAllPackets(b: Bbr, packets: seq<Packet>, acked: seq<nat>, now: nat)
    requires InRange(acked, |packets|) && EstimatorInv(b.estimator, packets)
    ensures AckedPackets(packets, acked, AckAll(b, packets, acked, now).1)
    decreases |acked|
  {
    hide EstimatorInv, UpdateRateSample;
    if acked != [] {
      var i, rest := acked[0], acked[1..];
      var (c, q) := OnAck(b, packets[i].(timeAcked := Some(now)));
      AckKeeps(b.estimator, packets, i, now);
      AckAllPackets(c, packets[i := q], rest, now);
      assert acked == [i] + rest;
    }
  }

  lemma {:induction false} AckAllModel(b: Bbr, packets: seq<Packet>, acked: seq<nat>, now: nat)
    requires InRange(acked, |packets|) && EstimatorInv(b.estimator, packets)
    ensures AckedModel(b, packets, acked, AckAll(b, packets, acked, now).0)
    decreases |acked|
  {
    hide EstimatorInv, UpdateRateSample;
    if acked != [] {
      var i, rest := acked[0], acked[1..];
      var (c, q) := OnAck(b, packets[i].(timeAcked := Some(now)));
      AckKeeps(b.estimator, packets, i, now);
      AckAllModel(c, packets[i := q], rest, now);
      assert acked == [i] + rest;
    }
  }

  lemma AckAllKeeps(b: Bbr, packets: seq<Packet>, acked: seq<nat>, now: nat)
    requires InRange(acked, |packets|) && EstimatorInv(b.estimator, packets)
    ensures
      var (c, after) := AckAll(b, packets, acked, now);
      AckedPackets(packets, acked, after) && AckedModel(b, packets, acked, c)
  {
    hide *;
    AckAllPackets(b, packets, acked, now);
    AckAllModel(b, packets, acked, now);
  }

  /** A batch raises the count of delivered bytes if and only if it delivers data. */
  lemma {:induction false} AckAllCounts(b: Bbr, packets: seq<Packet>, acked: seq<nat>, now: nat)
    requires InRange(acked, |packets|) && EstimatorInv(b.estimator, packets)
    ensures
      var (c, after) := AckAll(b, packets, acked, now);
      && EstimatorInv(c.estimator, after)
      && b.estimator.delivered <= c.estimator.delivered
      && (DeliversSome(packets, acked) <==> b.estimator.delivered < c.estimator.delivered)
    decreases |acked|
  {
    hide EstimatorInv, UpdateRateSample;
    if acked != [] {
      var i, rest := acked[0], acked[1..];
      var (c, q) := OnAck(b, packets[i].(timeAcked := Some(now)));
      AckKeeps(b.estimator, packets, i, now);
      AckAllCounts(c, packets[i := q], rest, now);
      DeliversFirst(packets, i, q, rest);
      assert acked == [i] + rest;
    }
  }

  /** A batch delivers data if its first packet does, or the rest does after it. */
  lemma DeliversFirst(packets: seq<Packet>, i: nat, q: Packet, rest: seq<nat>)
    requires i < |packets| && !Pending(q)
    ensures
      DeliversSome(packets, [i] + rest) <==>
      (Pending(packets[i]) && packets[i].size > 0) || DeliversSome(packets[i := q], rest)
  {
    var next := packets[i := q];
    if DeliversSome(packets, [i] + rest) && !(Pending(packets[i]) && packets[i].size > 0) {
      var k :| k in [i] + rest && k < |packets| && Pending(packets[k]) && packets[k].size > 0;
      assert k in rest && next[k] == packets[k];
    }
    if DeliversSome(next, rest) {
      var k :| k in rest && k < |next| && Pending(next[k]) && next[k].size > 0;
      assert k in [i] + rest && next[k] == packets[k];
    }
    if Pending(packets[i]) && packets[i].size > 0 {
      assert i in [i] + rest;
    }
  }

  lemma {:induction false} LoseAllKeeps(b: Bbr, losses: seq<Loss>)
    ensures
      var c := LoseAll(b, losses);
      && c.estimator == b.estimator && c.machine == b.machine && c.probe == b.probe && c.ack == b.ack
      && c.rtprop == b.rtprop && c.idleRestart == b.idleRestart
      && (RecoveryInv(b.recovery) ==> RecoveryInv(c.recovery))
      && c.round.count == b.round.count
      && (c.round.nextDelivered == b.round.nextDelivered || c.round.nextDelivered == b.estimator.delivered)
    decreases |losses|
  {
    if losses != [] {
      var l := losses[0];
      LoseAllKeeps(OnCongestionEvent(b, l.now, l.sentTime, l.persistent, l.bytes), losses[1..]);
    }
  }

  lemma StampsAre(e: Estimator, packets: seq<Packet>)
    requires EstimatorInv(e, packets)
    ensures StampsBounded(packets, e.delivered)
  {
  }

  /** What holds when all packets of an acknowledgement were taken in. */
  lemma BeforeEndMeans(s: System, cfg: Config, ev: Event)
    requires Inv(s, cfg) && ev.Ack? && Admissible(s, ev)
    ensures
      var (b, packets) := BeforeEnd(s, ev);
      && EstimatorInv(b.estimator, packets)
      && PendingOutstanding(packets) && RecoveryInv(b.recovery)
      && b.machine == s.bbr.machine && b.probe == s.bbr.probe && b.rtprop == s.bbr.rtprop
      && b.idleRestart == s.bbr.idleRestart
      && b.ack.lastSentTime == s.packets[ev.acked[|ev.acked| - 1]].timeSent
      && b.round.count == s.bbr.round.count && b.ack.now == ev.now
      && s.bbr.round.nextDelivered <= b.round.nextDelivered <= b.estimator.delivered
      && s.bbr.estimator.delivered <= b.estimator.delivered
      && (DeliversSome(s.packets, ev.acked) <==> s.bbr.estimator.delivered < b.estimator.delivered)
      && |packets| == |s.packets|
      && (forall i :: 0 <= i < |packets| ==>
            && packets[i].state.delivered == s.packets[i].state.delivered
            && (Outstanding(packets[i]) <==> Outstanding(s.packets[i]) && i !in ev.acked))
  {
    hide EstimatorInv, UpdateRateSample, DeliversSome;
    var start := BeginAck(s.bbr, ev.now);
    AckAllKeeps(start, s.packets, ev.acked, ev.now);
    AckAllCounts(start, s.packets, ev.acked, ev.now);
    LoseAllKeeps(AckAll(start, s.packets, ev.acked, ev.now).0, ev.losses);
  }

  /** The largest stamp of the batch. */
  lemma BatchStamp(s: System, cfg: Config, ev: Event)
    requires Inv(s, cfg) && ev.Ack? && Admissible(s, ev)
    ensures
      var largest := BeforeEnd(s, ev).0.ack.packetDelivered;
      && (largest == 0 || exists i :: i in ev.acked && i < |s.packets| && s.packets[i].state.delivered == largest)
      && (forall i :: i in ev.acked && i < |s.packets| ==> s.packets[i].state.delivered <= largest)
  {
    hide EstimatorInv, UpdateRateSample;
    var start := BeginAck(s.bbr, ev.now);
    AckAllKeeps(start, s.packets, ev.acked, ev.now);
    LoseAllKeeps(AckAll(start, s.packets, ev.acked, ev.now).0, ev.losses);
  }

  /** How the end of an acknowledgement moves the round and ProbeRTT. */
  lemma EndAckMeans(b: Bbr, cfg: Config, r: Readings)
    ensures
      var c, marks := EndAck(b, cfg, r), MarksProbeRtt(UpdateModel(b, cfg, r), r.probeRttWindow);
      var starts := b.ack.packetDelivered >= b.round.nextDelivered;
      var unmarked := b.machine.mode != ProbeRTT || b.probe.doneStamp == None;
      && c.estimator.delivered == b.estimator.delivered && c.inFlight == b.inFlight
      && c.round.count == b.round.count + (if starts then 1 else 0)
      && c.round.nextDelivered == (if starts || marks then b.estimator.delivered else b.round.nextDelivered)
      && (marks ==> c.machine.mode == ProbeRTT && c.probe == Probe(Some(b.ack.now + cfg.probeRttDuration), false))
      && (c.machine.mode == ProbeRTT ==> (marks <==> unmarked && b.inFlight <= r.probeRttWindow))
      && (c.machine.mode == ProbeRTT && unmarked && !marks ==> c.probe.doneStamp == None)
      && (!unmarked ==>
            && !marks
            && c.probe.doneStamp == b.probe.doneStamp
            && c.probe.roundDone == (b.probe.roundDone || starts)
            && (c.machine.mode != ProbeRTT <==>
                  (b.probe.roundDone || starts) && b.ack.now >= b.probe.doneStamp.value))
      && (b.machine.mode == ProbeRTT && unmarked ==> c.machine.mode == ProbeRTT)
  {
    hide LeaveRecovery, UpdateRtprop;
  }

  // ----- Old and new packets

  /** A round starts only if the acknowledgement names a packet sent after the mark. */
  lemma NamesFresh(packets: seq<Packet>, acked: seq<nat>, mark: nat, next: nat, largest: nat)
    requires OldBefore(packets, mark, next) && InRange(acked, |packets|) && NewlyAcked(packets, acked)
    requires largest >= next
    requires largest == 0 || exists i :: i in acked && i < |packets| && packets[i].state.delivered == largest
    ensures exists i :: i in acked && mark <= i < |packets|
  {
    if largest == 0 {
      assert acked[0] in acked && Outstanding(packets[acked[0]]);
    } else {
      var i :| i in acked && i < |packets| && packets[i].state.delivered == largest;
      assert Outstanding(packets[i]);
    }
  }

  /** Nothing outstanding can pass for newer than this acknowledgement if and only if it settles. */
  lemma SettlesIff(s: System, cfg: Config, ev: Event)
    requires Inv(s, cfg) && ev.Ack? && Admissible(s, ev)
    ensures
      var (b, packets) := BeforeEnd(s, ev);
      OldBefore(packets, |packets|, b.estimator.delivered) <==> Settles(s, ev)
  {
    hide EstimatorInv, BeforeEnd, DeliversSome;
    BeforeEndMeans(s, cfg, ev);
    StampsAre(s.bbr.estimator, s.packets);
  }

  /** An acknowledgement that starts a round names a packet sent after any sound mark. */
  lemma RoundTakesRoundTrip(s: System, cfg: Config, ev: Event, mark: nat)
    requires Inv(s, cfg) && ev.Ack? && Admissible(s, ev)
    requires OldBefore(s.packets, mark, s.bbr.round.nextDelivered)
    requires Step(s, cfg, ev).bbr.round.count > s.bbr.round.count
    ensures exists i :: i in ev.acked && mark <= i < |s.packets|
  {
    hide EstimatorInv, EndAck, UpdateModel, MarksProbeRtt, BeforeEnd, OldBefore;
    var b := BeforeEnd(s, ev).0;
    BeforeEndMeans(s, cfg, ev);
    BatchStamp(s, cfg, ev);
    EndAckMeans(b, cfg, ev.readings);
    NamesFresh(s.packets, ev.acked, mark, s.bbr.round.nextDelivered, b.ack.packetDelivered);
  }

  /** A sound mark stays sound. */
  lemma OldStays(s: System, cfg: Config, ev: Event, mark: nat)
    requires Inv(s, cfg) && Admissible(s, ev)
    requires OldBefore(s.packets, mark, s.bbr.round.nextDelivered)
    ensures OldBefore(Step(s, cfg, ev).packets, mark, Step(s, cfg, ev).bbr.round.nextDelivered)
  {
    hide EstimatorInv, EndAck, UpdateModel, MarksProbeRtt, BeforeEnd, OnPacketSent, DeliversSome;
    if ev.Ack? {
      BeforeEndMeans(s, cfg, ev);
      EndAckMeans(BeforeEnd(s, ev).0, cfg, ev.readings);
    }
  }

  /** A mark set by an acknowledgement that settles, at a round start or in ProbeRTT, is sound. */
  lemma MarkIsSound(s: System, cfg: Config, ev: Event)
    requires Inv(s, cfg) && ev.Ack? && Admissible(s, ev)
    requires Step(s, cfg, ev).bbr.round.nextDelivered == Step(s, cfg, ev).bbr.estimator.delivered
    ensures
      var t := Step(s, cfg, ev);
      OldBefore(t.packets, |t.packets|, t.bbr.round.nextDelivered) <==> Settles(s, ev)
  {
    hide EstimatorInv, EndAck, UpdateModel, MarksProbeRtt, BeforeEnd, OldBefore, Settles;
    SettlesIff(s, cfg, ev);
    EndAckMeans(BeforeEnd(s, ev).0, cfg, ev.readings);
  }

  // ----- The invariant

  lemma EndAckEstimator(b: Bbr, packets: seq<Packet>, cfg: Config, r: Readings)
    requires EstimatorInv(b.estimator, packets)
    ensures
      var e := EndAck(b, cfg, r).estimator;
      && EstimatorInv(e, packets)
      && (e.sample.hasPrior ==> e.sample.delivered + e.sample.priorDelivered == CountedBytes(packets))
  {
    hide CountedBytes, SentBytes, LeaveRecovery, UpdateRtprop, CheckDrain, CheckFullPipe, UpdateRound, GenerateRateSample;
    GenerateKeeps(b.estimator, packets);
  }

  /** Outside ProbeRTT the mark of a limited application is gone once a packet sent after it is delivered. */
  lemma EndAckLimit(b: Bbr, packets: seq<Packet>, cfg: Config, r: Readings)
    requires EstimatorInv(b.estimator, packets)
    requires b.machine.mode != ProbeRTT && EndAck(b, cfg, r).machine.mode != ProbeRTT
    ensures
      IsAppLimited(EndAck(b, cfg, r).estimator) <==>
      && IsAppLimited(b.estimator)
      && forall i :: 0 <= i < |packets| && Counted(packets[i]) ==> packets[i].num <= b.estimator.lastAppLimited
  {
    hide EstimatorInv, LeaveRecovery, UpdateRtprop, UpdateRound, GenerateRateSample;
    GenerateKeeps(b.estimator, packets);
  }

  lemma AckStepKeeps(s: System, cfg: Config, ev: Event)
    requires Inv(s, cfg) && ev.Ack? && Admissible(s, ev)
    ensures Inv(Step(s, cfg, ev), cfg)
  {
    hide EstimatorInv, EndAck, UpdateModel, MarksProbeRtt, BeforeEnd, DeliversSome;
    var (b, packets) := BeforeEnd(s, ev);
    BeforeEndMeans(s, cfg, ev);
    EndAckMeans(b, cfg, ev.readings);
    EndAckEstimator(b, packets, cfg, ev.readings);
    EndAckKeepsMode(b, cfg, ev.readings);
    RecoveryStep(b, cfg, ev.readings);
  }

  lemma SendStepKeeps(s: System, cfg: Config, ev: Event)
    requires Inv(s, cfg) && ev.Send? && Admissible(s, ev)
    ensures Inv(Step(s, cfg, ev), cfg)
  {
    hide EstimatorInv, OnPacketSent;
    var p := Packet(ev.num, ev.size, ev.time, ev.inFlight, None, NO_STATE);
    if ev.inFlight {
      SendKeeps(s.bbr.estimator, s.packets, p);
    } else {
      QuietSendKeeps(s.bbr.estimator, s.packets, p);
    }
  }

  lemma LoseStepKeeps(s: System, cfg: Config, ev: Event)
    requires Inv(s, cfg) && ev.Lose?
    ensures Inv(Step(s, cfg, ev), cfg)
  {
    hide EstimatorInv;
  }

  lemma LimitStepKeeps(s: System, cfg: Config, ev: Event)
    requires Inv(s, cfg) && ev.Limit?
    ensures Inv(Step(s, cfg, ev), cfg)
  {
    hide CountedBytes, SentBytes;
  }

  lemma StepKeeps(s: System, cfg: Config, ev: Event)
    requires Inv(s, cfg) && Admissible(s, ev)
    ensures Inv(Step(s, cfg, ev), cfg)
  {
    hide Inv, Admissible;
    match ev
    case Send(_, _, _, _) => SendStepKeeps(s, cfg, ev);
    case Ack(_, _, _, _) => AckStepKeeps(s, cfg, ev);
    case Lose(_) => LoseStepKeeps(s, cfg, ev);
    case Limit(_) => LimitStepKeeps(s, cfg, ev);
  }

  // ----- Whole runs

  predicate AllAdmissible(s: System, cfg: Config, events: seq<Event>)
    decreases |events|
  {
    events != [] ==> Admissible(s, events[0]) && AllAdmissible(Step(s, cfg, events[0]), cfg, events[1..])
  }

  /** The state after the first `n` events. */
  function StateAt(s: System, cfg: Config, events: seq<Event>, n: nat): System
    requires AllAdmissible(s, cfg, events) && n <= |events|
    decreases n
  {
    if n == 0 then s else StateAt(Step(s, cfg, events[0]), cfg, events[1..], n - 1)
  }

  lemma {:induction false} StateStep(s: System, cfg: Config, events: seq<Event>, n: nat)
    requires AllAdmissible(s, cfg, events) && n < |events|
    ensures Admissible(StateAt(s, cfg, events, n), events[n])
    ensures StateAt(s, cfg, events, n + 1) == Step(StateAt(s, cfg, events, n), cfg, events[n])
    decreases n
  {
    hide Step;
    if n > 0 {
      StateStep(Step(s, cfg, events[0]), cfg, events[1..], n - 1);
    }
  }

  lemma {:induction false} RunKeeps(s: System, cfg: Config, events: seq<Event>, n: nat)
    requires Inv(s, cfg) && AllAdmissible(s, cfg, events) && n <= |events|
    ensures Inv(StateAt(s, cfg, events, n), cfg)
    decreases n
  {
    hide Inv, Step;
    if n > 0 {
      RunKeeps(s, cfg, events, n - 1);
      StateStep(s, cfg, events, n - 1);
      StepKeeps(StateAt(s, cfg, events, n - 1), cfg, events[n - 1]);
    }
  }

  /** The bytes delivered are those of the packets acknowledged, each counted once. */
  lemma DeliveredCountsOnce(s: System, cfg: Config, events: seq<Event>, n: nat)
    requires Inv(s, cfg) && AllAdmissible(s, cfg, events) && n <= |events|
    ensures
      var t := StateAt(s, cfg, events, n);
      t.bbr.estimator.delivered == CountedBytes(t.packets) <= SentBytes(t.packets)
  {
    hide StateAt, AllAdmissible, CountedBytes, SentBytes;
    RunKeeps(s, cfg, events, n);
    CountedAtMostSent(StateAt(s, cfg, events, n).packets);
  }

  lemma {:induction false} OldStaysRun(s: System, cfg: Config, events: seq<Event>, m: nat, n: nat, mark: nat)
    requires Inv(s, cfg) && AllAdmissible(s, cfg, events) && m <= n <= |events|
    requires var t := StateAt(s, cfg, events, m); OldBefore(t.packets, mark, t.bbr.round.nextDelivered)
    ensures var u := StateAt(s, cfg, events, n); OldBefore(u.packets, mark, u.bbr.round.nextDelivered)
    decreases n
  {
    hide Inv, Step, OldBefore, AllAdmissible, StateAt;
    if m < n {
      OldStaysRun(s, cfg, events, m, n - 1, mark);
      RunKeeps(s, cfg, events, n - 1);
      StateStep(s, cfg, events, n - 1);
      OldStays(StateAt(s, cfg, events, n - 1), cfg, events[n - 1], mark);
    }
  }

  // ----- Rounds

  ghost predicate StartsRound(s: System, cfg: Config, events: seq<Event>, n: nat)
    requires AllAdmissible(s, cfg, events) && n < |events|
  {
    StateAt(s, cfg, events, n + 1).bbr.round.count > StateAt(s, cfg, events, n).bbr.round.count
  }

  ghost predicate NamesFrom(ev: Event, mark: nat) {
    ev.Ack? && exists i :: i in ev.acked && mark <= i
  }

  lemma OnlyAcksStartRounds(s: System, cfg: Config, ev: Event)
    requires Admissible(s, ev) && Step(s, cfg, ev).bbr.round.count > s.bbr.round.count
    ensures ev.Ack?
  {
  }

  lemma RoundStartMarks(s: System, cfg: Config, ev: Event)
    requires Inv(s, cfg) && ev.Ack? && Admissible(s, ev)
    requires Step(s, cfg, ev).bbr.round.count > s.bbr.round.count
    ensures
      var t := Step(s, cfg, ev);
      t.roundMark == |t.packets| && t.bbr.round.nextDelivered == t.bbr.estimator.delivered
  {
    hide EstimatorInv, EndAck, UpdateModel, MarksProbeRtt, BeforeEnd;
    BeforeEndMeans(s, cfg, ev);
    EndAckMeans(BeforeEnd(s, ev).0, cfg, ev.readings);
  }

  /**
   Rounds do not overlap: if an acknowledgement that starts a round settles, then every later one
   that starts a round names a packet sent after it was processed.
   */
  lemma RoundsDoNotOverlap(s: System, cfg: Config, events: seq<Event>, m: nat, n: nat)
    requires Inv(s, cfg) && AllAdmissible(s, cfg, events) && m < n < |events|
    requires StartsRound(s, cfg, events, m) && StartsRound(s, cfg, events, n)
    requires events[m].Ack? ==> Settles(StateAt(s, cfg, events, m), events[m])
    ensures NamesFrom(events[n], |StateAt(s, cfg, events, m + 1).packets|)
  {
    hide Inv, Step, AllAdmissible, StateAt, Settles, OldBefore, Admissible;
    var before, after := StateAt(s, cfg, events, m), StateAt(s, cfg, events, n);
    var mark := |StateAt(s, cfg, events, m + 1).packets|;
    RunKeeps(s, cfg, events, m);
    StateStep(s, cfg, events, m);
    OnlyAcksStartRounds(before, cfg, events[m]);
    RoundStartMarks(before, cfg, events[m]);
    MarkIsSound(before, cfg, events[m]);
    OldStaysRun(s, cfg, events, m + 1, n, mark);
    RunKeeps(s, cfg, events, n);
    StateStep(s, cfg, events, n);
    OnlyAcksStartRounds(after, cfg, events[n]);
    RoundTakesRoundTrip(after, cfg, events[n], mark);
  }

  /** On every run from here, a round starts only with a packet sent after now. */
  ghost predicate NoOverlapFrom(s: System, cfg: Config) {
    forall events: seq<Event>, n: nat ::
      AllAdmissible(s, cfg, events) && n < |events| && StartsRound(s, cfg, events, n) ==>
        NamesFrom(events[n], |s.packets|)
  }

  lemma AckOneStarts(s: System, cfg: Config, i: nat, now: nat, r: Readings)
    requires Inv(s, cfg) && i < |s.packets| && Outstanding(s.packets[i])
    requires s.packets[i].state.delivered >= s.bbr.round.nextDelivered
    ensures
      var ev := Ack(now, [i], [], r);
      Admissible(s, ev) && Step(s, cfg, ev).bbr.round.count > s.bbr.round.count
  {
    hide EstimatorInv, EndAck, UpdateModel, MarksProbeRtt, OnAck;
    var ev := Ack(now, [i], [], r);
    assert i in ev.acked;
    BatchStamp(s, cfg, ev);
    BeforeEndMeans(s, cfg, ev);
    SingleAckThreshold(s, ev);
    EndAckMeans(BeforeEnd(s, ev).0, cfg, r);
  }

  lemma SingleAckThreshold(s: System, ev: Event)
    requires ev.Ack? && |ev.acked| == 1 && InRange(ev.acked, |s.packets|) && ev.losses == []
    ensures BeforeEnd(s, ev).0.round == s.bbr.round
  {
    hide UpdateRateSample;
    var i := ev.acked[0];
    var (c, q) := OnAck(BeginAck(s.bbr, ev.now), s.packets[i].(timeAcked := Some(ev.now)));
    assert ev.acked[1..] == [];
    assert AckAll(c, s.packets[i := q], [], ev.now) == (c, s.packets[i := q]);
  }

  lemma OneEventRun(s: System, cfg: Config, ev: Event)
    requires Admissible(s, ev)
    ensures AllAdmissible(s, cfg, [ev])
    ensures StateAt(s, cfg, [ev], 0) == s && StateAt(s, cfg, [ev], 1) == Step(s, cfg, ev)
  {
    hide Step;
    assert [ev][1..] == [];
    assert AllAdmissible(Step(s, cfg, ev), cfg, []);
  }

  /** A mark that is not sound is overtaken at once: one of the packets before it starts a round. */
  lemma UnsoundOverlaps(s: System, cfg: Config, r: Readings)
    requires Inv(s, cfg) && !OldBefore(s.packets, |s.packets|, s.bbr.round.nextDelivered)
    ensures !NoOverlapFrom(s, cfg)
  {
    hide Inv, Step, Admissible, AllAdmissible, StateAt;
    var i :| 0 <= i < |s.packets| && Outstanding(s.packets[i])
             && s.packets[i].state.delivered >= s.bbr.round.nextDelivered;
    var ev := Ack(0, [i], [], r);
    AckOneStarts(s, cfg, i, 0, r);
    OneEventRun(s, cfg, ev);
    assert StartsRound(s, cfg, [ev], 0);
    assert !NamesFrom([ev][0], |s.packets|);
  }

  /**
   The exact condition: after an acknowledgement that starts a round, every run starts its next
   rounds only with packets sent since, if and only if the acknowledgement settles.
   */
  lemma OverlapIff(s: System, cfg: Config, ev: Event)
    requires Inv(s, cfg) && ev.Ack? && Admissible(s, ev)
    requires Step(s, cfg, ev).bbr.round.count > s.bbr.round.count
    ensures NoOverlapFrom(Step(s, cfg, ev), cfg) <==> Settles(s, ev)
  {
    hide Inv, Step, AllAdmissible, StateAt, Settles, OldBefore;
    var t := Step(s, cfg, ev);
    StepKeeps(s, cfg, ev);
    RoundStartMarks(s, cfg, ev);
    MarkIsSound(s, cfg, ev);
    if Settles(s, ev) {
      forall events: seq<Event>, n: nat
        | AllAdmissible(t, cfg, events) && n < |events| && StartsRound(t, cfg, events, n)
        ensures NamesFrom(events[n], |t.packets|)
      {
        LaterRound(t, cfg, events, n);
      }
    } else {
      UnsoundOverlaps(t, cfg, ev.readings);
    }
  }

  lemma LaterRound(t: System, cfg: Config, events: seq<Event>, n: nat)
    requires Inv(t, cfg) && AllAdmissible(t, cfg, events) && n < |events| && StartsRound(t, cfg, events, n)
    requires OldBefore(t.packets, |t.packets|, t.bbr.round.nextDelivered)
    ensures NamesFrom(events[n], |t.packets|)
  {
    hide Inv, Step, AllAdmissible, OldBefore, Admissible;
    var after := StateAt(t, cfg, events, n);
    assert StateAt(t, cfg, events, 0) == t;
    OldStaysRun(t, cfg, events, 0, n, |t.packets|);
    RunKeeps(t, cfg, events, n);
    StateStep(t, cfg, events, n);
    OnlyAcksStartRounds(after, cfg, events[n]);
    RoundTakesRoundTrip(after, cfg, events[n], |t.packets|);
  }

  /** The mark left by the last round start is sound. */
  ghost predicate Sound(s: System) {
    OldBefore(s.packets, s.roundMark, s.bbr.round.nextDelivered)
  }

  ghost predicate SoundThroughout(s: System, cfg: Config, events: seq<Event>)
    requires AllAdmissible(s, cfg, events)
    decreases |events|
  {
    Sound(s) && (events != [] ==> SoundThroughout(Step(s, cfg, events[0]), cfg, events[1..]))
  }

  /** The event does not start a round, or settles. */
  ghost predicate SettlesIfRound(s: System, cfg: Config, ev: Event)
    requires Admissible(s, ev)
  {
    ev.Ack? && Step(s, cfg, ev).bbr.round.count > s.bbr.round.count ==> Settles(s, ev)
  }

  ghost predicate AllSettle(s: System, cfg: Config, events: seq<Event>)
    requires AllAdmissible(s, cfg, events)
    decreases |events|
  {
    events != [] ==>
      SettlesIfRound(s, cfg, events[0]) && AllSettle(Step(s, cfg, events[0]), cfg, events[1..])
  }

  lemma RoundMarkMoves(s: System, cfg: Config, ev: Event)
    requires Admissible(s, ev)
    ensures
      var t := Step(s, cfg, ev);
      (ev.Ack? && t.bbr.round.count > s.bbr.round.count) || t.roundMark == s.roundMark
  {
  }

  lemma SoundStepIff(s: System, cfg: Config, ev: Event)
    requires Inv(s, cfg) && Admissible(s, ev) && Sound(s)
    ensures Sound(Step(s, cfg, ev)) <==> SettlesIfRound(s, cfg, ev)
  {
    hide Inv, Step, Settles, OldBefore;
    RoundMarkMoves(s, cfg, ev);
    if ev.Ack? && Step(s, cfg, ev).bbr.round.count > s.bbr.round.count {
      RoundStartMarks(s, cfg, ev);
      MarkIsSound(s, cfg, ev);
    } else {
      OldStays(s, cfg, ev, s.roundMark);
    }
  }

  /** The round mark is sound throughout a run if and only if every acknowledgement that starts a round settles. */
  lemma {:induction false} RunSoundIff(s: System, cfg: Config, events: seq<Event>)
    requires Inv(s, cfg) && AllAdmissible(s, cfg, events) && Sound(s)
    ensures SoundThroughout(s, cfg, events) <==> AllSettle(s, cfg, events)
    decreases |events|
  {
    hide Inv, Step, Sound, SettlesIfRound;
    if events != [] {
      StepKeeps(s, cfg, events[0]);
      SoundStepIff(s, cfg, events[0]);
      if SettlesIfRound(s, cfg, events[0]) {
        RunSoundIff(Step(s, cfg, events[0]), cfg, events[1..]);
      }
    }
  }

  // ----- ProbeRTT

  lemma OtherStepsKeepProbe(s: System, cfg: Config, ev: Event)
    requires !ev.Ack?
    ensures
      var t := Step(s, cfg, ev);
      && t.bbr.machine == s.bbr.machine && t.bbr.probe == s.bbr.probe
      && t.probeMark == s.probeMark && t.probeTime == s.probeTime
  {
  }

  /**
   In ProbeRTT an unmarked stay is marked exactly by the first acknowledgement that finds the
   bytes in flight within the window; a marked stay keeps its mark.
   */
  lemma ProbeMarkMeans(s: System, cfg: Config, ev: Event)
    requires Inv(s, cfg) && ev.Ack? && Admissible(s, ev) && Step(s, cfg, ev).bbr.machine.mode == ProbeRTT
    ensures
      var t := Step(s, cfg, ev);
      && (!InStay(s) ==> (InStay(t) <==> t.bbr.inFlight <= ev.readings.probeRttWindow))
      && (!InStay(s) && InStay(t) ==>
            && t.probeMark == |t.packets| && t.probeTime == ev.now
            && t.bbr.round.nextDelivered == t.bbr.estimator.delivered && !t.bbr.probe.roundDone)
      && (InStay(s) ==>
            && InStay(t) && t.probeMark == s.probeMark && t.probeTime == s.probeTime
            && t.bbr.probe.doneStamp == s.bbr.probe.doneStamp)
  {
    hide EstimatorInv, EndAck, UpdateModel, MarksProbeRtt, BeforeEnd;
    BeforeEndMeans(s, cfg, ev);
    EndAckMeans(BeforeEnd(s, ev).0, cfg, ev.readings);
  }

  /** Since the mark, a completed round means that a packet sent after the mark was acknowledged. */
  ghost predicate ProbeSound(s: System, mark: nat) {
    && OldBefore(s.packets, mark, s.bbr.round.nextDelivered)
    && (s.bbr.probe.roundDone ==> SomeAckedFrom(s.packets, mark))
  }

  lemma AckedStays(s: System, cfg: Config, ev: Event, mark: nat)
    requires Inv(s, cfg) && Admissible(s, ev)
    ensures SomeAckedFrom(s.packets, mark) ==> SomeAckedFrom(Step(s, cfg, ev).packets, mark)
    ensures ev.Ack? && NamesFrom(ev, mark) ==> SomeAckedFrom(Step(s, cfg, ev).packets, mark)
  {
    hide EstimatorInv, EndAck, UpdateModel, MarksProbeRtt, BeforeEnd, OnPacketSent, DeliversSome;
    var t := Step(s, cfg, ev);
    if ev.Ack? {
      BeforeEndMeans(s, cfg, ev);
      if NamesFrom(ev, mark) {
        var i :| i in ev.acked && mark <= i;
        assert !Outstanding(t.packets[i]);
      }
    }
    if SomeAckedFrom(s.packets, mark) {
      var i :| mark <= i < |s.packets| && s.packets[i].timeAcked.Some?;
      assert !Outstanding(t.packets[i]);
    }
  }

  /** A step of a marked stay keeps it sound, also the step that ends the stay. */
  lemma StayIsSound(s: System, cfg: Config, ev: Event, mark: nat)
    requires Inv(s, cfg) && Admissible(s, ev) && InStay(s) && ProbeSound(s, mark)
    ensures ProbeSound(Step(s, cfg, ev), mark)
    ensures !InStay(Step(s, cfg, ev)) ==> ev.Ack? && Step(s, cfg, ev).bbr.probe.roundDone
    ensures !InStay(Step(s, cfg, ev)) ==> ev.now >= s.bbr.probe.doneStamp.value
  {
    hide EstimatorInv, EndAck, UpdateModel, MarksProbeRtt, BeforeEnd, OldBefore, SomeAckedFrom, DeliversSome;
    OldStays(s, cfg, ev, mark);
    AckedStays(s, cfg, ev, mark);
    if ev.Ack? {
      BeforeEndMeans(s, cfg, ev);
      EndAckMeans(BeforeEnd(s, ev).0, cfg, ev.readings);
      if Step(s, cfg, ev).bbr.round.count > s.bbr.round.count {
        RoundTakesRoundTrip(s, cfg, ev, mark);
      }
    } else {
      OtherStepsKeepProbe(s, cfg, ev);
    }
  }

  lemma {:induction false} StayIsSoundRun(s: System, cfg: Config, events: seq<Event>, m: nat, n: nat, mark: nat)
    requires Inv(s, cfg) && AllAdmissible(s, cfg, events) && m <= n <= |events|
    requires forall k :: m <= k < n ==> InStay(StateAt(s, cfg, events, k))
    requires ProbeSound(StateAt(s, cfg, events, m), mark)
    ensures ProbeSound(StateAt(s, cfg, events, n), mark)
    decreases n
  {
    hide Inv, Step, AllAdmissible, StateAt, ProbeSound, InStay;
    if m < n {
      StayIsSoundRun(s, cfg, events, m, n - 1, mark);
      RunKeeps(s, cfg, events, n - 1);
      StateStep(s, cfg, events, n - 1);
      StayIsSound(StateAt(s, cfg, events, n - 1), cfg, events[n - 1], mark);
    }
  }

  /** Event `m` is the acknowledgement with which the current stay in ProbeRTT began to count. */
  ghost predicate MarkedAt(s: System, cfg: Config, events: seq<Event>, m: nat, n: nat)
    requires AllAdmissible(s, cfg, events) && n <= |events|
  {
    && m < n
    && events[m].Ack?
    && !InStay(StateAt(s, cfg, events, m))
    && (forall k :: m < k <= n ==> InStay(StateAt(s, cfg, events, k)))
    && var t, u := StateAt(s, cfg, events, m + 1), StateAt(s, cfg, events, n);
       && t.bbr.inFlight <= events[m].readings.probeRttWindow
       && u.probeMark == |t.packets| && u.probeTime == events[m].now
  }

  /** A step that does not set a mark: the stay goes on with the mark it had. */
  lemma StayGoesOn(s: System, cfg: Config, ev: Event)
    requires Inv(s, cfg) && Admissible(s, ev) && InStay(Step(s, cfg, ev))
    ensures
      var t := Step(s, cfg, ev);
      if InStay(s) then t.probeMark == s.probeMark && t.probeTime == s.probeTime
      else
        && ev.Ack? && t.bbr.inFlight <= ev.readings.probeRttWindow
        && t.probeMark == |t.packets| && t.probeTime == ev.now
  {
    hide Inv, Step;
    if ev.Ack? {
      ProbeMarkMeans(s, cfg, ev);
    } else {
      OtherStepsKeepProbe(s, cfg, ev);
    }
  }

  lemma {:induction false} MarkFound(s: System, cfg: Config, events: seq<Event>, n: nat) returns (m: nat)
    requires Inv(s, cfg) && AllAdmissible(s, cfg, events) && n <= |events| && !InStay(s)
    requires InStay(StateAt(s, cfg, events, n))
    ensures MarkedAt(s, cfg, events, m, n)
    decreases n
  {
    hide Inv, Step, AllAdmissible, InStay;
    var t := StateAt(s, cfg, events, n - 1);
    RunKeeps(s, cfg, events, n - 1);
    StateStep(s, cfg, events, n - 1);
    StayGoesOn(t, cfg, events[n - 1]);
    if InStay(t) {
      m := MarkFound(s, cfg, events, n - 1);
    } else {
      m := n - 1;
    }
  }

  /** An acknowledgement that marks a stay in ProbeRTT. */
  ghost predicate MarksStay(s: System, cfg: Config, ev: Event) {
    ev.Ack? && Admissible(s, ev) && !InStay(s) && InStay(Step(s, cfg, ev))
  }

  lemma MarkStartsSound(s: System, cfg: Config, ev: Event)
    requires Inv(s, cfg) && MarksStay(s, cfg, ev)
    ensures var t := Step(s, cfg, ev); ProbeSound(t, |t.packets|) <==> Settles(s, ev)
  {
    hide Inv, Step, Settles, OldBefore;
    ProbeMarkMeans(s, cfg, ev);
    MarkIsSound(s, cfg, ev);
  }

  /**
   On every run, ProbeRTT ends only by an acknowledgement that comes at least its duration after
   the one that began to count, with which the bytes in flight had fallen to the window; and if
   that one settles, a packet sent since then was acknowledged.
   */
  lemma ProbeRttEnds(s: System, cfg: Config, events: seq<Event>, n: nat)
    requires Inv(s, cfg) && AllAdmissible(s, cfg, events) && n < |events| && !InStay(s)
    requires StateAt(s, cfg, events, n).bbr.machine.mode == ProbeRTT
    requires StateAt(s, cfg, events, n + 1).bbr.machine.mode != ProbeRTT
    ensures events[n].Ack?
    ensures
      exists m: nat ::
        && MarkedAt(s, cfg, events, m, n)
        && events[n].now >= events[m].now + cfg.probeRttDuration
        && (Settles(StateAt(s, cfg, events, m), events[m]) ==>
              SomeAckedFrom(StateAt(s, cfg, events, n + 1).packets, |StateAt(s, cfg, events, m + 1).packets|))
  {
    hide Inv, Step, AllAdmissible, StateAt, Settles, SomeAckedFrom, OldBefore;
    var t := StateAt(s, cfg, events, n);
    RunKeeps(s, cfg, events, n);
    StateStep(s, cfg, events, n);
    OnlyMarkedStaysEnd(t, cfg, events[n]);
    var m := MarkFound(s, cfg, events, n);
    StayEnds(t, cfg, events[n]);
    if Settles(StateAt(s, cfg, events, m), events[m]) {
      var mark := |StateAt(s, cfg, events, m + 1).packets|;
      RunKeeps(s, cfg, events, m);
      StateStep(s, cfg, events, m);
      MarkStartsSound(StateAt(s, cfg, events, m), cfg, events[m]);
      StayIsSoundRun(s, cfg, events, m + 1, n, mark);
      StayIsSound(t, cfg, events[n], mark);
    }
  }

  lemma OnlyMarkedStaysEnd(s: System, cfg: Config, ev: Event)
    requires Inv(s, cfg) && Admissible(s, ev)
    requires s.bbr.machine.mode == ProbeRTT && Step(s, cfg, ev).bbr.machine.mode != ProbeRTT
    ensures ev.Ack? && InStay(s)
  {
    hide EstimatorInv, EndAck, UpdateModel, MarksProbeRtt, BeforeEnd;
    if ev.Ack? {
      BeforeEndMeans(s, cfg, ev);
      EndAckMeans(BeforeEnd(s, ev).0, cfg, ev.readings);
    } else {
      OtherStepsKeepProbe(s, cfg, ev);
    }
  }

  lemma StayEnds(s: System, cfg: Config, ev: Event)
    requires Inv(s, cfg) && ev.Ack? && Admissible(s, ev) && InStay(s)
    requires Step(s, cfg, ev).bbr.machine.mode != ProbeRTT
    ensures ev.now >= s.probeTime + cfg.probeRttDuration
  {
    hide EstimatorInv, EndAck, UpdateModel, MarksProbeRtt, BeforeEnd;
    BeforeEndMeans(s, cfg, ev);
    EndAckMeans(BeforeEnd(s, ev).0, cfg, ev.readings);
  }

  /** Every run from here that leaves ProbeRTT has seen the acknowledgement of a packet sent after now. */
  ghost predicate NoEarlyExit(s: System, cfg: Config) {
    forall events: seq<Event>, n: nat ::
      AllAdmissible(s, cfg, events) && n < |events| && StayEndsAt(s, cfg, events, n) ==>
        SomeAckedFrom(StateAt(s, cfg, events, n + 1).packets, |s.packets|)
  }

  /** The stay in ProbeRTT that is going on at the start ends with event `n`. */
  ghost predicate StayEndsAt(s: System, cfg: Config, events: seq<Event>, n: nat)
    requires AllAdmissible(s, cfg, events) && n < |events|
  {
    && (forall k :: 0 <= k <= n ==> InStay(StateAt(s, cfg, events, k)))
    && !InStay(StateAt(s, cfg, events, n + 1))
  }

  lemma SoundStayEnds(s: System, cfg: Config, events: seq<Event>, n: nat)
    requires Inv(s, cfg) && ProbeSound(s, |s.packets|)
    requires AllAdmissible(s, cfg, events) && n < |events| && StayEndsAt(s, cfg, events, n)
    ensures SomeAckedFrom(StateAt(s, cfg, events, n + 1).packets, |s.packets|)
  {
    hide Inv, Step, AllAdmissible, InStay, SomeAckedFrom, OldBefore;
    assert StateAt(s, cfg, events, 0) == s;
    StayIsSoundRun(s, cfg, events, 0, n, |s.packets|);
    RunKeeps(s, cfg, events, n);
    StateStep(s, cfg, events, n);
    StayIsSound(StateAt(s, cfg, events, n), cfg, events[n], |s.packets|);
  }

  /** In an unsound stay, a packet sent before the mark ends it, once the duration has passed. */
  lemma UnsoundStayEnds(s: System, cfg: Config, r: Readings)
    requires Inv(s, cfg) && InStay(s) && !OldBefore(s.packets, |s.packets|, s.bbr.round.nextDelivered)
    ensures !NoEarlyExit(s, cfg)
  {
    hide Inv, Step, Admissible, AllAdmissible, StateAt;
    var i :| 0 <= i < |s.packets| && Outstanding(s.packets[i])
             && s.packets[i].state.delivered >= s.bbr.round.nextDelivered;
    var now := s.bbr.probe.doneStamp.value;
    var ev := Ack(now, [i], [], r);
    AckOneStarts(s, cfg, i, now, r);
    OneEventRun(s, cfg, ev);
    RoundEndsStay(s, cfg, ev);
    assert StayEndsAt(s, cfg, [ev], 0);
    assert |StateAt(s, cfg, [ev], 1).packets| == |s.packets|;
  }

  lemma RoundEndsStay(s: System, cfg: Config, ev: Event)
    requires Inv(s, cfg) && InStay(s) && ev.Ack? && Admissible(s, ev)
    requires Step(s, cfg, ev).bbr.round.count > s.bbr.round.count && ev.now >= s.bbr.probe.doneStamp.value
    ensures !InStay(Step(s, cfg, ev)) && |Step(s, cfg, ev).packets| == |s.packets|
  {
    hide EstimatorInv, EndAck, UpdateModel, MarksProbeRtt, BeforeEnd;
    BeforeEndMeans(s, cfg, ev);
    EndAckMeans(BeforeEnd(s, ev).0, cfg, ev.readings);
  }

  /** The exact condition for ProbeRTT to take a round trip: the acknowledgement that marks it settles. */
  lemma EarlyExitIff(s: System, cfg: Config, ev: Event)
    requires Inv(s, cfg) && MarksStay(s, cfg, ev)
    ensures NoEarlyExit(Step(s, cfg, ev), cfg) <==> Settles(s, ev)
  {
    hide Inv, Step, AllAdmissible, StateAt, Settles, OldBefore, InStay, SomeAckedFrom, StayEndsAt;
    var t := Step(s, cfg, ev);
    StepKeeps(s, cfg, ev);
    MarkStartsSound(s, cfg, ev);
    MarkThreshold(s, cfg, ev);
    if Settles(s, ev) {
      forall events: seq<Event>, n: nat
        | AllAdmissible(t, cfg, events) && n < |events| && StayEndsAt(t, cfg, events, n)
        ensures SomeAckedFrom(StateAt(t, cfg, events, n + 1).packets, |t.packets|)
      {
        SoundStayEnds(t, cfg, events, n);
      }
    } else {
      UnsoundStayEnds(t, cfg, ev.readings);
    }
  }

  lemma MarkThreshold(s: System, cfg: Config, ev: Event)
    requires Inv(s, cfg) && MarksStay(s, cfg, ev)
    ensures var t := Step(s, cfg, ev); !t.bbr.probe.roundDone
  {
    hide Inv, Step;
    ProbeMarkMeans(s, cfg, ev);
  }

  // ----- The state machine

  /** Once the pipe is filled it stays so, and Startup is never entered again. */
  lemma {:induction false} FilledForGood(s: System, cfg: Config, events: seq<Event>, m: nat, n: nat)
    requires Inv(s, cfg) && AllAdmissible(s, cfg, events) && m <= n <= |events|
    requires StateAt(s, cfg, events, m).bbr.machine.filledPipe
    ensures StateAt(s, cfg, events, n).bbr.machine.filledPipe
    ensures StateAt(s, cfg, events, n).bbr.machine.mode != Startup
    decreases n
  {
    hide Step, AllAdmissible, StateAt, EstimatorInv, ProbeInv, Admissible;
    RunKeeps(s, cfg, events, n);
    if m < n {
      FilledForGood(s, cfg, events, m, n - 1);
      RunKeeps(s, cfg, events, n - 1);
      StateStep(s, cfg, events, n - 1);
      FilledStays(StateAt(s, cfg, events, n - 1), cfg, events[n - 1]);
    }
  }

  lemma FilledStays(s: System, cfg: Config, ev: Event)
    requires Inv(s, cfg) && Admissible(s, ev) && s.bbr.machine.filledPipe
    ensures Step(s, cfg, ev).bbr.machine.filledPipe
  {
    hide EstimatorInv, EndAck, UpdateModel, MarksProbeRtt, BeforeEnd;
    if ev.Ack? {
      BeforeEndMeans(s, cfg, ev);
      EndAckKeepsMode(BeforeEnd(s, ev).0, cfg, ev.readings);
    } else {
      OtherStepsKeepProbe(s, cfg, ev);
    }
  }

  // ----- From the start

  function Start(now: nat, rtt: Option<nat>): System {
    System(
      Bbr(NEW_ESTIMATOR, Machine(Startup, false, 0, 0), Round(0, false, 0), Rtprop(rtt, now, false), Probe(None, false),
          Recovery(false, None, false), 0, false, AckState(now, 0, now)),
      [], 0, 0, 0)
  }

  /** A new controller is in Startup and idle, with the first round trip for an estimate and nothing else known. */
  lemma StartMeans(now: nat, rtt: Option<nat>)
    ensures
      var s := Start(now, rtt);
      && s.packets == [] && s.bbr.inFlight == 0 && s.bbr.estimator.delivered == 0
      && s.bbr.machine.mode == Startup && !s.bbr.machine.filledPipe
      && s.bbr.machine.fullBw == 0 && s.bbr.machine.fullBwCount == 0
      && s.bbr.round.count == 0 && !s.bbr.round.isStart && s.bbr.round.nextDelivered == 0
      && s.bbr.rtprop.value == rtt && s.bbr.rtprop.stamp == now && !s.bbr.rtprop.expired
      && s.bbr.probe.doneStamp == None && !s.bbr.probe.roundDone && !s.bbr.idleRestart
      && !s.bbr.recovery.active && s.bbr.recovery.start == None && !s.bbr.recovery.conservation
      && s.bbr.ack == AckState(now, 0, now) && s.roundMark == 0 && s.probeMark == 0 && s.probeTime == 0
  {
  }

  lemma StartKeeps(now: nat, rtt: Option<nat>, cfg: Config)
    ensures Inv(Start(now, rtt), cfg) && Sound(Start(now, rtt)) && !InStay(Start(now, rtt))
  {
  }

  /** The run theorems from the creation of the controller on. */
  lemma RunFromStart(now: nat, rtt: Option<nat>, cfg: Config, events: seq<Event>, n: nat)
    requires AllAdmissible(Start(now, rtt), cfg, events) && n <= |events|
    ensures
      var s := Start(now, rtt);
      var t := StateAt(s, cfg, events, n);
      && Inv(t, cfg)
      && t.bbr.estimator.delivered == CountedBytes(t.packets) <= SentBytes(t.packets)
      && (SoundThroughout(s, cfg, events) <==> AllSettle(s, cfg, events))
  {
    hide Start, StateAt, AllAdmissible, CountedBytes, SentBytes, Inv, Sound, SoundThroughout, AllSettle;
    var s := Start(now, rtt);
    StartKeeps(now, rtt, cfg);
    RunKeeps(s, cfg, events, n);
    DeliveredCountsOnce(s, cfg, events, n);
    RunSoundIff(s, cfg, events);
  }

  /**
   Rounds can overlap: before anything is delivered, a packet that does not count toward the
   bytes in flight is acknowledged on its own and starts a round, and then one sent before it
   starts another.
   */
  lemma QuietAckOverlaps(now: nat, size: nat, cfg: Config, r: Readings)
    requires 0 < size <= U64_MAX
    ensures
      var s := Start(now, None);
      var data, quiet := Send(0, size, now, true), Send(1, size, now, false);
      var first, second := Ack(now, [1], [], r), Ack(now, [0], [], r);
      && Admissible(s, data) && Admissible(Step(s, cfg, data), quiet)
      && var t := Step(Step(s, cfg, data), cfg, quiet);
         && |t.packets| == 2 && Admissible(t, first) && !Settles(t, first)
         && var u := Step(t, cfg, first);
            && u.bbr.round.count > t.bbr.round.count
            && Admissible(u, second) && Step(u, cfg, second).bbr.round.count > u.bbr.round.count
            && !NamesFrom(second, |t.packets|)
  {
    hide EndAck, UpdateModel, MarksProbeRtt, OnAck;
    var s := Start(now, None);
    var data, quiet := Send(0, size, now, true), Send(1, size, now, false);
    var first, second := Ack(now, [1], [], r), Ack(now, [0], [], r);
    StartKeeps(now, None, cfg);
    StepKeeps(s, cfg, data);
    StepKeeps(Step(s, cfg, data), cfg, quiet);
    var t := Step(Step(s, cfg, data), cfg, quiet);
    TwoPacketsSent(now, size, cfg);
    AckOneStarts(t, cfg, 1, now, r);
    var u := Step(t, cfg, first);
    StepKeeps(t, cfg, first);
    RoundStartMarks(t, cfg, first);
    BeforeEndMeans(t, cfg, first);
    EndAckMeans(BeforeEnd(t, first).0, cfg, r);
    AckOneStarts(u, cfg, 0, now, r);
  }

  lemma TwoPacketsSent(now: nat, size: nat, cfg: Config)
    requires 0 < size <= U64_MAX
    ensures
      var s := Start(now, None);
      var data, quiet := Send(0, size, now, true), Send(1, size, now, false);
      && Admissible(s, data) && Admissible(Step(s, cfg, data), quiet)
      && var t := Step(Step(s, cfg, data), cfg, quiet);
         && |t.packets| == 2 && Outstanding(t.packets[0]) && Outstanding(t.packets[1])
         && t.packets[0].state.delivered == t.packets[1].state.delivered == 0
         && !Pending(t.packets[1])
         && t.bbr.estimator.delivered == 0 && t.bbr.round.nextDelivered == 0
  {
  }
}
