/**
 The state machine and the packet-timed rounds of BBR, src/congestion_control/bbr.rs. Gains,
 bandwidth and window formulas are left out: what they decide comes in as `Readings`.
 */
module BbrRounds {
  import opened Arithmetic
  import opened DeliveryRate
  import opened Options

  const FULL_BW_COUNT_THRESHOLD: nat := 3

  datatype Config = Config(probeRttDuration: nat, rtpropFilterLen: nat)

  datatype Mode = Startup | Drain | ProbeBW | ProbeRTT

  /** The state and the full pipe estimate. */
  datatype Machine = Machine(mode: Mode, filledPipe: bool, fullBw: nat, fullBwCount: nat)

  datatype Round = Round(count: nat, isStart: bool, nextDelivered: nat)

  /** The least round-trip time; None as long as there is no sample. */
  datatype Rtprop = Rtprop(value: Option<nat>, stamp: nat, expired: bool)

  /** When ProbeRTT may end. */
  datatype Probe = Probe(doneStamp: Option<nat>, roundDone: bool)

  datatype Recovery = Recovery(active: bool, start: Option<nat>, conservation: bool)

  datatype AckState = AckState(now: nat, packetDelivered: nat, lastSentTime: nat)

  datatype Bbr = Bbr(
    estimator: Estimator,
    machine: Machine,
    round: Round,
    rtprop: Rtprop,
    probe: Probe,
    recovery: Recovery,
    inFlight: nat,
    idleRestart: bool,
    ack: AckState)

  /**
   What the bandwidth model says at one acknowledgement: the bandwidth, the estimate of what fills
   the path, and the window kept in ProbeRTT.
   */
  datatype Readings = Readings(bandwidth: nat, drainTarget: nat, probeRttWindow: nat)

  // ----- Parts of one acknowledgement

  function UpdateRound(round: Round, packetDelivered: nat, delivered: nat): Round {
    if packetDelivered >= round.nextDelivered then Round(round.count + 1, true, delivered)
    else round.(isStart := false)
  }

  /** The bandwidth is a quarter above the baseline, rounded down. */
  predicate Grew(fullBw: nat, bandwidth: nat) {
    bandwidth >= fullBw * 5 / 4
  }

  function CheckFullPipe(m: Machine, roundStart: bool, appLimited: bool, bandwidth: nat): Machine {
    if m.filledPipe || !roundStart || appLimited then m
    else if Grew(m.fullBw, bandwidth) then m.(fullBw := bandwidth, fullBwCount := 0)
    else m.(fullBwCount := m.fullBwCount + 1, filledPipe := m.fullBwCount + 1 >= FULL_BW_COUNT_THRESHOLD)
  }

  function CheckDrain(m: Machine, inFlight: nat, target: nat): Machine {
    var n := if m.mode == Startup && m.filledPipe then m.(mode := Drain) else m;
    if n.mode == Drain && inFlight <= target then n.(mode := ProbeBW) else n
  }

  function UpdateRtprop(rtprop: Rtprop, now: nat, rtt: nat, cfg: Config): Rtprop {
    var expired := SaturatingSub(now, rtprop.stamp) > cfg.rtpropFilterLen;
    if rtt != 0 && (rtprop.value == None || rtt <= rtprop.value.value || expired) then Rtprop(Some(rtt), now, expired)
    else rtprop.(expired := expired)
  }

  predicate SentInRecovery(recovery: Recovery, sentTime: nat) {
    recovery.start.Some? && sentTime <= recovery.start.value
  }

  function LeaveRecovery(recovery: Recovery, sentTime: nat): Recovery {
    if recovery.active && !SentInRecovery(recovery, sentTime) then Recovery(false, None, false) else recovery
  }

  /** Everything up to the ProbeRTT check. */
  function UpdateModel(b: Bbr, cfg: Config, r: Readings): Bbr {
    var e := GenerateRateSample(b.estimator);
    var recovery := LeaveRecovery(b.recovery, b.ack.lastSentTime);
    var round := UpdateRound(b.round, b.ack.packetDelivered, e.delivered);
    var machine := CheckFullPipe(b.machine, round.isStart, e.sample.isAppLimited, r.bandwidth);
    b.(estimator := e,
       round := round,
       recovery := if round.isStart then recovery.(conservation := false) else recovery,
       machine := CheckDrain(machine, b.inFlight, r.drainTarget),
       rtprop := UpdateRtprop(b.rtprop, b.ack.now, e.sample.rtt, cfg))
  }

  function EnterProbeRtt(b: Bbr): Bbr {
    if b.machine.mode != ProbeRTT && b.rtprop.expired && !b.idleRestart
    then b.(machine := b.machine.(mode := ProbeRTT), probe := b.probe.(doneStamp := None))
    else b
  }

  function HandleProbeRtt(b: Bbr, cfg: Config, window: nat): Bbr {
    var e := SetAppLimited(b.estimator, true);
    match b.probe.doneStamp
    case Some(stamp) =>
      var probe := b.probe.(roundDone := b.probe.roundDone || b.round.isStart);
      if probe.roundDone && b.ack.now >= stamp then
        b.(estimator := e,
           machine := b.machine.(mode := if b.machine.filledPipe then ProbeBW else Startup),
           probe := probe,
           rtprop := b.rtprop.(stamp := b.ack.now))
      else
        b.(estimator := e, probe := probe)
    case None =>
      if b.inFlight <= window then
        b.(estimator := e,
           probe := Probe(Some(b.ack.now + cfg.probeRttDuration), false),
           round := b.round.(nextDelivered := e.delivered))
      else
        b.(estimator := e)
  }

  function CheckProbeRtt(b: Bbr, cfg: Config, window: nat): Bbr {
    var c := EnterProbeRtt(b);
    var d := if c.machine.mode == ProbeRTT then HandleProbeRtt(c, cfg, window) else c;
    d.(idleRestart := false)
  }

  /** The bytes in flight have fallen to the ProbeRTT window: from here on a round and the duration count. */
  predicate MarksProbeRtt(b: Bbr, window: nat) {
    var c := EnterProbeRtt(b);
    c.machine.mode == ProbeRTT && c.probe.doneStamp == None && c.inFlight <= window
  }

  // ----- Calls

  function BeginAck(b: Bbr, now: nat): Bbr {
    b.(ack := AckState(now, 0, now))
  }

  function OnAck(b: Bbr, p: Packet): (Bbr, Packet) {
    var (e, q) := UpdateRateSample(b.estimator, p);
    (b.(estimator := e,
        inFlight := SaturatingSub(b.inFlight, p.size),
        ack := AckState(b.ack.now, Max(b.ack.packetDelivered, p.state.delivered), p.timeSent)),
     q)
  }

  function EndAck(b: Bbr, cfg: Config, r: Readings): Bbr {
    CheckProbeRtt(UpdateModel(b, cfg, r), cfg, r.probeRttWindow)
  }

  function OnSent(b: Bbr, p: Packet): (Bbr, Packet) {
    var (e, q) := OnPacketSent(b.estimator, p);
    (b.(estimator := e,
        idleRestart := b.idleRestart || (b.inFlight == 0 && IsAppLimited(e)),
        inFlight := b.inFlight + p.size),
     q)
  }

  function OnCongestionEvent(b: Bbr, now: nat, sentTime: nat, persistent: bool, lostBytes: nat): Bbr {
    var c := b.(inFlight := SaturatingSub(b.inFlight, lostBytes));
    if persistent then c.(recovery := c.recovery.(start := None))
    else if !c.recovery.active && !SentInRecovery(c.recovery, sentTime) then
      c.(recovery := Recovery(true, Some(now), true),
         round := c.round.(nextDelivered := c.estimator.delivered))
    else c
  }

  // ----- The state machine

  /**
   The states past Startup are reached only with a filled pipe, Startup is left for good when
   the pipe is filled, and the pipe counts as filled after three rounds without growth.
   */
  predicate ModeInv(m: Machine) {
    && (m.mode == Drain || m.mode == ProbeBW ==> m.filledPipe)
    && (m.mode == Startup ==> !m.filledPipe)
    && (m.filledPipe <==> m.fullBwCount >= FULL_BW_COUNT_THRESHOLD)
  }

  lemma EndAckKeepsMode(b: Bbr, cfg: Config, r: Readings)
    requires ModeInv(b.machine)
    ensures
      var c := EndAck(b, cfg, r);
      && ModeInv(c.machine)
      && (b.machine.filledPipe ==> c.machine.filledPipe && c.machine.mode != Startup)
      && (c.machine.mode == Drain && b.machine.mode != Drain ==> b.machine.mode == Startup && !b.machine.filledPipe)
      && (b.machine.mode == ProbeBW ==> c.machine.mode == ProbeBW || c.machine.mode == ProbeRTT)
      && (b.machine.mode != ProbeRTT ==>
            (c.machine.mode == ProbeRTT <==> b.ack.now > b.rtprop.stamp + cfg.rtpropFilterLen && !b.idleRestart))
      && (b.machine.mode == ProbeRTT || c.machine.mode == ProbeRTT ==> IsAppLimited(c.estimator))
      && !c.idleRestart
  {
    hide GenerateRateSample, LeaveRecovery;
  }

  /** Out of Startup with a filled pipe, and out of Drain, the bytes in flight decide between Drain and ProbeBW. */
  lemma DrainEnds(b: Bbr, cfg: Config, r: Readings)
    requires ModeInv(b.machine) && (b.machine.mode == Startup || b.machine.mode == Drain)
    ensures
      var c := EndAck(b, cfg, r);
      c.machine.mode == ProbeRTT ||
      c.machine.mode == if !c.machine.filledPipe then Startup else if b.inFlight <= r.drainTarget then ProbeBW else Drain
  {
    hide GenerateRateSample, SetAppLimited, LeaveRecovery, UpdateRtprop;
  }

  /**
   The full pipe estimate: a round start that is not application-limited counts; one that brings
   the bandwidth to five quarters of the baseline makes it the new baseline and starts the count
   anew, and the third in a row that does not fills the pipe, for good.
   */
  lemma FullPipeStep(b: Bbr, cfg: Config, r: Readings)
    requires ModeInv(b.machine)
    ensures
      var c := EndAck(b, cfg, r);
      var counts := c.round.count > b.round.count && !c.estimator.sample.isAppLimited && !b.machine.filledPipe;
      var grew := 5 * b.machine.fullBw < 4 * (r.bandwidth + 1);
      && c.machine.fullBwCount ==
         (if !counts then b.machine.fullBwCount else if grew then 0 else b.machine.fullBwCount + 1)
      && c.machine.fullBw == (if counts && grew then r.bandwidth else b.machine.fullBw)
      && (c.machine.filledPipe <==> c.machine.fullBwCount >= 3)
  {
    hide LeaveRecovery, UpdateRtprop;
  }

  /**
   The round-trip filter: a sample of zero is ignored, one that comes after the estimate has
   expired replaces it, and otherwise the smaller of the two stays. The estimate is renewed by a
   sample that does not exceed it, and at the end of ProbeRTT.
   */
  lemma RtpropStep(b: Bbr, cfg: Config, r: Readings)
    ensures
      var c := EndAck(b, cfg, r);
      var rtt, expired := b.estimator.sample.rtt, b.ack.now > b.rtprop.stamp + cfg.rtpropFilterLen;
      var taken := rtt != 0 && (expired || b.rtprop.value == None || rtt <= b.rtprop.value.value);
      var leaves := b.machine.mode == ProbeRTT && c.machine.mode != ProbeRTT;
      && c.estimator.sample.rtt == rtt
      && (rtt == 0 ==> c.rtprop.value == b.rtprop.value)
      && (rtt != 0 && (expired || b.rtprop.value == None) ==> c.rtprop.value == Some(rtt))
      && (rtt != 0 && !expired && b.rtprop.value.Some? ==> c.rtprop.value == Some(Min(rtt, b.rtprop.value.value)))
      && c.rtprop.stamp == if taken || leaves then b.ack.now else b.rtprop.stamp
  {
    hide LeaveRecovery, CheckFullPipe, CheckDrain;
    ModelKeepsProbe(b, cfg, r);
  }

  lemma ModelKeepsProbe(b: Bbr, cfg: Config, r: Readings)
    ensures UpdateModel(b, cfg, r).machine.mode == ProbeRTT <==> b.machine.mode == ProbeRTT
  {
    hide LeaveRecovery, UpdateRtprop, GenerateRateSample;
  }

  /** Recovery ends with the first packet acknowledged that was sent after it began. */
  lemma RecoveryStep(b: Bbr, cfg: Config, r: Readings)
    requires RecoveryInv(b.recovery)
    ensures
      var c := EndAck(b, cfg, r);
      && RecoveryInv(c.recovery)
      && (c.recovery.active <==>
            b.recovery.active && b.recovery.start.Some? && b.ack.lastSentTime <= b.recovery.start.value)
      && (c.recovery.active ==> c.recovery.start == b.recovery.start)
      && (c.recovery.conservation <==>
            c.recovery.active && b.recovery.conservation && c.round.count == b.round.count)
  {
    hide UpdateRtprop, CheckFullPipe, CheckDrain;
  }

  /** A recovery start is known only during recovery, and packets are conserved only then. */
  predicate RecoveryInv(recovery: Recovery) {
    (recovery.start.Some? ==> recovery.active) && (recovery.conservation ==> recovery.active)
  }

  /** A loss begins recovery if there is none; persistent congestion forgets when it began. */
  lemma LossStep(b: Bbr, now: nat, sentTime: nat, persistent: bool, lostBytes: nat)
    requires RecoveryInv(b.recovery)
    ensures
      var c := OnCongestionEvent(b, now, sentTime, persistent, lostBytes);
      && RecoveryInv(c.recovery)
      && c.inFlight == SaturatingSub(b.inFlight, lostBytes)
      && c.recovery ==
         (if persistent then b.recovery.(start := None)
          else if b.recovery.active then b.recovery
          else Recovery(true, Some(now), true))
      && c.round == (if !persistent && !b.recovery.active
                     then b.round.(nextDelivered := b.estimator.delivered) else b.round)
  {
  }

  /**
   An acknowledgement that finds the round-trip filter expired enters ProbeRTT, unless the packet
   sent before it went out of an idle, application-limited state.
   */
  lemma IdleRestartIff(b: Bbr, p: Packet, now: nat, q: Packet, cfg: Config, r: Readings)
    requires b.machine.mode != ProbeRTT && ModeInv(b.machine) && !b.idleRestart
    requires now > b.rtprop.stamp + cfg.rtpropFilterLen
    ensures
      EndAck(OnAck(BeginAck(OnSent(b, p).0, now), q).0, cfg, r).machine.mode == ProbeRTT <==>
      !(b.inFlight == 0 && b.estimator.lastAppLimited > 0)
  {
    hide EndAck, UpdateRateSample;
    var c := OnAck(BeginAck(OnSent(b, p).0, now), q).0;
    EndAckKeepsMode(c, cfg, r);
  }
}
