/** The controller in its own form, src/congestion_control/bbr.rs and delivery_rate.rs: fields updated call by call. */
module BbrController {
  import opened Arithmetic
  import opened BbrRounds
  import opened DeliveryRate
  import opened Options

  class SentPacket {
    const num: nat
    const size: nat
    const timeSent: nat
    const inFlight: bool
    var timeAcked: Option<nat>
    var state: SendState

    ghost function Value(): Packet
      reads this
    {
      Packet(num, size, timeSent, inFlight, timeAcked, state)
    }

    constructor (num: nat, size: nat, timeSent: nat, inFlight: bool)
      ensures Value() == Packet(num, size, timeSent, inFlight, None, NO_STATE)
    {
      this.num, this.size, this.timeSent, this.inFlight := num, size, timeSent, inFlight;
      timeAcked, state := None, NO_STATE;
    }
  }

  class DeliveryRateEstimator {
    var delivered: nat
    var lastAppLimited: nat
    var largestAcked: nat
    var lastSent: nat
    var sample: Sample

    ghost function Value(): Estimator
      reads this
    {
      Estimator(delivered, lastAppLimited, largestAcked, lastSent, sample)
    }

    constructor ()
      ensures Value() == NEW_ESTIMATOR
    {
      delivered, lastAppLimited, largestAcked, lastSent := 0, 0, 0, 0;
      sample := Sample(false, 0, false, 0, 0);
    }

    method PacketSent(p: SentPacket)
      modifies this, p`state
      ensures (Value(), p.Value()) == OnPacketSent(old(Value()), old(p.Value()))
    {
      p.state := SendState(true, delivered, lastAppLimited != 0);
      lastSent := p.num;
    }

    method UpdateSample(p: SentPacket)
      modifies this, p`state
      ensures (Value(), p.Value()) == UpdateRateSample(old(Value()), old(p.Value()))
    {
      if !p.state.pending || p.timeAcked == None {
        return;
      }
      delivered := SaturatingAdd(delivered, p.size);
      if !sample.hasPrior || p.state.delivered > sample.priorDelivered {
        sample := sample.(priorDelivered := p.state.delivered, hasPrior := true,
                          isAppLimited := p.state.isAppLimited);
      }
      sample := sample.(rtt := SaturatingSub(p.timeAcked.value, p.timeSent),
                        delivered := SaturatingSub(delivered, sample.priorDelivered));
      p.state := p.state.(pending := false);
      largestAcked := Max(p.num, largestAcked);
    }

    method SetLimited(limited: bool)
      modifies this`lastAppLimited
      ensures Value() == SetAppLimited(old(Value()), limited)
    {
      lastAppLimited := if limited then Max(lastSent, 1) else 0;
    }

    method GenerateSample()
      modifies this
      ensures Value() == GenerateRateSample(old(Value()))
    {
      if lastAppLimited != 0 && largestAcked > lastAppLimited {
        SetLimited(false);
      }
      if !sample.hasPrior {
        return;
      }
      sample := sample.(delivered := SaturatingSub(delivered, sample.priorDelivered));
    }
  }

  class Controller {
    const cfg: Config
    const estimator: DeliveryRateEstimator
    var machine: Machine
    var round: Round
    var rtprop: Rtprop
    var probe: Probe
    var recovery: Recovery
    var bytesInFlight: nat
    var isIdleRestart: bool
    var ackState: AckState

    ghost function Value(): Bbr
      reads this, estimator
    {
      Bbr(estimator.Value(), machine, round, rtprop, probe, recovery, bytesInFlight, isIdleRestart, ackState)
    }

    constructor (cfg: Config, now: nat, initialRtt: Option<nat>)
      ensures this.cfg == cfg && fresh(estimator)
      ensures
        Value() ==
        Bbr(NEW_ESTIMATOR, Machine(Startup, false, 0, 0),
            Round(0, false, 0), Rtprop(initialRtt, now, false), Probe(None, false), Recovery(false, None, false),
            0, false, AckState(now, 0, now))
    {
      this.cfg := cfg;
      estimator := new DeliveryRateEstimator();
      machine, round := Machine(Startup, false, 0, 0), Round(0, false, 0);
      rtprop, probe := Rtprop(initialRtt, now, false), Probe(None, false);
      recovery, bytesInFlight := Recovery(false, None, false), 0;
      isIdleRestart, ackState := false, AckState(now, 0, now);
    }

    // ----- Parts of one acknowledgement

    method NextRound()
      modifies this`round, this`recovery
      ensures round == UpdateRound(old(round), ackState.packetDelivered, estimator.delivered)
      ensures recovery == if round.isStart then old(recovery).(conservation := false) else old(recovery)
    {
      if ackState.packetDelivered >= round.nextDelivered {
        round := round.(nextDelivered := estimator.delivered);
        round := round.(count := round.count + 1);
        round := round.(isStart := true);
        recovery := recovery.(conservation := false);
      } else {
        round := round.(isStart := false);
      }
    }

    method FullPipeCheck(bandwidth: nat)
      modifies this`machine
      ensures machine == CheckFullPipe(old(machine), round.isStart, estimator.sample.isAppLimited, bandwidth)
    {
      if machine.filledPipe || !round.isStart || estimator.sample.isAppLimited {
        return;
      }
      if bandwidth >= machine.fullBw * 5 / 4 {
        machine := machine.(fullBw := bandwidth);
        machine := machine.(fullBwCount := 0);
        return;
      }
      machine := machine.(fullBwCount := machine.fullBwCount + 1);
      if machine.fullBwCount >= FULL_BW_COUNT_THRESHOLD {
        machine := machine.(filledPipe := true);
      }
    }

    method DrainCheck(target: nat)
      modifies this`machine
      ensures machine == CheckDrain(old(machine), bytesInFlight, target)
    {
      if machine.mode == Startup && machine.filledPipe {
        machine := machine.(mode := Drain);
      }
      if machine.mode == Drain && bytesInFlight <= target {
        machine := machine.(mode := ProbeBW);
      }
    }

    method RtpropUpdate()
      modifies this`rtprop
      ensures rtprop == UpdateRtprop(old(rtprop), ackState.now, estimator.sample.rtt, cfg)
    {
      rtprop := rtprop.(expired := SaturatingSub(ackState.now, rtprop.stamp) > cfg.rtpropFilterLen);
      var rtt := estimator.sample.rtt;
      if rtt != 0 && (rtprop.value == None || rtt <= rtprop.value.value || rtprop.expired) {
        rtprop := rtprop.(value := Some(rtt), stamp := ackState.now);
      }
    }

    method RecoveryCheck()
      modifies this`recovery
      ensures recovery == LeaveRecovery(old(recovery), ackState.lastSentTime)
    {
      if recovery.active && !SentInRecovery(recovery, ackState.lastSentTime) {
        recovery := Recovery(false, None, false);
      }
    }

    method ProbeRttStep(window: nat)
      modifies this`machine, this`probe, this`round, this`rtprop, estimator`lastAppLimited
      ensures Value() == HandleProbeRtt(old(Value()), cfg, window)
    {
      estimator.SetLimited(true);
      if probe.doneStamp.Some? {
        if round.isStart {
          probe := probe.(roundDone := true);
        }
        if probe.roundDone && ackState.now >= probe.doneStamp.value {
          rtprop := rtprop.(stamp := ackState.now);
          machine := machine.(mode := if machine.filledPipe then ProbeBW else Startup);
        }
      } else if bytesInFlight <= window {
        probe := Probe(Some(ackState.now + cfg.probeRttDuration), false);
        round := round.(nextDelivered := estimator.delivered);
      }
    }

    method ProbeRttCheck(window: nat)
      modifies this, estimator`lastAppLimited
      ensures Value() == CheckProbeRtt(old(Value()), cfg, window)
    {
      hide HandleProbeRtt;
      if machine.mode != ProbeRTT && rtprop.expired && !isIdleRestart {
        machine := machine.(mode := ProbeRTT);
        probe := probe.(doneStamp := None);
      }
      assert Value() == EnterProbeRtt(old(Value()));
      if machine.mode == ProbeRTT {
        ProbeRttStep(window);
      }
      isIdleRestart := false;
    }

    // ----- Calls

    method BeginAck(now: nat)
      modifies this`ackState
      ensures Value() == BbrRounds.BeginAck(old(Value()), now)
    {
      ackState := AckState(now, 0, now);
    }

    method OnAck(p: SentPacket)
      modifies this`bytesInFlight, this`ackState, estimator, p`state
      ensures (Value(), p.Value()) == BbrRounds.OnAck(old(Value()), old(p.Value()))
    {
      estimator.UpdateSample(p);
      bytesInFlight := SaturatingSub(bytesInFlight, p.size);
      ackState := AckState(ackState.now, Max(ackState.packetDelivered, p.state.delivered), p.timeSent);
    }

    method EndAck(r: Readings)
      modifies this, estimator
      ensures Value() == BbrRounds.EndAck(old(Value()), cfg, r)
    {
      hide GenerateRateSample, LeaveRecovery, CheckFullPipe, CheckDrain, UpdateRtprop, CheckProbeRtt;
      estimator.GenerateSample();
      RecoveryCheck();
      NextRound();
      FullPipeCheck(r.bandwidth);
      DrainCheck(r.drainTarget);
      RtpropUpdate();
      assert Value() == UpdateModel(old(Value()), cfg, r);
      ProbeRttCheck(r.probeRttWindow);
    }

    method OnSent(p: SentPacket)
      modifies this`isIdleRestart, this`bytesInFlight, estimator, p`state
      ensures (Value(), p.Value()) == BbrRounds.OnSent(old(Value()), old(p.Value()))
    {
      estimator.PacketSent(p);
      if bytesInFlight == 0 && estimator.lastAppLimited != 0 {
        isIdleRestart := true;
      }
      bytesInFlight := bytesInFlight + p.size;
    }

    method OnCongestionEvent(now: nat, sentTime: nat, persistent: bool, lostBytes: nat)
      modifies this`bytesInFlight, this`recovery, this`round
      ensures Value() == BbrRounds.OnCongestionEvent(old(Value()), now, sentTime, persistent, lostBytes)
    {
      bytesInFlight := SaturatingSub(bytesInFlight, lostBytes);
      if persistent {
        recovery := recovery.(start := None);
      } else if !recovery.active && !SentInRecovery(recovery, sentTime) {
        recovery := Recovery(true, Some(now), true);
        round := round.(nextDelivered := estimator.delivered);
      }
    }
  }
}
