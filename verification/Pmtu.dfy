/**
 Path MTU discovery, src/connection/pmtu.rs: a binary search for the largest datagram a path
 delivers, with three attempts a size, a failure ceiling and a 99% stopping rule.

 `Prober` is the state as a value and `Send`, `Acked` and `Lost` its transitions. `Explore`
 and `Search` run the whole discovery, against arbitrary answers and against a path that
 delivers exactly the sizes up to its MTU. The class updates the same fields in place.
 */
module PathMtu {
  import opened Arithmetic
  import opened Options

  const DEFAULT_SIZE: nat := 1200
  const MAX_PACKET_SIZE_IPV4: nat := 1472
  const MAX_PACKET_SIZE_IPV6: nat := 1452
  const MAX_PROBE_COUNT: nat := 3

  datatype Prober = Prober(
    shouldProbe: bool,
    currentSize: nat,
    probeSize: Option<nat>,
    probeCount: nat,
    failedSize: nat,
    maxPmtu: nat)

  function Init(enable: bool, maxPmtu: nat, isIpv6: bool): Prober {
    var limit :=
      if maxPmtu != DEFAULT_SIZE then maxPmtu
      else if isIpv6 then MAX_PACKET_SIZE_IPV6
      else MAX_PACKET_SIZE_IPV4;
    Prober(enable, DEFAULT_SIZE, None, 0, 0, limit)
  }

  function MtuCeiling(failedSize: nat, maxPmtu: nat, peer: nat): nat {
    Min(if failedSize > 0 then failedSize else maxPmtu, peer)
  }

  function NextProbe(currentSize: nat, failedSize: nat, maxPmtu: nat, peer: nat): nat {
    var ceiling := MtuCeiling(failedSize, maxPmtu, peer);
    if failedSize == 0 && ceiling < 1500 then ceiling else (currentSize + ceiling) / 2
  }

  /** The 0.99 quotient test of the code, without the division. */
  predicate Finished(currentSize: nat, failedSize: nat, maxPmtu: nat, peer: nat) {
    var ceiling := MtuCeiling(failedSize, maxPmtu, peer);
    currentSize >= ceiling || 100 * currentSize >= 99 * ceiling
  }

  /** Fix the size of the next probe, unless it is fixed already. */
  function Pick(p: Prober, peer: nat): Prober {
    if p.probeSize.Some? then p
    else p.(probeSize := Some(NextProbe(p.currentSize, p.failedSize, p.maxPmtu, peer)))
  }

  function Sent(p: Prober): Prober {
    p.(shouldProbe := false)
  }

  function Acked(p: Prober, size: nat, peer: nat): Prober {
    var current := if p.currentSize >= size then p.currentSize else size;
    p.(currentSize := current,
       probeCount := 0,
       probeSize := Some(NextProbe(current, p.failedSize, p.maxPmtu, peer)),
       shouldProbe := !Finished(current, p.failedSize, p.maxPmtu, peer))
  }

  function Lost(p: Prober, size: nat, peer: nat): Prober {
    if p.probeSize != Some(size) then
      p
    else if p.probeCount + 1 < MAX_PROBE_COUNT then
      p.(probeCount := p.probeCount + 1, shouldProbe := true)
    else
      p.(failedSize := size,
         probeSize := Some(NextProbe(p.currentSize, size, p.maxPmtu, peer)),
         probeCount := 0,
         shouldProbe := !Finished(p.currentSize, size, p.maxPmtu, peer))
  }

  /** One probe: it is picked, sent, and then acknowledged or declared lost. */
  function Probe(p: Prober, delivered: bool, peer: nat): Prober {
    var sent := Sent(Pick(p, peer));
    if delivered then Acked(sent, sent.probeSize.value, peer) else Lost(sent, sent.probeSize.value, peer)
  }

  // ----- The search invariant

  function Limit(p: Prober, peer: nat): nat {
    Min(p.maxPmtu, peer)
  }

  function Ceiling(p: Prober, peer: nat): nat {
    MtuCeiling(p.failedSize, p.maxPmtu, peer)
  }

  /** The size the next probe will have. */
  function ProbeSize(p: Prober, peer: nat): nat {
    if p.probeSize.Some? then p.probeSize.value
    else NextProbe(p.currentSize, p.failedSize, p.maxPmtu, peer)
  }

  ghost predicate Inv(p: Prober, peer: nat) {
    && DEFAULT_SIZE <= p.currentSize
    && p.probeCount < MAX_PROBE_COUNT
    && (p.probeSize.Some? ==>
          p.probeSize.value == NextProbe(p.currentSize, p.failedSize, p.maxPmtu, peer))
    && (p.failedSize > 0 ==> p.failedSize <= Limit(p, peer))
    && (p.currentSize <= Limit(p, peer) || p.currentSize == DEFAULT_SIZE)
    // while the search goes on and some size has failed there is room between the bounds
    && (p.shouldProbe && p.failedSize > 0 ==> 100 * p.currentSize < 99 * p.failedSize)
    && (p.shouldProbe && p.failedSize == 0 && p.currentSize > DEFAULT_SIZE ==>
          100 * p.currentSize < 99 * Ceiling(p, peer))
  }

  lemma InitInv(enable: bool, maxPmtu: nat, isIpv6: bool, peer: nat)
    ensures Inv(Init(enable, maxPmtu, isIpv6), peer)
  {
  }

  /**
   An unset maximum stands for an Ethernet packet of 1500 bytes without its headers: 20 or 40
   bytes for the address family and 8 for UDP.
   */
  lemma InitLimits(enable: bool, maxPmtu: nat, isIpv6: bool)
    ensures
      var p := Init(enable, maxPmtu, isIpv6);
      && p.shouldProbe == enable && p.currentSize == 1200
      && p.probeSize == None && p.probeCount == 0 && p.failedSize == 0
      && p.maxPmtu == if maxPmtu != 1200 then maxPmtu else if isIpv6 then 1500 - 40 - 8 else 1500 - 20 - 8
  {
  }

  /** On a path that carries Ethernet packets one probe finds the size and ends the discovery. */
  lemma OneProbeSuffices(isIpv6: bool, peer: nat)
    requires peer >= 1500
    ensures
      var p := Init(true, 1200, isIpv6);
      var size := if isIpv6 then 1452 else 1472;
      && ProbeSize(p, peer) == size
      && Probe(p, true, peer).currentSize == size && !Probe(p, true, peer).shouldProbe
  {
  }

  /** While a probe is under way its size is fixed and no other is due. */
  lemma OneUnderWay(p: Prober, peer: nat)
    ensures
      var q := Sent(Pick(p, peer));
      && !q.shouldProbe && q.probeSize == Some(ProbeSize(p, peer))
      && q == p.(shouldProbe := false, probeSize := q.probeSize)
  {
  }

  /** A size fails at its third loss in a row, and the losses of other sizes do not count. */
  lemma ThirdLossFails(p: Prober, size: nat, other: nat, peer: nat)
    requires p.probeSize == Some(size) != Some(other) && p.probeCount == 0
    ensures
      var once := Lost(p, size, peer);
      var twice := Lost(Lost(once, other, peer), size, peer);
      var thrice := Lost(Lost(twice, other, peer), size, peer);
      && once.shouldProbe && once.probeSize == Some(size) && once.failedSize == p.failedSize
      && twice.shouldProbe && twice.probeSize == Some(size) && twice.failedSize == p.failedSize
      && thrice.failedSize == size && thrice.probeCount == 0 && thrice.currentSize == p.currentSize
  {
    hide NextProbe, Finished;
  }

  /** What the search does next, once it has a size that works and perhaps one that does not. */
  lemma NextProbeIs(p: Prober, peer: nat)
    requires p.probeSize == None
    ensures
      var ceiling := if p.failedSize > 0 then Min(p.failedSize, peer) else Min(p.maxPmtu, peer);
      var size := ProbeSize(p, peer);
      if p.failedSize == 0 && ceiling < 1500 then size == ceiling
      else 2 * size <= p.currentSize + ceiling < 2 * size + 2
  {
  }

  /** An acknowledgement, late ones of earlier sizes included, keeps the larger size and the invariant. */
  lemma AckedKeeps(p: Prober, size: nat, peer: nat)
    requires Inv(p, peer) && size <= Limit(p, peer)
    ensures
      var q := Acked(p, size, peer);
      && Inv(q, peer)
      && q.currentSize == Max(p.currentSize, size) && q.failedSize == p.failedSize && q.maxPmtu == p.maxPmtu
      && q.probeCount == 0 && q.probeSize.Some?
      && (q.shouldProbe <==> 100 * q.currentSize < 99 * Ceiling(p, peer))
  {
  }

  /** A loss keeps the invariant: one of another size, or of the probe that was due. */
  lemma LostKeeps(p: Prober, size: nat, peer: nat)
    requires Inv(p, peer)
    requires p.probeSize == Some(size) ==> Inv(p.(shouldProbe := true), peer)
    ensures
      var q := Lost(p, size, peer);
      && Inv(q, peer)
      && q.currentSize == p.currentSize && q.maxPmtu == p.maxPmtu
      && (q.failedSize != p.failedSize ==>
            q.failedSize == size && q.probeSize.Some? &&
            (q.shouldProbe <==> 100 * q.currentSize < 99 * Ceiling(q, peer)))
  {
  }

  /** How often the distance to the ceiling can still be halved. */
  function Halvings(gap: nat): nat
    decreases gap
  {
    if gap < 2 then 0 else 1 + Halvings((gap + 1) / 2)
  }

  lemma {:induction false} HalvingsMonotone(a: nat, b: nat)
    requires a <= b
    ensures Halvings(a) <= Halvings(b)
    decreases b
  {
    if a >= 2 {
      HalvingsMonotone((a + 1) / 2, (b + 1) / 2);
    }
  }

  function Gap(p: Prober, peer: nat): nat {
    var ceiling := Ceiling(p, peer);
    if ceiling <= p.currentSize then 0 else ceiling - p.currentSize
  }

  /** How many different sizes can still be tried. */
  function SizesLeft(p: Prober, peer: nat): nat {
    Halvings(Gap(p, peer)) + if p.failedSize == 0 then 2 else 1
  }

  /** An upper bound on the number of probes that are still to be sent. */
  function ProbesLeft(p: Prober, peer: nat): nat
    requires p.probeCount < MAX_PROBE_COUNT
  {
    if !p.shouldProbe then 0 else MAX_PROBE_COUNT * SizesLeft(p, peer) - p.probeCount
  }

  lemma ProbesRemain(p: Prober, peer: nat)
    requires Inv(p, peer)
    ensures p.shouldProbe <==> ProbesLeft(p, peer) > 0
  {
    hide Halvings;
  }

  /** A probe never exceeds what the configuration and the peer allow. */
  lemma ProbeWithinLimit(p: Prober, peer: nat)
    requires Inv(p, peer) && p.shouldProbe
    ensures ProbeSize(p, peer) <= Limit(p, peer)
  {
  }

  lemma HalvingsStep(gap: nat, rest: nat)
    requires 2 <= gap && rest <= (gap + 1) / 2
    ensures Halvings(rest) < Halvings(gap)
  {
    HalvingsMonotone(rest, (gap + 1) / 2);
  }

  /** Whatever its fate, a probe keeps the invariant. */
  lemma ProbeKeeps(p: Prober, delivered: bool, peer: nat)
    requires Inv(p, peer) && p.shouldProbe
    ensures
      var q := Probe(p, delivered, peer);
      && Inv(q, peer)
      && q.maxPmtu == p.maxPmtu
      && (!q.shouldProbe ==> Finished(q.currentSize, q.failedSize, q.maxPmtu, peer))
      && q.currentSize == (if delivered && ProbeSize(p, peer) > p.currentSize then ProbeSize(p, peer) else p.currentSize)
      && (q.failedSize == p.failedSize || (!delivered && q.failedSize == ProbeSize(p, peer)))
  {
    ProbeWithinLimit(p, peer);
  }

  /** A size settled either way brings the bounds to half their distance, or is the first ceiling of all. */
  lemma GapHalves(p: Prober, delivered: bool, peer: nat)
    requires Inv(p, peer) && p.shouldProbe && (delivered || p.probeCount + 1 == MAX_PROBE_COUNT)
    requires Probe(p, delivered, peer).shouldProbe
    ensures
      var q := Probe(p, delivered, peer);
      if p.failedSize == 0 && Ceiling(p, peer) < 1500 then q.failedSize > 0 && Gap(q, peer) <= Gap(p, peer)
      else 2 <= Gap(p, peer) && Gap(q, peer) <= (Gap(p, peer) + 1) / 2 && (p.failedSize > 0 ==> q.failedSize > 0)
  {
    hide Probe, Inv;
    ProbeWithinLimit(p, peer);
    Settled(p, delivered, peer);
    if !(p.failedSize == 0 && Ceiling(p, peer) < 1500) {
      RoomLeft(p, peer);
    }
  }

  /** The bounds after a size was settled either way. */
  lemma Settled(p: Prober, delivered: bool, peer: nat)
    requires Inv(p, peer) && (delivered || p.probeCount + 1 == MAX_PROBE_COUNT)
    ensures
      var q, size := Probe(p, delivered, peer), NextProbe(p.currentSize, p.failedSize, p.maxPmtu, peer);
      && q.maxPmtu == p.maxPmtu
      && q.currentSize == (if delivered && size > p.currentSize then size else p.currentSize)
      && q.failedSize == (if delivered then p.failedSize else size)
      && q.shouldProbe == !Finished(q.currentSize, q.failedSize, q.maxPmtu, peer)
  {
    hide NextProbe, Finished;
  }

  lemma RoomLeft(p: Prober, peer: nat)
    requires Inv(p, peer) && p.shouldProbe && !(p.failedSize == 0 && Ceiling(p, peer) < 1500)
    ensures p.currentSize + 2 <= Ceiling(p, peer)
  {
  }

  /** Every probe uses up one of the probes left. */
  lemma ProbeProgress(p: Prober, delivered: bool, peer: nat)
    requires Inv(p, peer) && p.shouldProbe
    ensures ProbesLeft(Probe(p, delivered, peer), peer) < ProbesLeft(p, peer)
  {
    var q := Probe(p, delivered, peer);
    ProbesRemain(p, peer);
    if q.shouldProbe && (delivered || p.probeCount + 1 == MAX_PROBE_COUNT) {
      GapHalves(p, delivered, peer);
      SettledCount(p, delivered, peer);
      hide Halvings, Probe, Gap;
      if p.failedSize == 0 && Ceiling(p, peer) < 1500 {
        HalvingsMonotone(Gap(q, peer), Gap(p, peer));
      } else {
        HalvingsStep(Gap(p, peer), Gap(q, peer));
      }
    }
  }

  lemma SettledCount(p: Prober, delivered: bool, peer: nat)
    requires delivered || p.probeCount + 1 == MAX_PROBE_COUNT
    ensures Probe(p, delivered, peer).probeCount == 0
  {
  }

  // ----- Discovery with arbitrary answers

  /** The state after answering the probes in turn, until discovery stops or the answers run out. */
  function Explore(p: Prober, answers: seq<bool>, peer: nat): Prober
    decreases |answers|
  {
    if !p.shouldProbe || answers == [] then p
    else Explore(Probe(p, answers[0], peer), answers[1..], peer)
  }

  /** The sizes probed on the way. */
  function Probed(p: Prober, answers: seq<bool>, peer: nat): seq<nat>
    decreases |answers|
  {
    if !p.shouldProbe || answers == [] then []
    else [ProbeSize(p, peer)] + Probed(Probe(p, answers[0], peer), answers[1..], peer)
  }

  /**
   For every sequence of acknowledgements and losses: probes stay within the limits and
   discovery stops after at most `ProbesLeft` probes.
   */
  lemma {:induction false} ExploreStops(p: Prober, answers: seq<bool>, peer: nat)
    requires Inv(p, peer)
    ensures Inv(Explore(p, answers, peer), peer)
    ensures |Probed(p, answers, peer)| <= ProbesLeft(p, peer)
    ensures forall size :: size in Probed(p, answers, peer) ==> size <= Limit(p, peer)
    ensures |answers| >= ProbesLeft(p, peer) ==> !Explore(p, answers, peer).shouldProbe
    decreases |answers|
  {
    hide Inv, Probe, ProbeSize, ProbesLeft;
    ProbesRemain(p, peer);
    if p.shouldProbe && answers != [] {
      ProbeKeeps(p, answers[0], peer);
      ProbeProgress(p, answers[0], peer);
      ProbeWithinLimit(p, peer);
      ExploreStops(Probe(p, answers[0], peer), answers[1..], peer);
    }
  }

  /** The validated size never shrinks, and it is backed by a probe that was delivered. */
  lemma {:induction false} ExploreIsBacked(p: Prober, answers: seq<bool>, peer: nat)
    requires Inv(p, peer)
    ensures |Probed(p, answers, peer)| <= |answers|
    ensures p.currentSize <= Explore(p, answers, peer).currentSize
    ensures
      var q, sizes := Explore(p, answers, peer), Probed(p, answers, peer);
      q.currentSize != p.currentSize ==>
        exists k :: 0 <= k < |sizes| && answers[k] && sizes[k] == q.currentSize
    decreases |answers|
  {
    hide Inv, Probe, ProbeSize;
    if p.shouldProbe && answers != [] {
      var next := Probe(p, answers[0], peer);
      ProbeKeeps(p, answers[0], peer);
      ExploreIsBacked(next, answers[1..], peer);
      var q, sizes := Explore(p, answers, peer), Probed(p, answers, peer);
      var rest := Probed(next, answers[1..], peer);
      assert sizes == [ProbeSize(p, peer)] + rest;
      if q.currentSize != next.currentSize {
        var k :| 0 <= k < |rest| && answers[1..][k] && rest[k] == q.currentSize;
        assert answers[k + 1] && sizes[k + 1] == q.currentSize;
      } else if q.currentSize != p.currentSize {
        assert answers[0] && sizes[0] == q.currentSize;
      }
    }
  }

  lemma {:induction false} HalvingsLogarithmic(gap: nat, k: nat)
    requires gap <= Power2(k)
    ensures Halvings(gap) <= k
    decreases k
  {
    if gap >= 2 {
      HalvingsLogarithmic((gap + 1) / 2, k - 1);
    }
  }

  /** No more than 54 probes are needed for any size that fits a UDP datagram. */
  lemma DiscoveryProbeBound(maxPmtu: nat, isIpv6: bool, answers: seq<bool>, peer: nat)
    requires maxPmtu <= 65536
    ensures |Probed(Init(true, maxPmtu, isIpv6), answers, peer)| <= 54
    ensures |answers| >= 54 ==> !Explore(Init(true, maxPmtu, isIpv6), answers, peer).shouldProbe
  {
    var p := Init(true, maxPmtu, isIpv6);
    InitInv(true, maxPmtu, isIpv6, peer);
    ExploreStops(p, answers, peer);
    assert Power2(5) == 32 && Power2(10) == 1024 && Power2(16) == 65536;
    HalvingsLogarithmic(Gap(p, peer), 16);
  }

  // ----- Discovery against a path of fixed MTU

  ghost predicate PathInv(p: Prober, pathMtu: nat, peer: nat) {
    && Inv(p, peer)
    && p.currentSize <= pathMtu
    && (p.failedSize > 0 ==> p.failedSize > pathMtu)
  }

  lemma PathProbe(p: Prober, pathMtu: nat, peer: nat)
    requires PathInv(p, pathMtu, peer) && p.shouldProbe
    ensures
      var q := Probe(p, ProbeSize(p, peer) <= pathMtu, peer);
      && PathInv(q, pathMtu, peer)
      && q.maxPmtu == p.maxPmtu
      && p.currentSize <= q.currentSize
      && ProbesLeft(q, peer) < ProbesLeft(p, peer)
      && (!q.shouldProbe ==> Finished(q.currentSize, q.failedSize, q.maxPmtu, peer))
  {
    hide Probe, Finished, ProbesLeft, NextProbe;
    ProbeKeeps(p, ProbeSize(p, peer) <= pathMtu, peer);
    ProbeProgress(p, ProbeSize(p, peer) <= pathMtu, peer);
  }

  /** Discovery to its end on a path that delivers exactly the sizes up to `pathMtu`. */
  function Search(p: Prober, pathMtu: nat, peer: nat): (q: Prober)
    requires PathInv(p, pathMtu, peer)
    ensures !q.shouldProbe
    decreases ProbesLeft(p, peer)
  {
    if !p.shouldProbe then p
    else
      PathProbe(p, pathMtu, peer);
      Search(Probe(p, ProbeSize(p, peer) <= pathMtu, peer), pathMtu, peer)
  }

  lemma {:induction false} SearchFinds(p: Prober, pathMtu: nat, peer: nat)
    requires PathInv(p, pathMtu, peer)
    ensures
      var q := Search(p, pathMtu, peer);
      && PathInv(q, pathMtu, peer)
      && q.maxPmtu == p.maxPmtu && p.currentSize <= q.currentSize
      && (p.shouldProbe ==> Finished(q.currentSize, q.failedSize, q.maxPmtu, peer))
    decreases ProbesLeft(p, peer)
  {
    if p.shouldProbe {
      PathProbe(p, pathMtu, peer);
      SearchFinds(Probe(p, ProbeSize(p, peer) <= pathMtu, peer), pathMtu, peer);
    }
  }

  /**
   Discovery ends with a size the path delivers and within one per cent of the best possible:
   the least of the path MTU, the configured maximum and the peer's limit.
   */
  lemma DiscoveryConverges(maxPmtu: nat, isIpv6: bool, pathMtu: nat, peer: nat)
    requires DEFAULT_SIZE <= pathMtu
    ensures PathInv(Init(true, maxPmtu, isIpv6), pathMtu, peer)
    ensures
      var p := Init(true, maxPmtu, isIpv6);
      var q := Search(p, pathMtu, peer);
      && !q.shouldProbe
      && DEFAULT_SIZE <= q.currentSize <= pathMtu
      && 100 * q.currentSize >= 99 * Min(pathMtu, Limit(p, peer))
      && (q.currentSize <= Limit(p, peer) || q.currentSize == DEFAULT_SIZE)
  {
    InitInv(true, maxPmtu, isIpv6, peer);
    SearchFinds(Init(true, maxPmtu, isIpv6), pathMtu, peer);
  }

  // ----- The prober

  class Dplpmtud {
    var shouldProbe: bool
    var currentSize: nat
    var probeSize: Option<nat>
    var probeCount: nat
    var failedSize: nat
    var maxPmtu: nat

    ghost function Value(): Prober
      reads this
    {
      Prober(shouldProbe, currentSize, probeSize, probeCount, failedSize, maxPmtu)
    }

    constructor (enable: bool, maxPmtu: nat, isIpv6: bool)
      ensures Value() == Init(enable, maxPmtu, isIpv6)
    {
      this.maxPmtu := maxPmtu;
      if maxPmtu == DEFAULT_SIZE {
        this.maxPmtu := if isIpv6 then MAX_PACKET_SIZE_IPV6 else MAX_PACKET_SIZE_IPV4;
      }
      shouldProbe, currentSize, probeSize := enable, DEFAULT_SIZE, None;
      probeCount, failedSize := 0, 0;
    }

    method GetProbeSize(peer: nat) returns (size: nat)
      modifies this
      ensures Value() == Pick(old(Value()), peer)
      ensures size == ProbeSize(old(Value()), peer)
    {
      if probeSize.Some? {
        return probeSize.value;
      }
      size := CalProbeSize(peer);
      probeSize := Some(size);
    }

    method OnProbeSent()
      modifies this
      ensures Value() == Sent(old(Value()))
    {
      shouldProbe := false;
    }

    method OnProbeAcked(size: nat, peer: nat)
      modifies this
      ensures Value() == Acked(old(Value()), size, peer)
    {
      currentSize := if currentSize >= size then currentSize else size;
      probeCount := 0;
      var next := CalProbeSize(peer);
      probeSize := Some(next);
      var done := CheckFinish(peer);
      shouldProbe := !done;
    }

    method OnProbeLost(size: nat, peer: nat)
      modifies this
      ensures Value() == Lost(old(Value()), size, peer)
    {
      if Some(size) != probeSize {
        return;
      }
      probeCount := probeCount + 1;
      if probeCount < MAX_PROBE_COUNT {
        shouldProbe := true;
        return;
      }
      failedSize := size;
      var next := CalProbeSize(peer);
      probeSize := Some(next);
      probeCount := 0;
      var done := CheckFinish(peer);
      shouldProbe := !done;
    }

    method CalMtuCeiling(peer: nat) returns (ceiling: nat)
      ensures ceiling == MtuCeiling(failedSize, maxPmtu, peer)
    {
      ceiling := if failedSize > 0 then failedSize else maxPmtu;
      if ceiling > peer {
        ceiling := peer;
      }
    }

    method CalProbeSize(peer: nat) returns (size: nat)
      ensures size == NextProbe(currentSize, failedSize, maxPmtu, peer)
    {
      var ceiling := CalMtuCeiling(peer);
      if failedSize == 0 && ceiling < 1500 {
        return ceiling;
      }
      size := (currentSize + ceiling) / 2;
    }

    method CheckFinish(peer: nat) returns (done: bool)
      ensures done == Finished(currentSize, failedSize, maxPmtu, peer)
    {
      var ceiling := CalMtuCeiling(peer);
      done := currentSize >= ceiling || 100 * currentSize >= 99 * ceiling;
    }
  }
}
