/**
 The token-bucket pacer of src/congestion_control/pacing.rs, section 7.7 of RFC 9002. Tokens
 are refilled lazily, only when a packet finds too few of them. Times are in nanoseconds.
 */
module Pacing {
  import opened Arithmetic
  import opened Options

  const MIN_BURST_PACKET_NUM: nat := 10
  const MAX_BURST_PACKET_NUM: nat := 128
  const NANOS: nat := 1_000_000_000

  datatype Bucket = Bucket(
    enabled: bool,
    capacity: nat,
    tokens: nat,
    lastCwnd: nat,
    lastSched: nat,
    granularity: nat)

  /** The arguments of one call to `schedule`. */
  datatype Request = Request(bytes: nat, rate: nat, srtt: nat, cwnd: nat, mtu: nat, now: nat)

  function CapacityFor(cwnd: nat, srtt: nat, mtu: nat, granularity: nat): (c: nat)
    ensures MIN_BURST_PACKET_NUM * mtu <= c <= MAX_BURST_PACKET_NUM * mtu
  {
    var wanted := cwnd * granularity / Max(srtt, 1_000_000) % U64_RANGE;
    Max(MIN_BURST_PACKET_NUM * mtu, Min(wanted, MAX_BURST_PACKET_NUM * mtu))
  }

  function Fresh(enabled: bool, srtt: nat, cwnd: nat, mtu: nat, now: nat, granularity: nat): Bucket {
    var capacity := CapacityFor(cwnd, srtt, mtu, granularity);
    Bucket(enabled, capacity, capacity, cwnd, now, granularity)
  }

  // ----- One call

  /** Follow a change of the congestion window. */
  function Resize(p: Bucket, r: Request): Bucket {
    if r.cwnd == p.lastCwnd then p
    else
      var capacity := CapacityFor(r.cwnd, r.srtt, r.mtu, p.granularity);
      p.(capacity := capacity, tokens := Min(capacity, p.tokens), lastCwnd := r.cwnd)
  }

  /** The tokens earned in `elapsed` nanoseconds, in 64 bits. */
  function Earned(rate: nat, elapsed: nat): nat {
    rate * elapsed / NANOS % U64_RANGE
  }

  function Refill(p: Bucket, r: Request): Bucket {
    var earned := Earned(r.rate, SaturatingSub(r.now, p.lastSched));
    p.(tokens := Min(Min(p.tokens + earned, U64_RANGE - 1), p.capacity), lastSched := r.now)
  }

  predicate Unpaced(p: Bucket, r: Request) {
    !p.enabled || r.srtt == 0 || r.cwnd == 0 || r.rate == 0
  }

  /** The bucket after a call to `schedule`. */
  function After(p: Bucket, r: Request): Bucket {
    if Unpaced(p, r) then p
    else
      var q := Resize(p, r);
      if q.tokens >= r.bytes then q else Refill(q, r)
  }

  /** The nanoseconds to wait for `need` tokens; the product wraps in 64 bits. */
  function WaitFor(need: nat, rate: nat): nat {
    need * NANOS % U64_RANGE / Max(rate, 1)
  }

  /** The answer of a call to `schedule`: the time to wait for, if any. */
  function Answer(p: Bucket, r: Request): Option<nat> {
    var q := After(p, r);
    if Unpaced(p, r) || r.bytes <= q.tokens then None
    else Some(q.lastSched + WaitFor(r.bytes - q.tokens, r.rate))
  }

  function Spend(p: Bucket, bytes: nat): Bucket {
    if p.enabled then p.(tokens := SaturatingSub(p.tokens, bytes)) else p
  }

  // ----- What a call means

  /**
   The capacity is what the window lets through in one granularity, the round trip counting as
   at least a millisecond, kept between 10 and 128 packets; the quotient wraps in 64 bits.
   */
  lemma CapacityIs(cwnd: nat, srtt: nat, mtu: nat, granularity: nat, burst: nat)
    requires
      var rtt := if srtt > 1_000_000 then srtt else 1_000_000;
      burst * rtt <= cwnd * granularity < (burst + 1) * rtt
    ensures
      var kept := burst % 0x1_0000_0000_0000_0000;
      CapacityFor(cwnd, srtt, mtu, granularity) ==
      if kept < 10 * mtu then 10 * mtu else if kept > 128 * mtu then 128 * mtu else kept
  {
    QuotientIs(cwnd * granularity, Max(srtt, 1_000_000), burst);
  }

  lemma QuotientIs(n: nat, d: nat, q: nat)
    requires d > 0 && q * d <= n < (q + 1) * d
    ensures n / d == q
  {
    var k := n / d;
    assert k * d <= n < k * d + d == (k + 1) * d;
    ScaleRight(k + 1, q, d);
    ScaleRight(q + 1, k, d);
  }

  lemma ScaleRight(a: nat, b: nat, d: nat)
    ensures a <= b ==> a * d <= b * d
  {
  }

  /** A new pacer is full: a first packet of up to ten datagrams is released whatever the request says. */
  lemma FreshReleases(
    enabled: bool, srtt: nat, cwnd: nat, mtu: nat, now: nat, granularity: nat, r: Request)
    requires r.mtu == mtu && r.bytes <= 10 * mtu
    ensures
      var p := Fresh(enabled, srtt, cwnd, mtu, now, granularity);
      && p == Bucket(enabled, CapacityFor(cwnd, srtt, mtu, granularity), p.capacity, cwnd, now, granularity)
      && Answer(p, r) == None
      && After(p, r).lastSched == now
  {
  }

  /** Without pacing, or with nothing to pace by, every packet is released and nothing changes. */
  lemma UnpacedReleases(p: Bucket, r: Request)
    requires !p.enabled || r.srtt == 0 || r.cwnd == 0 || r.rate == 0
    ensures Answer(p, r) == None && After(p, r) == p
  {
  }

  // ----- Runs

  /** A packet is scheduled and, if released and the caller wants to, sent. */
  datatype Attempt = Attempt(request: Request, send: bool)

  predicate Sends(p: Bucket, a: Attempt) {
    a.send && Answer(p, a.request) == None
  }

  function Step(p: Bucket, a: Attempt): Bucket {
    if Sends(p, a) then Spend(After(p, a.request), a.request.bytes) else After(p, a.request)
  }

  function Final(p: Bucket, run: seq<Attempt>): Bucket
    decreases |run|
  {
    if run == [] then p else Final(Step(p, run[0]), run[1..])
  }

  /** The bytes sent in a run. */
  function BytesSent(p: Bucket, run: seq<Attempt>): nat
    decreases |run|
  {
    if run == [] then 0
    else (if Sends(p, run[0]) then run[0].request.bytes else 0) + BytesSent(Step(p, run[0]), run[1..])
  }

  /** Pacing is in force at a rate of at most `rate`, and time does not run backwards from `start`. */
  ghost predicate Paced(run: seq<Attempt>, rate: nat, start: nat)
    decreases |run|
  {
    run == [] ||
    var r := run[0].request;
    0 < r.srtt && 0 < r.cwnd && 0 < r.rate <= rate && start <= r.now && Paced(run[1..], rate, r.now)
  }

  /** The time of the last attempt of a run that starts at `start`. */
  function EndTime(run: seq<Attempt>, start: nat): nat {
    if run == [] then start else run[|run| - 1].request.now
  }

  lemma EarnedBound(rate: nat, limit: nat, elapsed: nat)
    requires rate <= limit
    ensures NANOS * Earned(rate, elapsed) <= limit * elapsed
  {
    var product := rate * elapsed;
    assert product <= limit * elapsed;
    assert NANOS * (product / NANOS) <= product;
  }

  lemma EarnedNothing(rate: nat)
    ensures Earned(rate, 0) == 0
  {
  }

  lemma Distribute(rate: nat, a: nat, b: nat, c: nat)
    requires a <= b <= c
    ensures rate * (b - a) + rate * (c - b) == rate * (c - a)
    ensures 0 <= rate * (b - a) <= rate * (c - a)
    ensures 0 <= rate * (c - b) <= rate * (c - a)
  {
  }

  /** One attempt spends no more than the tokens it finds and the tokens it earns. */
  lemma StepEarns(p: Bucket, a: Attempt)
    requires p.enabled && 0 < a.request.srtt && 0 < a.request.cwnd && 0 < a.request.rate
    requires p.lastSched <= a.request.now
    ensures
      var q, sent := Step(p, a), if Sends(p, a) then a.request.bytes else 0;
      && q.enabled
      && (|| (q.lastSched == p.lastSched && sent + q.tokens <= p.tokens)
          || (q.lastSched == a.request.now &&
              sent + q.tokens <= p.tokens + Earned(a.request.rate, a.request.now - p.lastSched)))
  {
    hide Earned, CapacityFor, WaitFor;
  }

  /**
   Exactly what an attempt under an unchanged window does: a packet the tokens cover is released
   without a refill, any other after one, if they then cover it; what is sent is spent.
   */
  lemma StepExact(p: Bucket, a: Attempt)
    requires p.enabled && 0 < a.request.srtt && 0 < a.request.rate && 0 < a.request.cwnd == p.lastCwnd
    requires p.tokens <= p.capacity < U64_RANGE && p.lastSched <= a.request.now
    ensures
      var r, q := a.request, Step(p, a);
      var covered := p.tokens >= r.bytes;
      var found :=
        if covered then p.tokens else Min(p.capacity, p.tokens + Earned(r.rate, r.now - p.lastSched));
      && (Sends(p, a) <==> a.send && r.bytes <= found)
      && q.tokens + (if Sends(p, a) then r.bytes else 0) == found
      && q.lastSched == (if covered then p.lastSched else r.now)
      && q == p.(tokens := q.tokens, lastSched := q.lastSched)
  {
    hide Earned, CapacityFor, WaitFor;
  }

  /** Entry `k` is the last of the run whose window differs from the one before it. */
  ghost predicate LastChange(cwnd: nat, run: seq<Attempt>, k: nat) {
    && k < |run|
    && run[k].request.cwnd != (if k == 0 then cwnd else run[k - 1].request.cwnd)
    && forall j :: k < j < |run| ==> run[j].request.cwnd == run[k].request.cwnd
  }

  ghost predicate NoChange(cwnd: nat, run: seq<Attempt>) {
    forall j :: 0 <= j < |run| ==> run[j].request.cwnd == cwnd
  }

  lemma StepSizes(p: Bucket, a: Attempt)
    requires p.enabled && 0 < a.request.srtt && 0 < a.request.cwnd && 0 < a.request.rate
    ensures
      var r, q := a.request, Step(p, a);
      && q.enabled && q.granularity == p.granularity && q.lastCwnd == r.cwnd
      && q.capacity ==
         if r.cwnd == p.lastCwnd then p.capacity else CapacityFor(r.cwnd, r.srtt, r.mtu, p.granularity)
  {
    hide Earned, CapacityFor, WaitFor;
  }

  /** Over a whole run the capacity is the one for the last change of the congestion window. */
  lemma {:induction false} CapacityFollows(p: Bucket, run: seq<Attempt>, rate: nat, start: nat, k: nat)
    requires p.enabled && Paced(run, rate, start)
    requires LastChange(p.lastCwnd, run, k) || NoChange(p.lastCwnd, run)
    ensures
      Final(p, run).capacity ==
      if NoChange(p.lastCwnd, run) then p.capacity
      else CapacityFor(run[k].request.cwnd, run[k].request.srtt, run[k].request.mtu, p.granularity)
    decreases |run|
  {
    hide Step, CapacityFor;
    if run != [] {
      var q, rest := Step(p, run[0]), run[1..];
      StepSizes(p, run[0]);
      assert NoChange(p.lastCwnd, run) <==> q.lastCwnd == p.lastCwnd && NoChange(q.lastCwnd, rest) by {
        assert forall j :: 0 <= j < |rest| ==> rest[j] == run[j + 1];
      }
      if LastChange(p.lastCwnd, run, k) && k > 0 {
        assert LastChange(q.lastCwnd, rest, k - 1);
        assert !NoChange(q.lastCwnd, rest) by {
          ChangeIsChange(q.lastCwnd, rest, k - 1);
        }
        CapacityFollows(q, rest, rate, run[0].request.now, k - 1);
      } else {
        CapacityFollows(q, rest, rate, run[0].request.now, 0);
      }
    }
  }

  lemma ChangeIsChange(cwnd: nat, run: seq<Attempt>, k: nat)
    requires LastChange(cwnd, run, k)
    ensures !NoChange(cwnd, run)
  {
    if k > 0 && run[k - 1].request.cwnd == cwnd {
      assert run[k].request.cwnd != cwnd;
    }
  }

  /** In terms of a bound on the rate. */
  lemma StepBound(p: Bucket, a: Attempt, rate: nat)
    requires p.enabled && 0 < a.request.srtt && 0 < a.request.cwnd && 0 < a.request.rate <= rate
    requires p.lastSched <= a.request.now
    ensures
      var q, sent := Step(p, a), if Sends(p, a) then a.request.bytes else 0;
      && q.enabled
      && (q.lastSched == p.lastSched || q.lastSched == a.request.now)
      && NANOS * (sent + q.tokens) <= NANOS * p.tokens + rate * (q.lastSched - p.lastSched)
  {
    hide Step, Sends, Earned;
    StepEarns(p, a);
    EarnedBound(a.request.rate, rate, a.request.now - p.lastSched);
    Distribute(rate, p.lastSched, p.lastSched, a.request.now);
  }

  lemma {:induction false} PacedTimes(run: seq<Attempt>, rate: nat, start: nat)
    requires Paced(run, rate, start)
    ensures start <= EndTime(run, start)
    decreases |run|
  {
    if |run| > 1 {
      PacedTimes(run[1..], rate, run[0].request.now);
    }
  }

  /** The first attempt of a run, and the rest of it. */
  lemma SplitFirst(p: Bucket, run: seq<Attempt>, rate: nat, start: nat)
    requires run != [] && p.enabled && p.lastSched <= start && Paced(run, rate, start)
    ensures
      var q, r := Step(p, run[0]), run[0].request;
      && q.enabled && q.lastSched <= r.now
      && Paced(run[1..], rate, q.lastSched)
      && Paced(run[1..], rate, r.now)
      && (q.lastSched == p.lastSched || q.lastSched == r.now)
      && start <= r.now <= EndTime(run, start)
      && EndTime(run[1..], r.now) == EndTime(run, start)
      && EndTime(run[1..], q.lastSched) <= EndTime(run, start)
      && Final(p, run) == Final(q, run[1..])
      && BytesSent(p, run) == (if Sends(p, run[0]) then r.bytes else 0) + BytesSent(q, run[1..])
  {
    hide Step, Sends;
    StepBound(p, run[0], rate);
    PacedTimes(run[1..], rate, run[0].request.now);
  }

  /**
   The rate limit: over a whole run the bytes sent are at most the tokens the bucket started
   with and what the rate allows for the time that passed.
   */
  lemma {:induction false} RateLimit(p: Bucket, run: seq<Attempt>, rate: nat)
    requires p.enabled && Paced(run, rate, p.lastSched)
    ensures
      var q := Final(p, run);
      && p.lastSched <= q.lastSched <= EndTime(run, p.lastSched)
      && NANOS * (BytesSent(p, run) + q.tokens) <= NANOS * p.tokens + rate * (q.lastSched - p.lastSched)
    decreases |run|
  {
    hide Step, Sends;
    if run != [] {
      var next := Step(p, run[0]);
      StepBound(p, run[0], rate);
      SplitFirst(p, run, rate, p.lastSched);
      hide Final, BytesSent, Paced, EndTime;
      RateLimit(next, run[1..], rate);
      Distribute(rate, p.lastSched, next.lastSched, Final(p, run).lastSched);
    }
  }

  /** The rate limit from the creation of the pacer on: one bucket, then the rate. */
  lemma RateLimitFromStart(
    srtt: nat, cwnd: nat, mtu: nat, now: nat, granularity: nat, run: seq<Attempt>, rate: nat)
    requires Paced(run, rate, now)
    ensures
      var p := Fresh(true, srtt, cwnd, mtu, now, granularity);
      NANOS * BytesSent(p, run) <= NANOS * p.capacity + rate * (EndTime(run, now) - now)
  {
    hide CapacityFor, BytesSent, Paced, EndTime;
    var p := Fresh(true, srtt, cwnd, mtu, now, granularity);
    RateLimit(p, run, rate);
    Distribute(rate, now, Final(p, run).lastSched, EndTime(run, now));
  }

  // ----- Any interval

  ghost predicate Bounded(p: Bucket, mtu: nat) {
    p.tokens <= p.capacity <= MAX_BURST_PACKET_NUM * mtu
  }

  ghost predicate OneMtu(run: seq<Attempt>, mtu: nat) {
    forall i :: 0 <= i < |run| ==> run[i].request.mtu == mtu
  }

  /** The bucket never holds more than its capacity, nor more than 128 packets. */
  lemma StepBounded(p: Bucket, a: Attempt)
    requires Bounded(p, a.request.mtu)
    ensures Bounded(Step(p, a), a.request.mtu)
  {
    hide Earned;
  }

  /** What an attempt sends and leaves in the bucket, with or without a refill. */
  lemma StepSpends(p: Bucket, a: Attempt)
    requires p.enabled && Bounded(p, a.request.mtu)
    requires 0 < a.request.srtt && 0 < a.request.cwnd && 0 < a.request.rate
    requires p.lastSched <= a.request.now
    ensures
      var q, sent := Step(p, a), if Sends(p, a) then a.request.bytes else 0;
      && (q.lastSched == p.lastSched ==> sent + q.tokens <= p.tokens)
      && sent + q.tokens <= MAX_BURST_PACKET_NUM * a.request.mtu
  {
    EarnedNothing(a.request.rate);
    hide Earned, CapacityFor, WaitFor;
  }

  /**
   Over any interval, from any state, at most two full buckets and what the rate allows are
   sent. The second bucket comes from the lazy refill, which may earn tokens for time before
   the interval.
   */
  lemma {:induction false} IntervalLimit(p: Bucket, run: seq<Attempt>, rate: nat, mtu: nat, start: nat)
    requires p.enabled && Bounded(p, mtu) && OneMtu(run, mtu)
    requires p.lastSched <= start && Paced(run, rate, start)
    ensures NANOS * BytesSent(p, run) <=
            NANOS * (p.tokens + MAX_BURST_PACKET_NUM * mtu) + rate * (EndTime(run, start) - start)
    decreases |run|
  {
    hide Step, Sends;
    if run == [] {
      assert rate * (EndTime(run, start) - start) == 0;
    } else {
      var next, now, end := Step(p, run[0]), run[0].request.now, EndTime(run, start);
      StepBounded(p, run[0]);
      StepSpends(p, run[0]);
      SplitFirst(p, run, rate, start);
      assert OneMtu(run[1..], mtu) && run[0].request.mtu == mtu;
      hide Final, BytesSent, Paced, EndTime, OneMtu, Bounded;
      Distribute(rate, start, now, end);
      if next.lastSched == p.lastSched {
        IntervalLimit(next, run[1..], rate, mtu, now);
      } else {
        RateLimit(next, run[1..], rate);
        Distribute(rate, now, Final(next, run[1..]).lastSched, end);
      }
    }
  }

  lemma {:induction false} FinalBounded(p: Bucket, run: seq<Attempt>, mtu: nat)
    requires Bounded(p, mtu) && OneMtu(run, mtu)
    ensures Bounded(Final(p, run), mtu)
    ensures Final(p, run).enabled == p.enabled
    decreases |run|
  {
    if run != [] {
      hide Earned, CapacityFor, WaitFor;
      assert run[0].request.mtu == mtu;
      StepBounded(p, run[0]);
      FinalBounded(Step(p, run[0]), run[1..], mtu);
    }
  }

  /**
   In the life of a pacer: whatever was scheduled before, at whatever rate, during any later stretch of time at
   most 2 * 128 packets and what the rate allows for that stretch are sent.
   */
  lemma AnyIntervalLimit(
    srtt: nat, cwnd: nat, mtu: nat, now: nat, granularity: nat,
    before: seq<Attempt>, during: seq<Attempt>, early: nat, rate: nat, start: nat)
    requires Paced(before, early, now) && OneMtu(before + during, mtu)
    requires EndTime(before, now) <= start && Paced(during, rate, start)
    ensures
      var p := Final(Fresh(true, srtt, cwnd, mtu, now, granularity), before);
      NANOS * BytesSent(p, during) <=
      NANOS * (2 * MAX_BURST_PACKET_NUM * mtu) + rate * (EndTime(during, start) - start)
  {
    hide CapacityFor, BytesSent, Paced, EndTime, Final;
    var p := Fresh(true, srtt, cwnd, mtu, now, granularity);
    assert OneMtu(before, mtu) && OneMtu(during, mtu) by {
      assert forall i :: 0 <= i < |before| ==> (before + during)[i] == before[i];
      assert forall i :: 0 <= i < |during| ==> (before + during)[|before| + i] == during[i];
    }
    RateLimit(p, before, early);
    FinalBounded(p, before, mtu);
    IntervalLimit(Final(p, before), during, rate, mtu, start);
  }

  // ----- Waiting

  /** A product against a multiple, divided. */
  lemma FloorCompare(product: nat, need: nat)
    ensures product / NANOS >= need <==> product >= need * NANOS
  {
  }

  lemma Scale(rate: nat, a: nat, b: nat)
    requires a <= b
    ensures rate * a <= rate * b
  {
  }

  lemma FloorWait(need: nat, rate: nat, e: nat)
    requires rate > 0
    ensures
      var wait := need * NANOS / rate;
      && (e < wait ==> rate * e < need * NANOS)
      && (e > wait ==> rate * e > need * NANOS)
      && (e == wait ==> (rate * e >= need * NANOS <==> need * NANOS % rate == 0))
  {
    var total := need * NANOS;
    var wait := total / rate;
    assert rate * wait <= total < rate * wait + rate;
    assert rate * (wait + 1) == rate * wait + rate && rate * (e + 1) == rate * e + rate;
    if e < wait {
      Scale(rate, e + 1, wait);
    } else if e > wait {
      Scale(rate, wait + 1, e);
    }
  }

  lemma EarnedIs(rate: nat, elapsed: nat)
    ensures Earned(rate, elapsed) == rate * elapsed / 1_000_000_000 % 0x1_0000_0000_0000_0000
    ensures rate * elapsed / NANOS < U64_RANGE ==> Earned(rate, elapsed) == rate * elapsed / NANOS
  {
  }

  lemma WaitIs(need: nat, rate: nat)
    requires rate > 0
    ensures WaitFor(need, rate) == need * 1_000_000_000 % 0x1_0000_0000_0000_0000 / rate
    ensures need * NANOS < U64_RANGE ==> WaitFor(need, rate) == need * NANOS / rate
  {
  }

  /** Before the wait is over too little is earned, and after it enough, despite both roundings. */
  lemma Threshold(need: nat, rate: nat, e: nat)
    requires rate > 0 && need * NANOS < U64_RANGE && rate * e / NANOS < U64_RANGE
    ensures e < WaitFor(need, rate) ==> Earned(rate, e) < need
    ensures e > WaitFor(need, rate) ==> Earned(rate, e) >= need
    ensures e == WaitFor(need, rate) ==> (Earned(rate, e) >= need <==> need * NANOS % rate == 0)
  {
    EarnedIs(rate, e);
    WaitIs(need, rate);
    hide Earned, WaitFor;
    FloorWait(need, rate, e);
    FloorCompare(rate * e, need);
  }

  /** Asking again for a packet that was told to wait: what matters is what was earned since. */
  lemma AskAgain(q: Bucket, r: Request, later: nat)
    requires !Unpaced(q, r) && q.lastCwnd == r.cwnd && q.lastSched == r.now <= later
    requires q.tokens < r.bytes <= q.capacity < U64_RANGE
    ensures Answer(q, r.(now := later)) == None <==> Earned(r.rate, later - r.now) >= r.bytes - q.tokens
  {
    hide Earned, WaitFor, CapacityFor;
  }

  /** What a call that ends in a wait leaves behind. */
  lemma Waiting(p: Bucket, r: Request)
    requires Answer(p, r).Some?
    ensures
      var q := After(p, r);
      && !Unpaced(q, r) && q.lastCwnd == r.cwnd && q.lastSched == r.now && q.tokens < r.bytes
      && Answer(p, r).value == r.now + WaitFor(r.bytes - q.tokens, r.rate)
  {
    hide Earned, WaitFor, CapacityFor;
  }

  /**
   A packet told to wait until T and no larger than the bucket: asking again is answered with
   another wait at any time before T, with a release at any time after T, and at T itself with a
   release if and only if the rate divides the missing tokens evenly into nanoseconds.
   */
  lemma WaitIsExact(p: Bucket, r: Request, later: nat)
    requires Answer(p, r).Some? && r.bytes <= After(p, r).capacity < U64_RANGE
    requires r.bytes * NANOS < U64_RANGE
    requires r.now <= later && r.rate * (later - r.now) / NANOS < U64_RANGE
    ensures
      var again := Answer(After(p, r), r.(now := later));
      && (later < Answer(p, r).value ==> again.Some?)
      && (later > Answer(p, r).value ==> again == None)
      && (later == Answer(p, r).value ==>
            (again == None <==> (r.bytes - After(p, r).tokens) * NANOS % r.rate == 0))
  {
    hide Answer, After, Earned, WaitFor;
    Waiting(p, r);
    AskAgain(After(p, r), r, later);
    Threshold(r.bytes - After(p, r).tokens, r.rate, later - r.now);
  }

  /** A packet larger than the bucket is never released while pacing is in force. */
  lemma TooLargeNeverReleased(p: Bucket, r: Request)
    requires !Unpaced(p, r) && r.bytes > After(p, r).capacity && p.tokens <= p.capacity
    ensures Answer(p, r).Some?
  {
    hide Earned;
  }

  // ----- The pacer

  class Pacer {
    var enabled: bool
    var capacity: nat
    var tokens: nat
    var lastCwnd: nat
    var lastSched: nat
    var granularity: nat

    ghost function Value(): Bucket
      reads this
    {
      Bucket(enabled, capacity, tokens, lastCwnd, lastSched, granularity)
    }

    constructor (enabled: bool, srtt: nat, cwnd: nat, mtu: nat, now: nat, granularity: nat)
      ensures Value() == Fresh(enabled, srtt, cwnd, mtu, now, granularity)
    {
      this.enabled := enabled;
      capacity, tokens := 0, 0;
      lastCwnd, lastSched := cwnd, now;
      this.granularity := granularity;
      new;
      UpdateCapacity(cwnd, srtt, mtu);
      tokens := capacity;
    }

    method UpdateCapacity(cwnd: nat, srtt: nat, mtu: nat)
      modifies this`capacity
      ensures capacity == CapacityFor(cwnd, srtt, mtu, granularity)
    {
      var wanted := cwnd * granularity / Max(srtt, 1_000_000) % U64_RANGE;
      if wanted < MIN_BURST_PACKET_NUM * mtu {
        capacity := MIN_BURST_PACKET_NUM * mtu;
      } else if wanted > MAX_BURST_PACKET_NUM * mtu {
        capacity := MAX_BURST_PACKET_NUM * mtu;
      } else {
        capacity := wanted;
      }
    }

    method OnSent(bytes: nat)
      modifies this
      ensures Value() == Spend(old(Value()), bytes)
    {
      if enabled {
        tokens := SaturatingSub(tokens, bytes);
      }
    }

    method Schedule(bytes: nat, rate: nat, srtt: nat, cwnd: nat, mtu: nat, now: nat) returns (wait: Option<nat>)
      modifies this
      ensures Value() == After(old(Value()), Request(bytes, rate, srtt, cwnd, mtu, now))
      ensures wait == Answer(old(Value()), Request(bytes, rate, srtt, cwnd, mtu, now))
    {
      hide CapacityFor, Earned, WaitFor;
      if !enabled || srtt == 0 || cwnd == 0 || rate == 0 {
        return None;
      }
      if cwnd != lastCwnd {
        UpdateCapacity(cwnd, srtt, mtu);
        tokens := Min(capacity, tokens);
        lastCwnd := cwnd;
      }
      if tokens >= bytes {
        return None;
      }
      var elapsed := SaturatingSub(now, lastSched);
      tokens := Min(Min(tokens + Earned(rate, elapsed), U64_RANGE - 1), capacity);
      lastSched := now;
      if bytes <= tokens {
        return None;
      }
      wait := Some(lastSched + WaitFor(SaturatingSub(bytes, tokens), rate));
    }
  }
}
