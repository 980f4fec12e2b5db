/**
 The connection ids an endpoint issues to its peer, src/connection/cid.rs: sections 5.1.1 and
 5.1.2 of RFC 9000. Every call is a function from state to state and result, because a call
 that fails may have changed the state already.
 */
module SourceIds {
  import opened CidDeque
  import opened Options

  const MAX_CIDS_COUNT: nat := 16

  datatype Scids = Scids(
    queue: seq<Item>,
    capacity: nat,
    limit: nat,
    zeroLength: bool,
    nextSeq: nat,
    retirePriorTo: nat,
    toAdvertise: seq<nat>)

  // ----- Counting

  /** The number of ids the peer may still use: those from `from` on. */
  function ActiveCount(queue: seq<Item>, from: nat): nat {
    if queue == [] then 0
    else (if queue[|queue| - 1].seqNum >= from then 1 else 0) + ActiveCount(queue[..|queue| - 1], from)
  }

  /** The smallest sequence number from `from` on. */
  function LowestActive(queue: seq<Item>, from: nat): Option<nat> {
    if queue == [] then None
    else
      var last, rest := queue[|queue| - 1].seqNum, LowestActive(queue[..|queue| - 1], from);
      if last >= from && (rest == None || last < rest.value) then Some(last) else rest
  }

  // ----- Calls

  function Init(cid: Cid, pathId: nat, resetToken: Option<nat>): Scids {
    Scids([Item(cid, 0, resetToken, Some(pathId))], 3, 2, cid == [], 1, 0, [])
  }

  function SetLimit(s: Scids, limit: nat): Scids {
    var capped := if limit < MAX_CIDS_COUNT then limit else MAX_CIDS_COUNT;
    var limit := if capped > 2 then capped else 2;
    s.(limit := limit, capacity := if 2 * limit - 1 > s.capacity then 2 * limit - 1 else s.capacity)
  }

  function MarkToAdvertise(s: Scids, n: nat, advertise: bool): Scids {
    s.(toAdvertise := if advertise then s.toAdvertise + [n] else RemoveAll(s.toAdvertise, n))
  }

  function Add(s: Scids, cid: Cid, token: Option<nat>, advertise: bool, pathId: Option<nat>, retireIfNeeded: bool)
    : (Scids, Result<nat>)
  {
    if s.zeroLength then
      (s, Err(InternalError))
    else if |s.queue| >= s.limit && !retireIfNeeded then
      (s, Err(ConnectionIdLimitError))
    else if |s.queue| >= s.limit && LowestActive(s.queue, s.retirePriorTo) == None then
      (s, Err(InternalError))
    else
      var t := if |s.queue| >= s.limit
               then s.(retirePriorTo := LowestActive(s.queue, s.retirePriorTo).value + 1)
               else s;
      var n := t.nextSeq;
      if n != 0 && token == None then (t, Err(InternalError))
      else if |t.queue| == t.capacity then (t, Err(ConnectionIdLimitError))
      else
        (MarkToAdvertise(t.(queue := t.queue + [Item(cid, n, token, pathId)], nextSeq := n + 1), n, advertise), Ok(n))
  }

  function Retire(s: Scids, n: nat, pktDcid: Cid): (Scids, Result<Option<nat>>) {
    var i := Find(s.queue, n);
    if n >= s.nextSeq then (s, Err(ProtocolViolation))
    else if s.queue == [] then (s, Err(InternalError))
    else if |s.queue| == 1 && i < |s.queue| then (s, Err(InternalError))
    else if i == |s.queue| then (s, Ok(None))
    else
      var e, t := s.queue[i], s.(queue := Without(s.queue, i));
      if e.cid == pktDcid then (t, Err(ProtocolViolation))
      else
        match LowestActive(t.queue, t.retirePriorTo)
        case None => (t, Err(InternalError))
        case Some(lowest) => (t.(retirePriorTo := lowest), Ok(e.pathId))
  }

  // ----- What every call keeps

  ghost predicate Rising(queue: seq<Item>) {
    forall i, j :: 0 <= i < j < |queue| ==> queue[i].seqNum < queue[j].seqNum
  }

  ghost predicate Issued(queue: seq<Item>, nextSeq: nat) {
    forall i :: 0 <= i < |queue| ==> queue[i].seqNum < nextSeq
  }

  /** Holds after every call, successful or not. */
  ghost predicate Inv(s: Scids) {
    && s.queue != []
    && |s.queue| <= s.capacity
    && 2 <= s.limit && 2 * s.limit - 1 <= s.capacity
    && 1 <= s.nextSeq && s.retirePriorTo <= s.nextSeq
    && Rising(s.queue)
    && Issued(s.queue, s.nextSeq)
    && ActiveCount(s.queue, s.retirePriorTo) <= s.limit
  }

  /** Some id is not yet asked back. */
  ghost predicate SomeActive(s: Scids) {
    exists i :: 0 <= i < |s.queue| && s.queue[i].seqNum >= s.retirePriorTo
  }

  // ----- Counting active ids

  lemma {:induction false} LowestActiveMeans(queue: seq<Item>, from: nat)
    ensures
      match LowestActive(queue, from)
      case None => forall i :: 0 <= i < |queue| ==> queue[i].seqNum < from
      case Some(n) =>
        && from <= n
        && (exists i :: 0 <= i < |queue| && queue[i].seqNum == n)
        && (forall i :: 0 <= i < |queue| && queue[i].seqNum >= from ==> n <= queue[i].seqNum)
    decreases |queue|
  {
    if queue != [] {
      var rest := queue[..|queue| - 1];
      LowestActiveMeans(rest, from);
      assert forall i :: 0 <= i < |rest| ==> rest[i] == queue[i];
      assert queue[|queue| - 1].seqNum == queue[|queue| - 1].seqNum;
    }
  }

  lemma {:induction false} CountBounds(queue: seq<Item>, from: nat)
    ensures ActiveCount(queue, from) <= |queue|
    ensures ActiveCount(queue, from) == 0 <==> forall i :: 0 <= i < |queue| ==> queue[i].seqNum < from
    decreases |queue|
  {
    if queue != [] {
      var rest := queue[..|queue| - 1];
      CountBounds(rest, from);
      assert forall i :: 0 <= i < |rest| ==> rest[i] == queue[i];
    }
  }

  /** Raising the threshold past the lowest active id retires exactly that one. */
  lemma {:induction false} CountPastLowest(queue: seq<Item>, from: nat, lowest: nat)
    requires Rising(queue) && from <= lowest
    requires forall i :: 0 <= i < |queue| && queue[i].seqNum >= from ==> lowest <= queue[i].seqNum
    ensures
      ActiveCount(queue, lowest + 1) ==
      ActiveCount(queue, from) - (if exists i :: 0 <= i < |queue| && queue[i].seqNum == lowest then 1 else 0)
    decreases |queue|
  {
    if queue != [] {
      var rest, last := queue[..|queue| - 1], queue[|queue| - 1].seqNum;
      assert forall i :: 0 <= i < |rest| ==> rest[i] == queue[i];
      CountPastLowest(rest, from, lowest);
      if last == lowest {
        assert queue[|queue| - 1].seqNum == lowest;
        assert forall i :: 0 <= i < |rest| ==> rest[i].seqNum < lowest;
      } else if exists i :: 0 <= i < |queue| && queue[i].seqNum == lowest {
        var i :| 0 <= i < |queue| && queue[i].seqNum == lowest;
        assert rest[i].seqNum == lowest;
      }
    }
  }

  /** Raising the threshold up to the lowest active id retires nothing. */
  lemma {:induction false} CountAtLowest(queue: seq<Item>, from: nat, lowest: nat)
    requires from <= lowest
    requires forall i :: 0 <= i < |queue| && queue[i].seqNum >= from ==> lowest <= queue[i].seqNum
    ensures ActiveCount(queue, lowest) == ActiveCount(queue, from)
    decreases |queue|
  {
    if queue != [] {
      var rest := queue[..|queue| - 1];
      assert forall i :: 0 <= i < |rest| ==> rest[i] == queue[i];
      CountAtLowest(rest, from, lowest);
    }
  }

  lemma {:induction false} CountWithout(queue: seq<Item>, i: nat, from: nat)
    requires i < |queue|
    ensures ActiveCount(Without(queue, i), from) == ActiveCount(queue, from) - (if queue[i].seqNum >= from then 1 else 0)
    decreases |queue|
  {
    var n := |queue| - 1;
    if i == n {
      assert Without(queue, i) == queue[..n];
    } else {
      CountWithout(queue[..n], i, from);
      assert Without(queue, i)[..n - 1] == Without(queue[..n], i);
      assert Without(queue, i)[n - 1] == queue[n];
    }
  }

  lemma CountAppend(queue: seq<Item>, item: Item, from: nat)
    ensures ActiveCount(queue + [item], from) == ActiveCount(queue, from) + if item.seqNum >= from then 1 else 0
  {
    assert (queue + [item])[..|queue|] == queue;
  }

  /** What the lowest active id tells about the count, without quantifiers. */
  lemma LowestCounts(queue: seq<Item>, from: nat)
    requires Rising(queue)
    ensures LowestActive(queue, from) == None <==> ActiveCount(queue, from) == 0
    ensures ActiveCount(queue, from) <= |queue|
    ensures
      LowestActive(queue, from).Some? ==>
        var n := LowestActive(queue, from).value;
        && from <= n
        && (exists i :: 0 <= i < |queue| && queue[i].seqNum == n)
        && ActiveCount(queue, n) == ActiveCount(queue, from)
        && ActiveCount(queue, n + 1) == ActiveCount(queue, from) - 1
  {
    LowestActiveMeans(queue, from);
    CountBounds(queue, from);
    if LowestActive(queue, from).Some? {
      CountAtLowest(queue, from, LowestActive(queue, from).value);
      CountPastLowest(queue, from, LowestActive(queue, from).value);
    }
  }

  lemma WithoutKeeps(queue: seq<Item>, i: nat, nextSeq: nat)
    requires Rising(queue) && Issued(queue, nextSeq) && i < |queue|
    ensures Rising(Without(queue, i)) && Issued(Without(queue, i), nextSeq)
    ensures |Without(queue, i)| == |queue| - 1
  {
    var q := Without(queue, i);
    assert forall j :: 0 <= j < |q| ==> q[j] == queue[if j < i then j else j + 1];
  }

  lemma SomeActiveCounts(s: Scids)
    ensures SomeActive(s) <==> ActiveCount(s.queue, s.retirePriorTo) > 0
  {
    CountBounds(s.queue, s.retirePriorTo);
  }

  // ----- The calls

  lemma InitKeeps(cid: Cid, pathId: nat, resetToken: Option<nat>)
    ensures Inv(Init(cid, pathId, resetToken)) && SomeActive(Init(cid, pathId, resetToken))
  {
    var s := Init(cid, pathId, resetToken);
    CountBounds(s.queue, 0);
    assert s.queue[0].seqNum >= s.retirePriorTo;
  }

  /**
   The calls that leave the peer with no id to use: retiring, or renewing without room or
   without a reset token, when only one id is active.
   */
  predicate AddLosesLast(s: Scids, token: Option<nat>, retireIfNeeded: bool) {
    && !s.zeroLength
    && |s.queue| >= s.limit
    && retireIfNeeded
    && ActiveCount(s.queue, s.retirePriorTo) == 1
    && ((s.nextSeq != 0 && token == None) || |s.queue| == s.capacity)
  }

  predicate RetireLosesLast(s: Scids, n: nat) {
    && s.retirePriorTo <= n < s.nextSeq
    && |s.queue| > 1
    && Find(s.queue, n) < |s.queue|
    && ActiveCount(s.queue, s.retirePriorTo) == 1
  }

  /** The bound on active ids survives a new limit if and only if the limit allows them. */
  lemma SetLimitIff(s: Scids, limit: nat)
    requires Inv(s)
    ensures Inv(SetLimit(s, limit)) <==> ActiveCount(s.queue, s.retirePriorTo) <= SetLimit(s, limit).limit
    ensures SomeActive(s) <==> SomeActive(SetLimit(s, limit))
  {
  }

  predicate AddRetires(s: Scids, retireIfNeeded: bool) {
    !s.zeroLength && |s.queue| >= s.limit && retireIfNeeded && ActiveCount(s.queue, s.retirePriorTo) > 0
  }

  /** A call to add an id withdraws the lowest active one exactly when the peer holds its limit. */
  lemma AddCounts(s: Scids, cid: Cid, token: Option<nat>, advertise: bool, pathId: Option<nat>, retireIfNeeded: bool)
    requires Inv(s)
    ensures
      var (t, r) := Add(s, cid, token, advertise, pathId, retireIfNeeded);
      && s.retirePriorTo <= t.retirePriorTo <= s.nextSeq
      && (t.retirePriorTo > s.retirePriorTo <==> AddRetires(s, retireIfNeeded))
      && (AddRetires(s, retireIfNeeded) ==>
            exists i :: 0 <= i < |s.queue| && s.queue[i].seqNum == t.retirePriorTo - 1)
      && ActiveCount(t.queue, t.retirePriorTo) ==
         ActiveCount(s.queue, s.retirePriorTo)
         + (if r.Ok? then 1 else 0) - (if AddRetires(s, retireIfNeeded) then 1 else 0)
  {
    hide ActiveCount, LowestActive, RemoveAll, Rising;
    var (t, r) := Add(s, cid, token, advertise, pathId, retireIfNeeded);
    LowestCounts(s.queue, s.retirePriorTo);
    if r.Ok? {
      CountAppend(s.queue, Item(cid, s.nextSeq, token, pathId), t.retirePriorTo);
    }
  }

  lemma AddKeeps(s: Scids, cid: Cid, token: Option<nat>, advertise: bool, pathId: Option<nat>, retireIfNeeded: bool)
    requires Inv(s)
    ensures
      var (t, r) := Add(s, cid, token, advertise, pathId, retireIfNeeded);
      && Inv(t)
      && s.retirePriorTo <= t.retirePriorTo
      && (r.Ok? ==>
            && r.value == s.nextSeq && t.nextSeq == s.nextSeq + 1
            && t.queue == s.queue + [Item(cid, s.nextSeq, token, pathId)]
            && SomeActive(t))
      && (r.Err? ==> t.nextSeq == s.nextSeq && t.queue == s.queue)
      && t.limit == s.limit && t.capacity == s.capacity && t.zeroLength == s.zeroLength
  {
    hide ActiveCount, LowestActive, RemoveAll;
    var (t, r) := Add(s, cid, token, advertise, pathId, retireIfNeeded);
    AddCounts(s, cid, token, advertise, pathId, retireIfNeeded);
    CountBounds(s.queue, s.retirePriorTo);
    if r.Ok? {
      assert t.queue[|s.queue|].seqNum >= t.retirePriorTo;
    }
  }

  /** A call to add an id leaves some id active if and only if it does not lose the last one. */
  lemma AddActiveIff(s: Scids, cid: Cid, token: Option<nat>, advertise: bool, pathId: Option<nat>, retireIfNeeded: bool)
    requires Inv(s) && SomeActive(s)
    ensures
      var (t, r) := Add(s, cid, token, advertise, pathId, retireIfNeeded);
      && (SomeActive(t) <==> !AddLosesLast(s, token, retireIfNeeded))
      && (AddLosesLast(s, token, retireIfNeeded) ==> r.Err?)
  {
    hide ActiveCount, LowestActive, RemoveAll, Rising, SomeActive;
    var (t, r) := Add(s, cid, token, advertise, pathId, retireIfNeeded);
    SomeActiveCounts(s);
    SomeActiveCounts(t);
    LowestCounts(s.queue, s.retirePriorTo);
    AddCounts(s, cid, token, advertise, pathId, retireIfNeeded);
  }

  predicate Removes(s: Scids, n: nat) {
    n < s.nextSeq && |s.queue| > 1 && Find(s.queue, n) < |s.queue|
  }

  lemma RetireCounts(s: Scids, n: nat, pktDcid: Cid)
    requires Inv(s)
    ensures
      var (t, r) := Retire(s, n, pktDcid);
      && s.retirePriorTo <= t.retirePriorTo <= s.nextSeq
      && t.queue == (if Removes(s, n) then Without(s.queue, Find(s.queue, n)) else s.queue)
      && ActiveCount(t.queue, t.retirePriorTo) ==
         ActiveCount(s.queue, s.retirePriorTo) - (if Removes(s, n) && n >= s.retirePriorTo then 1 else 0)
      && (r.Ok? && Removes(s, n) ==>
            && ActiveCount(t.queue, t.retirePriorTo) > 0
            && (exists i :: 0 <= i < |t.queue| && t.queue[i].seqNum == t.retirePriorTo))
      && (!(r.Ok? && Removes(s, n)) ==> t.retirePriorTo == s.retirePriorTo)
      && t.limit == s.limit && t.capacity == s.capacity && t.zeroLength == s.zeroLength
  {
    hide ActiveCount, LowestActive, Rising;
    var (t, r) := Retire(s, n, pktDcid);
    if Removes(s, n) {
      var i := Find(s.queue, n);
      CountWithout(s.queue, i, s.retirePriorTo);
      WithoutKeeps(s.queue, i, s.nextSeq);
      LowestCounts(Without(s.queue, i), s.retirePriorTo);
    }
  }

  lemma RetireKeeps(s: Scids, n: nat, pktDcid: Cid)
    requires Inv(s)
    ensures
      var (t, r) := Retire(s, n, pktDcid);
      Inv(t) && s.retirePriorTo <= t.retirePriorTo && t.nextSeq == s.nextSeq
  {
    hide ActiveCount, LowestActive, Rising, Issued, Without;
    RetireCounts(s, n, pktDcid);
    if Removes(s, n) {
      WithoutKeeps(s.queue, Find(s.queue, n), s.nextSeq);
    }
  }

  /** Whether an id is added, and why not. */
  lemma AddOutcome(s: Scids, cid: Cid, token: Option<nat>, advertise: bool, pathId: Option<nat>, retireIfNeeded: bool)
    requires Inv(s)
    ensures
      var r := Add(s, cid, token, advertise, pathId, retireIfNeeded).1;
      if s.zeroLength then r == Err(InternalError)
      else if |s.queue| >= s.limit && !retireIfNeeded then r == Err(ConnectionIdLimitError)
      else if |s.queue| >= s.limit && !SomeActive(s) then r == Err(InternalError)
      else if token == None then r == Err(InternalError)
      else if |s.queue| == s.capacity then r == Err(ConnectionIdLimitError)
      else r == Ok(s.nextSeq)
  {
    hide ActiveCount, LowestActive, RemoveAll, Rising, SomeActive;
    SomeActiveCounts(s);
    LowestCounts(s.queue, s.retirePriorTo);
  }

  /**
   What a request to retire is answered: a number never issued and the id the packet came with
   are protocol violations, the last id is not given up, an unknown number is fine, and otherwise
   the path of the id is returned if another one is active.
   */
  lemma RetireOutcome(s: Scids, n: nat, pktDcid: Cid, i: nat)
    requires Inv(s) && i < |s.queue| && s.queue[i].seqNum == n
    ensures
      var (t, r) := Retire(s, n, pktDcid);
      if |s.queue| == 1 then t == s && r == Err(InternalError)
      else
        && t.queue == Without(s.queue, i)
        && r == (if s.queue[i].cid == pktDcid then Err(ProtocolViolation)
                 else if SomeActive(t) then Ok(s.queue[i].pathId)
                 else Err(InternalError))
  {
    hide ActiveCount, LowestActive, Without, SomeActive;
    assert Find(s.queue, n) == i;
    var (t, r) := Retire(s, n, pktDcid);
    RetireCounts(s, n, pktDcid);
    SomeActiveCounts(t);
    if |s.queue| > 1 {
      WithoutKeeps(s.queue, i, s.nextSeq);
      LowestCounts(Without(s.queue, i), s.retirePriorTo);
    }
  }

  lemma RetireUnknown(s: Scids, n: nat, pktDcid: Cid)
    requires Inv(s) && forall i :: 0 <= i < |s.queue| ==> s.queue[i].seqNum != n
    ensures Retire(s, n, pktDcid) == (s, if n >= s.nextSeq then Err(ProtocolViolation) else Ok(None))
  {
  }

  /** The limit is the peer's, but at least 2 and at most 16; the queue holds twice as many less one. */
  lemma SetLimitMeans(s: Scids, limit: nat)
    ensures
      var t := SetLimit(s, limit);
      && 2 <= t.limit <= 16
      && (2 <= limit <= 16 ==> t.limit == limit) && (limit < 2 ==> t.limit == 2) && (limit > 16 ==> t.limit == 16)
      && 2 * t.limit - 1 <= t.capacity && s.capacity <= t.capacity
      && (t.capacity == s.capacity || t.capacity == 2 * t.limit - 1)
      && t == s.(limit := t.limit, capacity := t.capacity)
  {
  }

  // ----- The numbers to announce

  /** A new number is listed once if it is to be announced and not at all if not; no other number changes. */
  lemma AddLists(
    s: Scids, cid: Cid, token: Option<nat>, advertise: bool, pathId: Option<nat>, retireIfNeeded: bool, k: nat)
    ensures
      var (t, r) := Add(s, cid, token, advertise, pathId, retireIfNeeded);
      Times(t.toAdvertise, k) ==
      if r == Ok(k) then (if advertise then Times(s.toAdvertise, k) + 1 else 0) else Times(s.toAdvertise, k)
  {
    hide LowestActive, RemoveAll, Times;
    TimesAppend(s.toAdvertise, s.nextSeq, k);
    RemoveAllTimes(s.toAdvertise, s.nextSeq, k);
  }

  lemma RetireLists(s: Scids, n: nat, pktDcid: Cid)
    ensures Retire(s, n, pktDcid).0.toAdvertise == s.toAdvertise
  {
  }

  lemma MarkLists(s: Scids, n: nat, advertise: bool, k: nat)
    ensures
      var t := MarkToAdvertise(s, n, advertise);
      && t == s.(toAdvertise := t.toAdvertise)
      && Times(t.toAdvertise, k) ==
         if n != k then Times(s.toAdvertise, k) else if advertise then Times(s.toAdvertise, k) + 1 else 0
  {
    hide RemoveAll, Times;
    TimesAppend(s.toAdvertise, n, k);
    RemoveAllTimes(s.toAdvertise, n, k);
  }

  /** The same for retiring an id. */
  lemma RetireActiveIff(s: Scids, n: nat, pktDcid: Cid)
    requires Inv(s) && SomeActive(s)
    ensures
      var (t, r) := Retire(s, n, pktDcid);
      && (SomeActive(t) <==> !RetireLosesLast(s, n))
      && (RetireLosesLast(s, n) ==> r.Err?)
  {
    hide ActiveCount, LowestActive, Rising, SomeActive, Without;
    SomeActiveCounts(s);
    SomeActiveCounts(Retire(s, n, pktDcid).0);
    RetireCounts(s, n, pktDcid);
  }

  // ----- Whole runs

  datatype Call =
    | AddCall(cid: Cid, token: Option<nat>, advertise: bool, pathId: Option<nat>, retireIfNeeded: bool)
    | RetireCall(seqNum: nat, pktDcid: Cid)
    | LimitCall(limit: nat)
    | MarkCall(seqNum: nat, advertise: bool)

  function Apply(s: Scids, call: Call): Scids {
    match call
    case AddCall(cid, token, advertise, pathId, retireIfNeeded) =>
      Add(s, cid, token, advertise, pathId, retireIfNeeded).0
    case RetireCall(n, pktDcid) => Retire(s, n, pktDcid).0
    case LimitCall(limit) => SetLimit(s, limit)
    case MarkCall(n, advertise) => MarkToAdvertise(s, n, advertise)
  }

  /** The sequence number a call hands out, if any. */
  function Issues(s: Scids, call: Call): seq<nat> {
    match call
    case AddCall(cid, token, advertise, pathId, retireIfNeeded) =>
      (match Add(s, cid, token, advertise, pathId, retireIfNeeded).1
       case Ok(n) => [n]
       case Err(_) => [])
    case _ => []
  }

  function Run(s: Scids, calls: seq<Call>): Scids
    decreases |calls|
  {
    if calls == [] then s else Run(Apply(s, calls[0]), calls[1..])
  }

  function AllIssued(s: Scids, calls: seq<Call>): seq<nat>
    decreases |calls|
  {
    if calls == [] then [] else Issues(s, calls[0]) + AllIssued(Apply(s, calls[0]), calls[1..])
  }

  /** A call that sets a limit does not go below the ids already active. */
  predicate Admissible(s: Scids, call: Call) {
    call.LimitCall? ==> ActiveCount(s.queue, s.retirePriorTo) <= SetLimit(s, call.limit).limit
  }

  predicate AllAdmissible(s: Scids, calls: seq<Call>)
    decreases |calls|
  {
    calls != [] ==> Admissible(s, calls[0]) && AllAdmissible(Apply(s, calls[0]), calls[1..])
  }

  predicate LosesLast(s: Scids, call: Call) {
    match call
    case AddCall(_, token, _, _, retireIfNeeded) => AddLosesLast(s, token, retireIfNeeded)
    case RetireCall(n, _) => RetireLosesLast(s, n)
    case LimitCall(_) => false
    case MarkCall(_, _) => false
  }

  predicate NeverLosesLast(s: Scids, calls: seq<Call>)
    decreases |calls|
  {
    calls != [] ==> !LosesLast(s, calls[0]) && NeverLosesLast(Apply(s, calls[0]), calls[1..])
  }

  lemma MarkKeeps(s: Scids, n: nat, advertise: bool)
    requires Inv(s)
    ensures
      var t := MarkToAdvertise(s, n, advertise);
      Inv(t) && (SomeActive(t) <==> SomeActive(s)) && t.retirePriorTo == s.retirePriorTo && t.nextSeq == s.nextSeq
  {
    hide RemoveAll;
  }

  lemma CallKeeps(s: Scids, call: Call)
    requires Inv(s)
    ensures Inv(Apply(s, call)) <==> Admissible(s, call)
    ensures s.retirePriorTo <= Apply(s, call).retirePriorTo
    ensures Apply(s, call).nextSeq == s.nextSeq + |Issues(s, call)|
    ensures Issues(s, call) == [] || Issues(s, call) == [s.nextSeq]
    ensures SomeActive(s) ==> (SomeActive(Apply(s, call)) <==> !LosesLast(s, call))
  {
    hide Inv, SomeActive, AddLosesLast, RetireLosesLast, ActiveCount, Add, Retire;
    match call
    case AddCall(cid, token, advertise, pathId, retireIfNeeded) =>
      AddKeeps(s, cid, token, advertise, pathId, retireIfNeeded);
      if SomeActive(s) {
        AddActiveIff(s, cid, token, advertise, pathId, retireIfNeeded);
      }
    case RetireCall(n, pktDcid) =>
      RetireKeeps(s, n, pktDcid);
      if SomeActive(s) {
        RetireActiveIff(s, n, pktDcid);
      }
    case LimitCall(limit) =>
      SetLimitIff(s, limit);
    case MarkCall(n, advertise) =>
      MarkKeeps(s, n, advertise);
  }

  /**
   Over every run of calls, failed ones included: the peer never holds more active ids than it
   allows, the retire-prior-to value never falls, and sequence numbers are handed out one after
   the other, so none is ever used twice.
   */
  lemma {:induction false} RunKeeps(s: Scids, calls: seq<Call>)
    requires Inv(s) && AllAdmissible(s, calls)
    ensures Inv(Run(s, calls))
    ensures s.retirePriorTo <= Run(s, calls).retirePriorTo
    ensures Run(s, calls).nextSeq == s.nextSeq + |AllIssued(s, calls)|
    ensures forall k :: 0 <= k < |AllIssued(s, calls)| ==> AllIssued(s, calls)[k] == s.nextSeq + k
    decreases |calls|
  {
    hide Inv, Apply, Issues, Admissible;
    if calls != [] {
      CallKeeps(s, calls[0]);
      RunKeeps(Apply(s, calls[0]), calls[1..]);
    }
  }

  ghost predicate ActiveThroughout(s: Scids, calls: seq<Call>)
    decreases |calls|
  {
    SomeActive(s) && (calls != [] ==> ActiveThroughout(Apply(s, calls[0]), calls[1..]))
  }

  /** Some id stays active throughout a run if and only if no call on the way loses the last one. */
  lemma {:induction false} RunActiveIff(s: Scids, calls: seq<Call>)
    requires Inv(s) && SomeActive(s) && AllAdmissible(s, calls)
    ensures ActiveThroughout(s, calls) <==> NeverLosesLast(s, calls)
    decreases |calls|
  {
    hide Inv, Apply, Admissible, SomeActive, LosesLast;
    if calls != [] {
      CallKeeps(s, calls[0]);
      if !LosesLast(s, calls[0]) {
        RunActiveIff(Apply(s, calls[0]), calls[1..]);
      }
    }
  }

  /** The last call that marks `n` says whether it is to be announced; without one it stays as it was. */
  predicate MarkSays(calls: seq<Call>, n: nat, before: bool) {
    if calls == [] then before
    else
      match calls[|calls| - 1]
      case MarkCall(k, advertise) => if k == n then advertise else MarkSays(calls[..|calls| - 1], n, before)
      case _ => MarkSays(calls[..|calls| - 1], n, before)
  }

  lemma {:induction false} RunAppend(s: Scids, calls: seq<Call>, call: Call)
    ensures Run(s, calls + [call]) == Apply(Run(s, calls), call)
    decreases |calls|
  {
    hide Apply;
    if calls == [] {
      assert [call][1..] == [] && calls + [call] == [call];
      assert Run(Apply(s, call), []) == Apply(s, call);
    } else {
      RunAppend(Apply(s, calls[0]), calls[1..], call);
      assert (calls + [call])[1..] == calls[1..] + [call];
    }
  }

  lemma CallLists(s: Scids, call: Call, n: nat)
    requires n < s.nextSeq
    ensures n < Apply(s, call).nextSeq
    ensures
      n in Apply(s, call).toAdvertise <==>
      if call.MarkCall? && call.seqNum == n then call.advertise else n in s.toAdvertise
  {
    hide Times, RemoveAll, LowestActive;
    TimesPositive(s.toAdvertise, n);
    TimesPositive(Apply(s, call).toAdvertise, n);
    match call
    case AddCall(cid, token, advertise, pathId, retireIfNeeded) =>
      AddLists(s, cid, token, advertise, pathId, retireIfNeeded, n);
    case RetireCall(k, pktDcid) => RetireLists(s, k, pktDcid);
    case LimitCall(_) =>
    case MarkCall(k, advertise) => MarkLists(s, k, advertise, n);
  }

  /** Over every run, a number issued is listed to be announced exactly as its last mark says. */
  lemma {:induction false} RunLists(s: Scids, calls: seq<Call>, n: nat)
    requires n < s.nextSeq
    ensures n < Run(s, calls).nextSeq
    ensures n in Run(s, calls).toAdvertise <==> MarkSays(calls, n, n in s.toAdvertise)
    decreases |calls|
  {
    hide Apply;
    if calls != [] {
      var front, last := calls[..|calls| - 1], calls[|calls| - 1];
      RunLists(s, front, n);
      RunAppend(s, front, last);
      assert calls == front + [last];
      CallLists(Run(s, front), last, n);
    }
  }

  /** From the call that issues a number on: it is listed if it was to be announced, until a mark says otherwise. */
  lemma IssuedIsListed(
    s: Scids, cid: Cid, token: Option<nat>, advertise: bool, pathId: Option<nat>, retireIfNeeded: bool, calls: seq<Call>)
    ensures
      var (t, r) := Add(s, cid, token, advertise, pathId, retireIfNeeded);
      r.Ok? ==> (r.value in Run(t, calls).toAdvertise <==> MarkSays(calls, r.value, advertise))
  {
    hide Run, Times, RemoveAll, LowestActive;
    var (t, r) := Add(s, cid, token, advertise, pathId, retireIfNeeded);
    if r.Ok? {
      AddLists(s, cid, token, advertise, pathId, retireIfNeeded, r.value);
      TimesPositive(t.toAdvertise, r.value);
      RunLists(t, calls, r.value);
    }
  }

  /** An endpoint that began with a zero-length id issues no other; any other one issues number 1 next. */
  lemma FirstAdd(cid: Cid, pathId: nat, resetToken: Option<nat>, other: Cid, token: nat)
    ensures
      var (t, r) := Add(Init(cid, pathId, resetToken), other, Some(token), true, None, false);
      if cid == [] then r == Err(InternalError)
      else
        && r == Ok(1)
        && t.queue == [Item(cid, 0, resetToken, Some(pathId)), Item(other, 1, Some(token), None)]
        && t.toAdvertise == [1]
  {
  }

  /** The run theorems from the first id on. */
  lemma RunFromStart(cid: Cid, pathId: nat, resetToken: Option<nat>, calls: seq<Call>)
    requires AllAdmissible(Init(cid, pathId, resetToken), calls)
    ensures
      var s := Init(cid, pathId, resetToken);
      && Inv(Run(s, calls))
      && (forall k :: 0 <= k < |AllIssued(s, calls)| ==> AllIssued(s, calls)[k] == 1 + k)
      && (ActiveThroughout(s, calls) <==> NeverLosesLast(s, calls))
  {
    hide Inv, SomeActive, Run, AllIssued;
    var s := Init(cid, pathId, resetToken);
    InitKeeps(cid, pathId, resetToken);
    RunKeeps(s, calls);
    RunActiveIff(s, calls);
  }

  /**
   Renewals that fail for lack of room still ask for ids back: on a full queue, as many of them
   as there are active ids leave the peer with none, and issue nothing.
   */
  lemma {:induction false} FullQueueRenewals(s: Scids, call: Call, count: nat)
    requires Inv(s) && !s.zeroLength && |s.queue| == s.capacity
    requires call.AddCall? && call.retireIfNeeded
    requires count == ActiveCount(s.queue, s.retirePriorTo)
    ensures var calls := seq(count, _ => call); !SomeActive(Run(s, calls)) && AllIssued(s, calls) == []
    decreases count
  {
    hide ActiveCount, LowestActive, SomeActive, Rising, Issued;
    var calls := seq(count, _ => call);
    if count == 0 {
      SomeActiveCounts(s);
    } else {
      AddKeeps(s, call.cid, call.token, call.advertise, call.pathId, true);
      AddCounts(s, call.cid, call.token, call.advertise, call.pathId, true);
      assert calls[1..] == seq(count - 1, _ => call);
      FullQueueRenewals(Apply(s, call), call, count - 1);
    }
  }

  /** Such a queue is two renewals away from the start. */
  lemma FullQueueReached(cids: seq<Cid>)
    requires |cids| == 3 && cids[0] != []
    ensures
      var s := Add(Init(cids[0], 0, None), cids[1], Some(1), true, None, true).0;
      var t := Add(s, cids[2], Some(2), true, None, true).0;
      Inv(t) && |t.queue| == t.capacity && ActiveCount(t.queue, t.retirePriorTo) == 2
  {
    hide LowestActive, Rising;
    InitKeeps(cids[0], 0, None);
    var i := Init(cids[0], 0, None);
    assert ActiveCount(i.queue, 0) == 1;
    AddCounts(i, cids[1], Some(1), true, None, true);
    AddKeeps(i, cids[1], Some(1), true, None, true);
    var s := Add(i, cids[1], Some(1), true, None, true).0;
    LowestCounts(s.queue, s.retirePriorTo);
    AddCounts(s, cids[2], Some(2), true, None, true);
    AddKeeps(s, cids[2], Some(2), true, None, true);
  }
}
