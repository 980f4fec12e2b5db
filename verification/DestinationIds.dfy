/**
 The connection ids the peer issues to an endpoint, src/connection/cid.rs: sections 5.1.1,
 5.1.2 and 19.15 of RFC 9000. Every call is a function from state to state and result, because
 a call that fails may have changed the state already.
 */
module DestinationIds {
  import opened CidDeque
  import opened Options

  /** What a call returns: the retired ids in use on some path, with that path. */
  type Retired = seq<(nat, nat)>

  datatype Dcids = Dcids(
    queue: seq<Item>,
    limit: nat,
    zeroLength: bool,
    largestRetire: nat,
    toRetire: seq<nat>)
  {
    function Capacity(): int {
      2 * limit - 1
    }
  }

  datatype Call =
    | AddCall(cid: Cid, seqNum: nat, token: nat, retirePriorTo: nat)
    | MarkCall(seqNum: nat, retire: bool)
    | UseCall(seqNum: nat, pathId: nat)

  // ----- Calls

  function Init(limit: nat, cid: Cid, token: Option<nat>, pathId: Option<nat>): Dcids {
    Dcids([Item(cid, 0, token, pathId)], limit, cid == [], 0, [])
  }

  /** The first item with the given id or number, or the length if there is none. */
  function FindEither(queue: seq<Item>, cid: Cid, n: nat): (i: nat)
    ensures i <= |queue|
    ensures i < |queue| ==> queue[i].cid == cid || queue[i].seqNum == n
    ensures forall j :: 0 <= j < i ==> queue[j].cid != cid && queue[j].seqNum != n
  {
    if queue == [] || queue[0].cid == cid || queue[0].seqNum == n then 0 else 1 + FindEither(queue[1..], cid, n)
  }

  /** Whether the queue of retirements to announce is too long. */
  predicate Flooded(s: Dcids) {
    |s.toRetire| > 4 * s.limit
  }

  function RaiseThreshold(s: Dcids, retirePriorTo: nat): Dcids {
    s.(queue := Select(s.queue, retirePriorTo, false),
       toRetire := s.toRetire + Numbers(Select(s.queue, retirePriorTo, true)),
       largestRetire := retirePriorTo)
  }

  function Insert(s: Dcids, item: Item, retired: Retired): (Dcids, Result<Retired>) {
    if |s.queue| == s.Capacity() then (s, Err(ConnectionIdLimitError))
    else (s.(queue := s.queue + [item]), Ok(retired))
  }

  function Add(s: Dcids, cid: Cid, n: nat, token: nat, retirePriorTo: nat): (Dcids, Result<Retired>) {
    var i := FindEither(s.queue, cid, n);
    var item := Item(cid, n, Some(token), None);
    if s.zeroLength then (s, Err(ProtocolViolation))
    else if i < |s.queue| then
      var e := s.queue[i];
      (s, if e.cid != cid || e.seqNum != n || e.resetToken != Some(token) then Err(ProtocolViolation) else Ok([]))
    else if retirePriorTo > n then (s, Err(ProtocolViolation))
    else if n < s.largestRetire && n !in s.toRetire then
      var t := s.(toRetire := s.toRetire + [n]);
      (t, if Flooded(t) then Err(ProtocolViolation) else Ok([]))
    else if retirePriorTo > s.largestRetire then
      var t := RaiseThreshold(s, retirePriorTo);
      if Flooded(t) then (t, Err(ProtocolViolation))
      else Insert(t, item, OnPaths(Select(s.queue, retirePriorTo, true)))
    else Insert(s, item, [])
  }

  function MarkToRetire(s: Dcids, n: nat, retire: bool): Dcids {
    s.(toRetire := if retire then s.toRetire + [n] else RemoveAll(s.toRetire, n))
  }

  function MarkUsed(s: Dcids, n: nat, pathId: nat): Dcids {
    var i := Find(s.queue, n);
    if i == |s.queue| then s else s.(queue := s.queue[i := s.queue[i].(pathId := Some(pathId))])
  }

  function Apply(s: Dcids, call: Call): Dcids {
    match call
    case AddCall(cid, n, token, retirePriorTo) => Add(s, cid, n, token, retirePriorTo).0
    case MarkCall(n, retire) => MarkToRetire(s, n, retire)
    case UseCall(n, pathId) => MarkUsed(s, n, pathId)
  }

  function Run(s: Dcids, calls: seq<Call>): Dcids
    decreases |calls|
  {
    if calls == [] then s else Run(Apply(s, calls[0]), calls[1..])
  }

  // ----- What every call keeps

  /** No number and no id appears twice. */
  ghost predicate Distinct(queue: seq<Item>) {
    forall i, j :: 0 <= i < j < |queue| ==> queue[i].seqNum != queue[j].seqNum && queue[i].cid != queue[j].cid
  }

  ghost predicate Inv(s: Dcids) {
    && 1 <= s.limit
    && Distinct(s.queue)
    && |s.queue| <= s.Capacity()
  }

  /** No id in use is one the peer asked back. */
  ghost predicate AboveThreshold(s: Dcids) {
    forall i :: 0 <= i < |s.queue| ==> s.queue[i].seqNum >= s.largestRetire
  }

  lemma {:induction false} SelectKeeps(queue: seq<Item>, n: nat, lower: bool)
    requires Distinct(queue)
    ensures Distinct(Select(queue, n, lower))
    ensures |Select(queue, n, lower)| <= |queue|
    ensures forall x :: x in Select(queue, n, lower) <==> x in queue && (x.seqNum < n) == lower
    decreases |queue|
  {
    if queue != [] {
      var rest, last := queue[..|queue| - 1], queue[|queue| - 1];
      SelectKeeps(rest, n, lower);
      assert queue == rest + [last];
      assert forall x :: x in rest ==> x.seqNum != last.seqNum && x.cid != last.cid;
    }
  }

  // ----- Where each number is

  /** How often a number is held: in use, or waiting to be given back. */
  function Held(s: Dcids, n: nat): nat {
    Times(Numbers(s.queue), n) + Times(s.toRetire, n)
  }

  lemma {:induction false} TimesConcat(a: seq<nat>, b: seq<nat>, n: nat)
    ensures Times(a + b, n) == Times(a, n) + Times(b, n)
    decreases |b|
  {
    if b == [] {
      assert a + b == a;
    } else {
      assert (a + b)[..|a + b| - 1] == a + b[..|b| - 1];
      TimesConcat(a, b[..|b| - 1], n);
    }
  }

  lemma NumbersAppend(queue: seq<Item>, item: Item)
    ensures Numbers(queue + [item]) == Numbers(queue) + [item.seqNum]
  {
    assert (queue + [item])[..|queue|] == queue;
  }

  lemma TimesNone(n: nat)
    ensures Times(Numbers([]), n) == 0
  {
  }

  /** Splitting the queue at a number loses no item. */
  lemma {:induction false} SelectSplits(queue: seq<Item>, at: nat, n: nat)
    ensures
      Times(Numbers(queue), n) ==
      Times(Numbers(Select(queue, at, false)), n) + Times(Numbers(Select(queue, at, true)), n)
    decreases |queue|
  {
    hide Times, Numbers;
    if queue == [] {
      TimesNone(n);
    } else {
      var rest, last := queue[..|queue| - 1], queue[|queue| - 1];
      SelectSplits(rest, at, n);
      assert queue == rest + [last];
      NumbersAppend(rest, last);
      TimesAppend(Numbers(rest), last.seqNum, n);
      var chosen := Select(rest, at, last.seqNum < at);
      NumbersAppend(chosen, last);
      TimesAppend(Numbers(chosen), last.seqNum, n);
    }
  }

  lemma {:induction false} NumbersUnchanged(queue: seq<Item>, other: seq<Item>)
    requires |queue| == |other|
    requires forall i :: 0 <= i < |queue| ==> queue[i].seqNum == other[i].seqNum
    ensures Numbers(queue) == Numbers(other)
    decreases |queue|
  {
    if queue != [] {
      NumbersUnchanged(queue[..|queue| - 1], other[..|other| - 1]);
    }
  }

  lemma {:induction false} NumbersContain(queue: seq<Item>, i: nat)
    requires i < |queue|
    ensures Times(Numbers(queue), queue[i].seqNum) >= 1
    decreases |queue|
  {
    hide Times, Numbers;
    var rest, last := queue[..|queue| - 1], queue[|queue| - 1];
    assert queue == rest + [last];
    NumbersAppend(rest, last);
    TimesAppend(Numbers(rest), last.seqNum, queue[i].seqNum);
    if i < |rest| {
      NumbersContain(rest, i);
    }
  }

  // ----- The calls

  /** The call takes the offered id in, to use it or to give it back. */
  predicate TakesIn(s: Dcids, cid: Cid, n: nat, token: nat, retirePriorTo: nat) {
    && !s.zeroLength
    && FindEither(s.queue, cid, n) == |s.queue|
    && retirePriorTo <= n
    && (if n < s.largestRetire && n !in s.toRetire then true
        else if retirePriorTo > s.largestRetire then
          !Flooded(RaiseThreshold(s, retirePriorTo)) && |Select(s.queue, retirePriorTo, false)| != s.Capacity()
        else
          |s.queue| != s.Capacity())
  }

  lemma RaiseConserves(s: Dcids, retirePriorTo: nat, n: nat)
    ensures Held(RaiseThreshold(s, retirePriorTo), n) == Held(s, n)
  {
    SelectSplits(s.queue, retirePriorTo, n);
    TimesConcat(s.toRetire, Numbers(Select(s.queue, retirePriorTo, true)), n);
  }

  lemma InsertConserves(s: Dcids, item: Item, retired: Retired, n: nat)
    ensures
      Held(Insert(s, item, retired).0, n) ==
      Held(s, n) + if |s.queue| != s.Capacity() && item.seqNum == n then 1 else 0
  {
    NumbersAppend(s.queue, item);
    TimesAppend(Numbers(s.queue), item.seqNum, n);
  }

  lemma PushConserves(s: Dcids, x: nat, n: nat)
    ensures Held(s.(toRetire := s.toRetire + [x]), n) == Held(s, n) + if x == n then 1 else 0
  {
    TimesAppend(s.toRetire, x, n);
  }

  /**
   A number offered is taken in once or not at all, and no other number appears or is lost,
   whether the call succeeds or fails.
   */
  lemma AddConserves(s: Dcids, cid: Cid, x: nat, token: nat, retirePriorTo: nat, n: nat)
    ensures
      Held(Add(s, cid, x, token, retirePriorTo).0, n) ==
      Held(s, n) + if TakesIn(s, cid, x, token, retirePriorTo) && x == n then 1 else 0
  {
    hide Times, Numbers, Select, FindEither, Held;
    var item := Item(cid, x, Some(token), None);
    var t := RaiseThreshold(s, retirePriorTo);
    RaiseConserves(s, retirePriorTo, n);
    InsertConserves(t, item, OnPaths(Select(s.queue, retirePriorTo, true)), n);
    InsertConserves(s, item, [], n);
    PushConserves(s, x, n);
  }

  /** An accepted offer is held afterwards, and a new one is taken in. */
  lemma AcceptedIsHeld(s: Dcids, cid: Cid, x: nat, token: nat, retirePriorTo: nat)
    requires Add(s, cid, x, token, retirePriorTo).1.Ok?
    ensures Held(Add(s, cid, x, token, retirePriorTo).0, x) >= 1
    ensures TakesIn(s, cid, x, token, retirePriorTo) <==> FindEither(s.queue, cid, x) == |s.queue|
  {
    hide Times, Numbers, Select;
    AddConserves(s, cid, x, token, retirePriorTo, x);
    var i := FindEither(s.queue, cid, x);
    if i < |s.queue| {
      NumbersContain(s.queue, i);
    }
  }

  lemma InsertKeeps(s: Dcids, item: Item, retired: Retired)
    requires Inv(s)
    requires forall x :: x in s.queue ==> x.seqNum != item.seqNum && x.cid != item.cid
    ensures Inv(Insert(s, item, retired).0)
  {
    assert forall i :: 0 <= i < |s.queue| ==> s.queue[i] in s.queue;
  }

  /**
   No number or id is held twice in use and the queue stays within its capacity, whether the
   call succeeds or fails; the list of ids to give back grows past four times the limit only
   in a call that fails.
   */
  lemma AddKeeps(s: Dcids, cid: Cid, n: nat, token: nat, retirePriorTo: nat)
    requires Inv(s)
    ensures
      var (t, r) := Add(s, cid, n, token, retirePriorTo);
      && Inv(t)
      && s.largestRetire <= t.largestRetire
      && |t.queue| <= 2 * s.limit - 1
      && (r.Ok? && t.toRetire != s.toRetire ==> |t.toRetire| <= 4 * s.limit)
  {
    hide Select, Numbers, Distinct, OnPaths;
    var t := RaiseThreshold(s, retirePriorTo);
    var item := Item(cid, n, Some(token), None);
    SelectKeeps(s.queue, retirePriorTo, false);
    if FindEither(s.queue, cid, n) == |s.queue| {
      assert forall x :: x in s.queue ==> x.seqNum != n && x.cid != cid;
      InsertKeeps(t, item, OnPaths(Select(s.queue, retirePriorTo, true)));
      InsertKeeps(s, item, []);
    }
  }

  /** The items the call leaves in use: a value above the threshold retires the lower ones. */
  function Kept(s: Dcids, retirePriorTo: nat): seq<Item> {
    if retirePriorTo > s.largestRetire then Select(s.queue, retirePriorTo, false) else s.queue
  }

  /** The offer names an id or a number in use. */
  ghost predicate IsKnown(s: Dcids, cid: Cid, n: nat) {
    exists i :: 0 <= i < |s.queue| && (s.queue[i].cid == cid || s.queue[i].seqNum == n)
  }

  /** A number the peer has asked back, and whose retirement is not queued: it is queued at once. */
  predicate GivenBack(s: Dcids, n: nat) {
    n < s.largestRetire && n !in s.toRetire
  }

  /** How many retirements are queued after the call has looked at the offer. */
  function Queued(s: Dcids, n: nat, retirePriorTo: nat): int {
    if GivenBack(s, n) then |s.toRetire| + 1
    else |s.toRetire| + |s.queue| - |Kept(s, retirePriorTo)|
  }

  lemma {:induction false} SelectLengths(queue: seq<Item>, n: nat)
    ensures |Select(queue, n, false)| + |Select(queue, n, true)| == |queue|
    ensures |Numbers(queue)| == |queue|
    decreases |queue|
  {
    if queue != [] {
      SelectLengths(queue[..|queue| - 1], n);
    }
  }

  lemma NumbersLength(queue: seq<Item>)
    ensures |Numbers(queue)| == |queue|
  {
    SelectLengths(queue, 0);
  }

  /**
   What becomes of an offer. It is refused on a path without ids, or if it clashes with an id in
   use, or asks back more than itself, or floods the queue of retirements, which holds at most
   four times the limit; a new id needs room among twice the limit less one.
   */
  lemma AddOutcome(s: Dcids, cid: Cid, n: nat, token: nat, retirePriorTo: nat)
    requires Inv(s)
    ensures
      var (t, r) := Add(s, cid, n, token, retirePriorTo);
      if s.zeroLength then r == Err(ProtocolViolation)
      else if IsKnown(s, cid, n) then (r == if IsRepeat(s, cid, n, token) then Ok([]) else Err(ProtocolViolation))
      else if retirePriorTo > n then r == Err(ProtocolViolation)
      else if (GivenBack(s, n) || retirePriorTo > s.largestRetire) && Queued(s, n, retirePriorTo) > 4 * s.limit then
        r == Err(ProtocolViolation)
      else if GivenBack(s, n) then r == Ok([])
      else if |Kept(s, retirePriorTo)| == 2 * s.limit - 1 then r == Err(ConnectionIdLimitError)
      else r.Ok?
  {
    hide Select, Numbers, OnPaths, FindEither;
    var i := FindEither(s.queue, cid, n);
    SelectLengths(s.queue, retirePriorTo);
    NumbersLength(Select(s.queue, retirePriorTo, true));
    if IsRepeat(s, cid, n, token) {
      var k :| 0 <= k < |s.queue| && s.queue[k].cid == cid && s.queue[k].seqNum == n
               && s.queue[k].resetToken == Some(token);
      assert i == k;
    }
  }

  /**
   What a call leaves in use: the items it keeps and, if it takes a new number into use, one item
   with the id, the number and the token of the offer, on no path. Retirements queued before
   keep their place.
   */
  lemma AddStores(s: Dcids, cid: Cid, n: nat, token: nat, retirePriorTo: nat)
    requires Inv(s)
    ensures
      var (t, r) := Add(s, cid, n, token, retirePriorTo);
      && s.toRetire <= t.toRetire
      && t.limit == s.limit && t.zeroLength == s.zeroLength
      && (t.largestRetire == s.largestRetire || t.largestRetire == retirePriorTo)
      && (r.Ok? && !IsKnown(s, cid, n) && !GivenBack(s, n) ==>
            && t.queue == Kept(s, retirePriorTo) + [Item(cid, n, Some(token), None)]
            && t.largestRetire == if retirePriorTo > s.largestRetire then retirePriorTo else s.largestRetire)
      && (r.Ok? && (IsKnown(s, cid, n) || GivenBack(s, n)) ==> t.queue == s.queue)
  {
    hide Select, Numbers, OnPaths, FindEither;
    var i := FindEither(s.queue, cid, n);
    if i == |s.queue| {
      assert !IsKnown(s, cid, n);
    } else {
      assert IsKnown(s, cid, n);
    }
  }

  /** An offer that was accepted and put the number in use is accepted again and changes nothing. */
  lemma AddAgain(s: Dcids, cid: Cid, n: nat, token: nat, retirePriorTo: nat)
    requires Inv(s)
    ensures
      var (t, r) := Add(s, cid, n, token, retirePriorTo);
      r.Ok? && IsKnown(t, cid, n) ==> Add(t, cid, n, token, retirePriorTo) == (t, Ok([]))
  {
    hide Select, Numbers, OnPaths, FindEither, Distinct;
    var (t, r) := Add(s, cid, n, token, retirePriorTo);
    AddKeeps(s, cid, n, token, retirePriorTo);
    AddStores(s, cid, n, token, retirePriorTo);
    AddOutcome(s, cid, n, token, retirePriorTo);
    if r.Ok? && IsKnown(t, cid, n) {
      if !IsKnown(s, cid, n) {
        assert t.queue != s.queue;
        assert t.queue[|t.queue| - 1] == Item(cid, n, Some(token), None);
      }
      assert IsRepeat(t, cid, n, token);
      RepeatChangesNothing(t, cid, n, token, retirePriorTo);
    }
  }

  lemma RepeatChangesNothing(s: Dcids, cid: Cid, n: nat, token: nat, retirePriorTo: nat)
    requires Inv(s) && !s.zeroLength && IsRepeat(s, cid, n, token)
    ensures Add(s, cid, n, token, retirePriorTo) == (s, Ok([]))
  {
    AddOutcome(s, cid, n, token, retirePriorTo);
    var k :| 0 <= k < |s.queue| && s.queue[k].cid == cid && s.queue[k].seqNum == n
             && s.queue[k].resetToken == Some(token);
    assert FindEither(s.queue, cid, n) < |s.queue|;
  }

  /** Assigning a path sets it on the item with the number, and touches no other. */
  lemma MarkUsedSets(s: Dcids, n: nat, pathId: nat)
    requires Inv(s)
    ensures
      var t := MarkUsed(s, n, pathId);
      && |t.queue| == |s.queue|
      && forall i :: 0 <= i < |s.queue| ==>
           t.queue[i] == if s.queue[i].seqNum == n then s.queue[i].(pathId := Some(pathId)) else s.queue[i]
  {
    hide Find;
    var i := Find(s.queue, n);
  }

  /** The offer repeats an id in use with the same number and token. */
  ghost predicate IsRepeat(s: Dcids, cid: Cid, n: nat, token: nat) {
    exists i ::
      0 <= i < |s.queue| && s.queue[i].cid == cid && s.queue[i].seqNum == n && s.queue[i].resetToken == Some(token)
  }

  /**
   An offer that asks back more than itself changes nothing; it is a protocol violation, unless
   it repeats an id in use, which is accepted before the values are compared.
   */
  lemma RetirePriorToTooLarge(s: Dcids, cid: Cid, n: nat, token: nat, retirePriorTo: nat)
    requires Inv(s) && retirePriorTo > n
    ensures
      Add(s, cid, n, token, retirePriorTo) ==
      (s, if s.zeroLength || !IsRepeat(s, cid, n, token) then Err(ProtocolViolation) else Ok([]))
  {
    var i := FindEither(s.queue, cid, n);
    if IsRepeat(s, cid, n, token) {
      var k :| 0 <= k < |s.queue| && s.queue[k].cid == cid && s.queue[k].seqNum == n
               && s.queue[k].resetToken == Some(token);
      assert i == k;
    }
  }

  /** Such an offer is accepted: the first id, repeated with a value above its number. */
  lemma RepeatIsAccepted(cid: Cid, token: nat)
    requires cid != []
    ensures var s := Init(2, cid, Some(token), None); Add(s, cid, 0, token, 5) == (s, Ok([]))
  {
  }

  /** The calls that bring back into use an id the peer has asked back. */
  predicate SlipsBelow(s: Dcids, cid: Cid, n: nat, retirePriorTo: nat) {
    && !s.zeroLength
    && FindEither(s.queue, cid, n) == |s.queue|
    && retirePriorTo <= n < s.largestRetire
    && n in s.toRetire
    && |s.queue| != s.Capacity()
  }

  /**
   After the call every id in use is at or above the largest retire-prior-to value if and only
   if the call did not repeat a retired number whose retirement is still to be announced.
   */
  lemma AddAboveIff(s: Dcids, cid: Cid, n: nat, token: nat, retirePriorTo: nat)
    requires Inv(s) && AboveThreshold(s)
    ensures AboveThreshold(Add(s, cid, n, token, retirePriorTo).0) <==> !SlipsBelow(s, cid, n, retirePriorTo)
  {
    hide Select, Numbers, Distinct, OnPaths, FindEither;
    var t := Add(s, cid, n, token, retirePriorTo).0;
    SelectKeeps(s.queue, retirePriorTo, false);
    assert forall x :: x in s.queue ==> x.seqNum >= s.largestRetire;
    if SlipsBelow(s, cid, n, retirePriorTo) {
      assert t.queue[|s.queue|].seqNum == n;
    } else {
      assert forall i :: 0 <= i < |t.queue| ==> t.queue[i] in t.queue;
    }
  }

  lemma {:induction false} OnPathsMeans(queue: seq<Item>, n: nat, p: nat)
    ensures (n, p) in OnPaths(queue) <==> exists x :: x in queue && x.seqNum == n && x.pathId == Some(p)
    decreases |queue|
  {
    if queue != [] {
      var rest, last := queue[..|queue| - 1], queue[|queue| - 1];
      OnPathsMeans(rest, n, p);
      assert queue == rest + [last];
      if last.seqNum == n && last.pathId == Some(p) {
        assert last in queue;
      }
    }
  }

  /** The call reports exactly the ids in use on a path that it takes out of use, with their path. */
  lemma AddReports(s: Dcids, cid: Cid, x: nat, token: nat, retirePriorTo: nat, n: nat, p: nat)
    requires Inv(s)
    ensures
      var (t, r) := Add(s, cid, x, token, retirePriorTo);
      r.Ok? ==>
        ((n, p) in r.value <==> exists e :: e in s.queue && e !in t.queue && e.seqNum == n && e.pathId == Some(p))
  {
    hide Select, Numbers, Distinct, OnPaths, FindEither;
    SelectKeeps(s.queue, retirePriorTo, true);
    SelectKeeps(s.queue, retirePriorTo, false);
    OnPathsMeans(Select(s.queue, retirePriorTo, true), n, p);
    var (t, r) := Add(s, cid, x, token, retirePriorTo);
    if r.Ok? && r.value != [] {
      assert t.queue == Select(s.queue, retirePriorTo, false) + [Item(cid, x, Some(token), None)];
    }
  }

  lemma MarkUsedKeeps(s: Dcids, n: nat, pathId: nat, k: nat)
    requires Inv(s)
    ensures Inv(MarkUsed(s, n, pathId)) && MarkUsed(s, n, pathId).largestRetire == s.largestRetire
    ensures Held(MarkUsed(s, n, pathId), k) == Held(s, k)
    ensures AboveThreshold(MarkUsed(s, n, pathId)) <==> AboveThreshold(s)
  {
    hide Times, Numbers;
    NumbersUnchanged(s.queue, MarkUsed(s, n, pathId).queue);
    var t := MarkUsed(s, n, pathId);
    assert forall i :: 0 <= i < |t.queue| ==> t.queue[i].seqNum == s.queue[i].seqNum;
  }

  lemma MarkKeepsAbove(s: Dcids, n: nat, retire: bool)
    ensures AboveThreshold(MarkToRetire(s, n, retire)) <==> AboveThreshold(s)
  {
  }

  // ----- Whole runs

  predicate Slips(s: Dcids, call: Call) {
    call.AddCall? && SlipsBelow(s, call.cid, call.seqNum, call.retirePriorTo)
  }

  predicate NeverSlips(s: Dcids, calls: seq<Call>)
    decreases |calls|
  {
    calls != [] ==> !Slips(s, calls[0]) && NeverSlips(Apply(s, calls[0]), calls[1..])
  }

  ghost predicate AboveThroughout(s: Dcids, calls: seq<Call>)
    decreases |calls|
  {
    AboveThreshold(s) && (calls != [] ==> AboveThroughout(Apply(s, calls[0]), calls[1..]))
  }

  /** How often a call brings in the number `n`. */
  function Arrival(s: Dcids, call: Call, n: nat): nat {
    match call
    case AddCall(cid, x, token, retirePriorTo) =>
      if x == n && TakesIn(s, cid, x, token, retirePriorTo) then 1 else 0
    case MarkCall(x, retire) => if x == n && retire then 1 else 0
    case UseCall(_, _) => 0
  }

  function Arrivals(s: Dcids, calls: seq<Call>, n: nat): nat
    decreases |calls|
  {
    if calls == [] then 0 else Arrival(s, calls[0], n) + Arrivals(Apply(s, calls[0]), calls[1..], n)
  }

  lemma CallKeeps(s: Dcids, call: Call)
    requires Inv(s)
    ensures Inv(Apply(s, call))
    ensures s.largestRetire <= Apply(s, call).largestRetire
    ensures AboveThreshold(s) ==> (AboveThreshold(Apply(s, call)) <==> !Slips(s, call))
  {
    hide Add, SlipsBelow, Distinct, MarkUsed, AboveThreshold;
    match call
    case AddCall(cid, n, token, retirePriorTo) =>
      AddKeeps(s, cid, n, token, retirePriorTo);
      if AboveThreshold(s) {
        AddAboveIff(s, cid, n, token, retirePriorTo);
      }
    case MarkCall(n, retire) =>
      MarkKeepsAbove(s, n, retire);
    case UseCall(n, pathId) =>
      MarkUsedKeeps(s, n, pathId, 0);
  }

  lemma CallConserves(s: Dcids, call: Call, n: nat)
    requires Inv(s)
    ensures
      Held(Apply(s, call), n) ==
      if call == MarkCall(n, false) then Times(Numbers(s.queue), n) else Held(s, n) + Arrival(s, call, n)
  {
    hide Add, TakesIn, MarkUsed, Distinct, Times, Numbers, RemoveAll;
    match call
    case AddCall(cid, x, token, retirePriorTo) =>
      AddConserves(s, cid, x, token, retirePriorTo, n);
    case MarkCall(x, retire) =>
      PushConserves(s, x, n);
      RemoveAllTimes(s.toRetire, x, n);
    case UseCall(x, pathId) =>
      MarkUsedKeeps(s, x, pathId, n);
  }

  lemma {:induction false} RunKeeps(s: Dcids, calls: seq<Call>)
    requires Inv(s)
    ensures Inv(Run(s, calls))
    ensures s.largestRetire <= Run(s, calls).largestRetire
    decreases |calls|
  {
    hide Inv, Apply;
    if calls != [] {
      CallKeeps(s, calls[0]);
      RunKeeps(Apply(s, calls[0]), calls[1..]);
    }
  }

  /** As long as no retirement of a number is announced, it is held as often as it came in. */
  lemma {:induction false} QuietRunConserves(s: Dcids, calls: seq<Call>, n: nat)
    requires Inv(s) && MarkCall(n, false) !in calls
    ensures Held(Run(s, calls), n) == Held(s, n) + Arrivals(s, calls, n)
    decreases |calls|
  {
    hide Inv, Apply, Held, Arrival;
    if calls != [] {
      CallKeeps(s, calls[0]);
      CallConserves(s, calls[0], n);
      QuietRunConserves(Apply(s, calls[0]), calls[1..], n);
    }
  }

  /** The number of calls up to and with the last one that announces a retirement of `n`. */
  function LastAnnounced(calls: seq<Call>, n: nat): (k: nat)
    ensures k <= |calls|
    ensures k > 0 ==> calls[k - 1] == MarkCall(n, false)
    ensures MarkCall(n, false) !in calls[k..]
  {
    if calls == [] then 0
    else if calls[|calls| - 1] == MarkCall(n, false) then |calls|
    else
      var k := LastAnnounced(calls[..|calls| - 1], n);
      assert calls[k..] == calls[..|calls| - 1][k..] + [calls[|calls| - 1]];
      k
  }

  lemma {:induction false} RunSplit(s: Dcids, calls: seq<Call>, k: nat)
    requires k <= |calls|
    ensures Run(s, calls) == Run(Run(s, calls[..k]), calls[k..])
    decreases k
  {
    hide Apply;
    if k == 0 {
      assert calls[0..] == calls;
    } else {
      RunSplit(Apply(s, calls[0]), calls[1..], k - 1);
      assert calls[1..][..k - 1] == calls[..k][1..];
      assert calls[1..][k - 1..] == calls[k..];
    }
  }

  /** What an announced retirement leaves: the number is no longer queued. */
  lemma AnnouncedLeaves(s: Dcids, calls: seq<Call>, n: nat)
    requires calls != [] && calls[|calls| - 1] == MarkCall(n, false)
    ensures Times(Run(s, calls).toRetire, n) == 0
  {
    hide Apply, RemoveAll, Times;
    var k := |calls| - 1;
    var t := Run(s, calls[..k]);
    RunSplit(s, calls, k);
    assert calls[k..] == [calls[k]] && [calls[k]][1..] == [];
    assert Run(t, calls[k..]) == Apply(t, calls[k]);
    MarkEffect(t, n);
    RemoveAllTimes(t.toRetire, n, n);
  }

  lemma MarkEffect(s: Dcids, n: nat)
    ensures Apply(s, MarkCall(n, false)) == s.(toRetire := RemoveAll(s.toRetire, n))
  {
  }

  /**
   Over every run of calls, failed ones included, no number is lost or doubled: it is held as
   often as it came in since its retirement was last announced, and once more if it was in use
   then; and, if none was announced, as often as at the start and since.
   */
  lemma RunConserves(s: Dcids, calls: seq<Call>, n: nat)
    requires Inv(s)
    ensures
      var k := LastAnnounced(calls, n);
      var t := Run(s, calls[..k]);
      && Held(Run(s, calls), n) ==
         (if k == 0 then Held(s, n) else Times(Numbers(t.queue), n)) + Arrivals(t, calls[k..], n)
  {
    hide Inv, Apply, Times, Numbers, Arrivals;
    var k := LastAnnounced(calls, n);
    var t := Run(s, calls[..k]);
    RunKeeps(s, calls[..k]);
    RunSplit(s, calls, k);
    QuietRunConserves(t, calls[k..], n);
    if k > 0 {
      assert calls[..k][|calls[..k]| - 1] == MarkCall(n, false);
      AnnouncedLeaves(s, calls[..k], n);
    }
  }

  /** A retirement of `n` that was queued is announced in the run. */
  predicate Announced(s: Dcids, calls: seq<Call>, n: nat)
    decreases |calls|
  {
    calls != [] &&
    ((calls[0] == MarkCall(n, false) && n in s.toRetire) || Announced(Apply(s, calls[0]), calls[1..], n))
  }

  /**
   On every run, a number that is held at the start is in use or queued for retirement at the
   end, or was queued when its retirement was announced.
   */
  lemma {:induction false} RunAccounts(s: Dcids, calls: seq<Call>, n: nat)
    requires Inv(s) && Held(s, n) >= 1
    ensures Held(Run(s, calls), n) >= 1 || Announced(s, calls, n)
    decreases |calls|
  {
    hide Inv, Apply, Times, Numbers, Arrival;
    if calls != [] {
      CallKeeps(s, calls[0]);
      CallConserves(s, calls[0], n);
      TimesPositive(s.toRetire, n);
      if Held(Apply(s, calls[0]), n) >= 1 {
        RunAccounts(Apply(s, calls[0]), calls[1..], n);
      }
    }
  }

  /** The same for a number that is held at any moment of the run. */
  lemma OnceHeldAccounted(s: Dcids, calls: seq<Call>, k: nat, n: nat)
    requires Inv(s) && k <= |calls| && Held(Run(s, calls[..k]), n) >= 1
    ensures Held(Run(s, calls), n) >= 1 || Announced(Run(s, calls[..k]), calls[k..], n)
  {
    hide Inv, Run, Held, Announced;
    RunKeeps(s, calls[..k]);
    RunSplit(s, calls, k);
    RunAccounts(Run(s, calls[..k]), calls[k..], n);
  }

  /** The ids in use stay above the threshold throughout a run if and only if no call slips below. */
  lemma {:induction false} RunAboveIff(s: Dcids, calls: seq<Call>)
    requires Inv(s) && AboveThreshold(s)
    ensures AboveThroughout(s, calls) <==> NeverSlips(s, calls)
    decreases |calls|
  {
    hide Inv, Apply, AboveThreshold, Slips;
    if calls != [] {
      CallKeeps(s, calls[0]);
      if !Slips(s, calls[0]) {
        RunAboveIff(Apply(s, calls[0]), calls[1..]);
      }
    }
  }

  lemma SelectOne(item: Item, n: nat)
    ensures Select([item], n, item.seqNum < n) == [item] && Select([item], n, item.seqNum >= n) == []
    ensures Numbers([item]) == [item.seqNum]
  {
    assert [item][..0] == [];
  }

  lemma TimesOne(x: nat, n: nat)
    ensures Times([x], n) == (if x == n then 1 else 0) && Times([], n) == 0
  {
    assert [x][..0] == [];
  }

  lemma InitKeeps(limit: nat, cid: Cid, token: Option<nat>, pathId: Option<nat>, n: nat)
    requires 1 <= limit
    ensures Inv(Init(limit, cid, token, pathId)) && AboveThreshold(Init(limit, cid, token, pathId))
    ensures Held(Init(limit, cid, token, pathId), n) == if n == 0 then 1 else 0
  {
    hide Times, Numbers, Select;
    SelectOne(Item(cid, 0, token, pathId), 0);
    TimesOne(0, n);
  }

  /** A peer that began with a zero-length id may offer no other; any other peer may offer a second. */
  lemma FirstOffer(limit: nat, cid: Cid, token: Option<nat>, pathId: Option<nat>, other: Cid, otherToken: nat)
    requires 2 <= limit && other != cid
    ensures
      var (t, r) := Add(Init(limit, cid, token, pathId), other, 1, otherToken, 0);
      if cid == [] then r == Err(ProtocolViolation)
      else
        && r == Ok([])
        && t.queue == [Item(cid, 0, token, pathId), Item(other, 1, Some(otherToken), None)]
  {
  }

  /**
   The run theorems from the first id on: a number is held as often as it came in, the first one
   once more, and one held at any moment `k` is accounted for at the end.
   */
  lemma RunFromStart(limit: nat, cid: Cid, token: Option<nat>, pathId: Option<nat>, calls: seq<Call>, k: nat, n: nat)
    requires 1 <= limit && k <= |calls|
    ensures
      var s := Init(limit, cid, token, pathId);
      && Inv(Run(s, calls))
      && (MarkCall(n, false) !in calls ==>
            Held(Run(s, calls), n) == (if n == 0 then 1 else 0) + Arrivals(s, calls, n))
      && (Held(Run(s, calls[..k]), n) >= 1 ==>
            Held(Run(s, calls), n) >= 1 || Announced(Run(s, calls[..k]), calls[k..], n))
      && (AboveThroughout(s, calls) <==> NeverSlips(s, calls))
  {
    hide Inv, Held, Init, AboveThreshold, Run, Announced;
    var s := Init(limit, cid, token, pathId);
    InitKeeps(limit, cid, token, pathId, n);
    RunKeeps(s, calls);
    RunAboveIff(s, calls);
    if MarkCall(n, false) !in calls {
      QuietRunConserves(s, calls, n);
    }
    if Held(Run(s, calls[..k]), n) >= 1 {
      OnceHeldAccounted(s, calls, k, n);
    }
  }

  /** A run in which a retired number comes back into use while its retirement is still pending. */
  lemma RetiredNumberComesBack(cids: seq<Cid>, token: nat)
    requires |cids| == 3 && cids[0] != [] && cids[0] != cids[1] && cids[1] != cids[2]
    ensures
      var s := Init(2, cids[0], None, None);
      var t := Run(s, [AddCall(cids[1], 1, token, 1), AddCall(cids[2], 0, token, 0)]);
      && Inv(s) && AboveThreshold(s)
      && Numbers(t.queue) == [1, 0] && t.toRetire == [0] && t.largestRetire == 1
  {
    hide Held, Times, FindEither, OnPaths, Select, Numbers;
    var s := Init(2, cids[0], None, None);
    var first, second := AddCall(cids[1], 1, token, 1), AddCall(cids[2], 0, token, 0);
    SelectOne(s.queue[0], 1);
    var t := Dcids([Item(cids[1], 1, Some(token), None)], 2, false, 1, [0]);
    assert FindEither(s.queue, cids[1], 1) == 1;
    assert Apply(s, first) == t;
    assert FindEither(t.queue, cids[2], 0) == 1;
    var item := Item(cids[2], 0, Some(token), None);
    assert Apply(t, second) == t.(queue := t.queue + [item]);
    SelectOne(t.queue[0], 0);
    NumbersAppend(t.queue, item);
    assert [first, second][1..] == [second];
    assert Run(s, [first, second]) == Run(t, [second]) == Apply(t, second);
  }
}
