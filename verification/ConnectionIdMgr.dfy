/** The manager of a connection's ids in its own form, src/connection/cid.rs: fields updated call by call. */
module ConnectionIds {
  import opened CidDeque
  import opened Options
  import D = DestinationIds
  import S = SourceIds

  method FindNumber(queue: seq<Item>, n: nat) returns (i: nat)
    ensures i == Find(queue, n)
    ensures i <= |queue| && (forall j :: 0 <= j < i ==> queue[j].seqNum != n) && (i < |queue| ==> queue[i].seqNum == n)
  {
    i := 0;
    while i < |queue| && queue[i].seqNum != n
      invariant i <= |queue|
      invariant forall j :: 0 <= j < i ==> queue[j].seqNum != n
    {
      i := i + 1;
    }
  }

  method RetainOthers(s: seq<nat>, n: nat) returns (kept: seq<nat>)
    ensures kept == RemoveAll(s, n)
  {
    kept := [];
    for i := 0 to |s|
      invariant kept == RemoveAll(s[..i], n)
    {
      assert s[..i + 1][..i] == s[..i];
      if s[i] != n {
        kept := kept + [s[i]];
      }
    }
    assert s[..|s|] == s;
  }

  lemma SelectNone(n: nat)
    ensures Select([], n, true) == Select([], n, false) == [] && OnPaths([]) == [] && Numbers([]) == []
  {
  }

  lemma SelectNext(queue: seq<Item>, i: nat, n: nat)
    requires i < |queue|
    ensures
      var e, lower, kept := queue[i], Select(queue[..i], n, true), Select(queue[..i], n, false);
      && Select(queue[..i + 1], n, true) == (if e.seqNum < n then lower + [e] else lower)
      && Select(queue[..i + 1], n, false) == (if e.seqNum < n then kept else kept + [e])
      && Numbers(lower + [e]) == Numbers(lower) + [e.seqNum]
      && OnPaths(lower + [e]) ==
         (if e.pathId.Some? then OnPaths(lower) + [(e.seqNum, e.pathId.value)] else OnPaths(lower))
  {
    var e, lower := queue[i], Select(queue[..i], n, true);
    assert queue[..i + 1][..i] == queue[..i];
    assert (lower + [e])[..|lower|] == lower;
  }

  class ConnectionIdMgr {
    var dcids: seq<Item>
    var scids: seq<Item>
    const dcidCapacity: nat
    var scidCapacity: nat
    const dcidLimit: nat
    var scidLimit: nat
    var zeroLengthScid: bool
    var zeroLengthDcid: bool
    var nextScidSeq: nat
    var retirePriorTo: nat
    var scidsToAdvertise: seq<nat>
    var largestPeerRetirePriorTo: nat
    var dcidsToRetire: seq<nat>

    ghost predicate Valid() {
      1 <= dcidLimit && dcidCapacity == 2 * dcidLimit - 1
    }

    ghost function Sources(): S.Scids
      reads this
    {
      S.Scids(scids, scidCapacity, scidLimit, zeroLengthScid, nextScidSeq, retirePriorTo, scidsToAdvertise)
    }

    ghost function Destinations(): D.Dcids
      reads this
    {
      D.Dcids(dcids, dcidLimit, zeroLengthDcid, largestPeerRetirePriorTo, dcidsToRetire)
    }

    constructor (dcidLimit: nat, initialScid: Cid, initialPathId: nat, resetToken: Option<nat>)
      requires 1 <= dcidLimit
      ensures Valid() && this.dcidLimit == dcidLimit
      ensures Sources() == S.Init(initialScid, initialPathId, resetToken)
      ensures Destinations() == D.Dcids([], dcidLimit, false, 0, [])
    {
      scidLimit, scidCapacity := 2, 3;
      scids := [Item(initialScid, 0, resetToken, Some(initialPathId))];
      dcids, dcidCapacity := [], 2 * dcidLimit - 1;
      this.dcidLimit := dcidLimit;
      zeroLengthScid, zeroLengthDcid := initialScid == [], false;
      nextScidSeq, retirePriorTo, scidsToAdvertise := 1, 0, [];
      largestPeerRetirePriorTo, dcidsToRetire := 0, [];
    }

    // ----- Ids issued to the peer

    method SetScidLimit(limit: nat)
      requires Valid()
      modifies this
      ensures Valid() && Destinations() == old(Destinations())
      ensures Sources() == S.SetLimit(old(Sources()), limit)
    {
      var capped := if limit < S.MAX_CIDS_COUNT then limit else S.MAX_CIDS_COUNT;
      scidLimit := if capped > 2 then capped else 2;
      if 2 * scidLimit - 1 > scidCapacity {
        scidCapacity := 2 * scidLimit - 1;
      }
    }

    method LowestActiveScidSeq() returns (lowest: Option<nat>)
      ensures lowest == S.LowestActive(scids, retirePriorTo)
      ensures lowest == None <==> forall i :: 0 <= i < |scids| ==> scids[i].seqNum < retirePriorTo
      ensures
        lowest.Some? ==>
          forall i :: 0 <= i < |scids| && scids[i].seqNum >= retirePriorTo ==> lowest.value <= scids[i].seqNum
    {
      lowest := None;
      for i := 0 to |scids|
        invariant lowest == S.LowestActive(scids[..i], retirePriorTo)
      {
        assert scids[..i + 1][..i] == scids[..i];
        if scids[i].seqNum >= retirePriorTo && (lowest == None || scids[i].seqNum < lowest.value) {
          lowest := Some(scids[i].seqNum);
        }
      }
      assert scids[..|scids|] == scids;
      S.LowestActiveMeans(scids, retirePriorTo);
    }

    method MarkScidToAdvertise(n: nat, advertise: bool)
      requires Valid()
      modifies this`scidsToAdvertise
      ensures Sources() == S.MarkToAdvertise(old(Sources()), n, advertise)
      ensures Destinations() == old(Destinations())
    {
      if advertise {
        scidsToAdvertise := scidsToAdvertise + [n];
      } else {
        scidsToAdvertise := RetainOthers(scidsToAdvertise, n);
      }
    }

    method AddScid(cid: Cid, token: Option<nat>, advertise: bool, pathId: Option<nat>, retireIfNeeded: bool)
      returns (r: Result<nat>)
      requires Valid()
      modifies this
      ensures Valid() && Destinations() == old(Destinations())
      ensures (Sources(), r) == S.Add(old(Sources()), cid, token, advertise, pathId, retireIfNeeded)
    {
      hide S.LowestActive, RemoveAll;
      if zeroLengthScid {
        return Err(InternalError);
      }
      if |scids| >= scidLimit {
        if !retireIfNeeded {
          return Err(ConnectionIdLimitError);
        }
        var lowest := LowestActiveScidSeq();
        if lowest == None {
          return Err(InternalError);
        }
        retirePriorTo := lowest.value + 1;
      }
      var n := nextScidSeq;
      if n != 0 && token == None {
        return Err(InternalError);
      }
      if |scids| == scidCapacity {
        return Err(ConnectionIdLimitError);
      }
      scids := scids + [Item(cid, n, token, pathId)];
      nextScidSeq := nextScidSeq + 1;
      MarkScidToAdvertise(n, advertise);
      r := Ok(n);
    }

    method RetireScid(n: nat, pktDcid: Cid) returns (r: Result<Option<nat>>)
      requires Valid()
      modifies this
      ensures Valid() && Destinations() == old(Destinations())
      ensures (Sources(), r) == S.Retire(old(Sources()), n, pktDcid)
    {
      hide S.LowestActive;
      if n >= nextScidSeq {
        return Err(ProtocolViolation);
      }
      var i := FindNumber(scids, n);
      if scids == [] || (|scids| == 1 && i < |scids|) {
        return Err(InternalError);
      }
      if i == |scids| {
        return Ok(None);
      }
      var e := scids[i];
      scids := Without(scids, i);
      if e.cid == pktDcid {
        return Err(ProtocolViolation);
      }
      var lowest := LowestActiveScidSeq();
      if lowest == None {
        return Err(InternalError);
      }
      retirePriorTo := lowest.value;
      r := Ok(e.pathId);
    }

    // ----- Ids issued by the peer

    method SetInitialDcid(cid: Cid, token: Option<nat>, pathId: Option<nat>)
      requires Valid()
      modifies this
      ensures Valid() && Sources() == old(Sources())
      ensures
        var start := D.Init(dcidLimit, cid, token, pathId);
        Destinations() == start.(largestRetire := old(largestPeerRetirePriorTo), toRetire := old(dcidsToRetire))
    {
      zeroLengthDcid := cid == [];
      dcids := [Item(cid, 0, token, pathId)];
    }

    method FindDcid(cid: Cid, n: nat) returns (i: nat)
      ensures i == D.FindEither(dcids, cid, n)
      ensures i <= |dcids| && forall j :: 0 <= j < i ==> dcids[j].cid != cid && dcids[j].seqNum != n
    {
      i := 0;
      while i < |dcids| && dcids[i].cid != cid && dcids[i].seqNum != n
        invariant i <= |dcids|
        invariant forall j :: 0 <= j < i ==> dcids[j].cid != cid && dcids[j].seqNum != n
      {
        i := i + 1;
      }
    }

    /** Takes the ids numbered below `n` out of use, and reports those in use on a path. */
    method RemoveLower(n: nat) returns (retired: D.Retired)
      requires Valid()
      modifies this`dcids, this`dcidsToRetire
      ensures retired == OnPaths(Select(old(dcids), n, true))
      ensures dcids == Select(old(dcids), n, false)
      ensures dcidsToRetire == old(dcidsToRetire) + Numbers(Select(old(dcids), n, true))
    {
      hide Select, Numbers, OnPaths;
      var queue, kept := dcids, [];
      SelectNone(n);
      retired := [];
      for i := 0 to |queue|
        invariant kept == Select(queue[..i], n, false)
        invariant retired == OnPaths(Select(queue[..i], n, true))
        invariant dcidsToRetire == old(dcidsToRetire) + Numbers(Select(queue[..i], n, true))
        invariant dcids == old(dcids)
      {
        SelectNext(queue, i, n);
        var e := queue[i];
        if e.seqNum < n {
          dcidsToRetire := dcidsToRetire + [e.seqNum];
          if e.pathId.Some? {
            retired := retired + [(e.seqNum, e.pathId.value)];
          }
        } else {
          kept := kept + [e];
        }
      }
      assert queue[..|queue|] == queue;
      dcids := kept;
    }

    method AddDcid(cid: Cid, n: nat, token: nat, retirePriorTo: nat) returns (r: Result<D.Retired>)
      requires Valid()
      modifies this
      ensures Valid() && Sources() == old(Sources())
      ensures (Destinations(), r) == D.Add(old(Destinations()), cid, n, token, retirePriorTo)
    {
      hide Select, Numbers, OnPaths, D.FindEither;
      if zeroLengthDcid {
        return Err(ProtocolViolation);
      }
      var i := FindDcid(cid, n);
      if i < |dcids| {
        var e := dcids[i];
        if e.cid != cid || e.seqNum != n || e.resetToken != Some(token) {
          return Err(ProtocolViolation);
        }
        return Ok([]);
      }
      if retirePriorTo > n {
        return Err(ProtocolViolation);
      }
      if n < largestPeerRetirePriorTo && n !in dcidsToRetire {
        dcidsToRetire := dcidsToRetire + [n];
        if |dcidsToRetire| > dcidLimit * 4 {
          return Err(ProtocolViolation);
        }
        return Ok([]);
      }
      var retired := [];
      if retirePriorTo > largestPeerRetirePriorTo {
        retired := RemoveLower(retirePriorTo);
        largestPeerRetirePriorTo := retirePriorTo;
        if |dcidsToRetire| > dcidLimit * 4 {
          return Err(ProtocolViolation);
        }
      }
      if |dcids| == dcidCapacity {
        return Err(ConnectionIdLimitError);
      }
      dcids := dcids + [Item(cid, n, Some(token), None)];
      r := Ok(retired);
    }

    method MarkDcidToRetire(n: nat, retire: bool)
      requires Valid()
      modifies this`dcidsToRetire
      ensures Destinations() == D.MarkToRetire(old(Destinations()), n, retire)
      ensures Sources() == old(Sources())
    {
      if retire {
        dcidsToRetire := dcidsToRetire + [n];
      } else {
        dcidsToRetire := RetainOthers(dcidsToRetire, n);
      }
    }

    method MarkDcidUsed(n: nat, pathId: nat) returns (found: bool)
      requires Valid()
      modifies this`dcids
      ensures Destinations() == D.MarkUsed(old(Destinations()), n, pathId)
      ensures Sources() == old(Sources())
      ensures found <==> exists i :: 0 <= i < |dcids| && dcids[i].seqNum == n
    {
      var i := FindNumber(dcids, n);
      found := i < |dcids|;
      if found {
        dcids := dcids[i := dcids[i].(pathId := Some(pathId))];
        assert dcids[i].seqNum == n;
      }
    }
  }
}
