/** The connection ids of one direction, kept in arrival order: ConnectionIdDeque of src/connection/cid.rs. */
module CidDeque {
  import opened Options

  type Cid = seq<nat>

  datatype Item = Item(cid: Cid, seqNum: nat, resetToken: Option<nat>, pathId: Option<nat>)

  datatype Error = ConnectionIdLimitError | InternalError | ProtocolViolation

  datatype Result<T> = Ok(value: T) | Err(error: Error)

  /** The position of the item with the given sequence number, or the length if there is none. */
  function Find(queue: seq<Item>, n: nat): (i: nat)
    ensures i <= |queue|
    ensures i < |queue| ==> queue[i].seqNum == n
    ensures forall j :: 0 <= j < i ==> queue[j].seqNum != n
  {
    if queue == [] || queue[0].seqNum == n then 0 else 1 + Find(queue[1..], n)
  }

  function Without<T>(s: seq<T>, i: nat): seq<T>
    requires i < |s|
  {
    s[..i] + s[i + 1..]
  }

  function RemoveAll(s: seq<nat>, n: nat): seq<nat> {
    if s == [] then []
    else
      var rest := RemoveAll(s[..|s| - 1], n);
      if s[|s| - 1] == n then rest else rest + [s[|s| - 1]]
  }

  function Numbers(queue: seq<Item>): seq<nat> {
    if queue == [] then [] else Numbers(queue[..|queue| - 1]) + [queue[|queue| - 1].seqNum]
  }

  /** The items numbered from `n` on, or those before `n`, in order. */
  function Select(queue: seq<Item>, n: nat, lower: bool): seq<Item> {
    if queue == [] then []
    else
      var rest, last := Select(queue[..|queue| - 1], n, lower), queue[|queue| - 1];
      if (last.seqNum < n) == lower then rest + [last] else rest
  }

  /** The items in use on a path, with their path. */
  function OnPaths(queue: seq<Item>): seq<(nat, nat)> {
    if queue == [] then []
    else
      var rest, last := OnPaths(queue[..|queue| - 1]), queue[|queue| - 1];
      if last.pathId.Some? then rest + [(last.seqNum, last.pathId.value)] else rest
  }

  // ----- How often a number is listed

  function Times(s: seq<nat>, n: nat): nat {
    if s == [] then 0 else Times(s[..|s| - 1], n) + if s[|s| - 1] == n then 1 else 0
  }

  lemma TimesAppend(s: seq<nat>, x: nat, n: nat)
    ensures Times(s + [x], n) == Times(s, n) + if x == n then 1 else 0
  {
    assert (s + [x])[..|s|] == s;
  }

  lemma {:induction false} RemoveAllTimes(s: seq<nat>, x: nat, n: nat)
    ensures Times(RemoveAll(s, x), n) == if x == n then 0 else Times(s, n)
    decreases |s|
  {
    if s != [] {
      RemoveAllTimes(s[..|s| - 1], x, n);
      TimesAppend(RemoveAll(s[..|s| - 1], x), s[|s| - 1], n);
    }
  }

  lemma {:induction false} TimesPositive(s: seq<nat>, n: nat)
    ensures Times(s, n) > 0 <==> n in s
    decreases |s|
  {
    if s != [] {
      TimesPositive(s[..|s| - 1], n);
      assert s == s[..|s| - 1] + [s[|s| - 1]];
    }
  }
}
