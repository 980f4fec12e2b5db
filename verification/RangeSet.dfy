/**
 Sets of 64-bit numbers kept as sorted, disjoint, half-open ranges: src/ranges.rs.

 The ordered map from range starts to range ends is a `map`; `Elements` is the set it stands
 for. A map in normal form is the only normal form of its set (`NormalFormIsCanonical`), so a
 method that keeps the normal form and states its elements is determined completely.
 */
module Ranges {
  import opened Options

  datatype Range = Range(start: nat, end: nat) {
    predicate Contains(x: nat) {
      start <= x < end
    }
  }

  /** Range ends by range start. */
  type RangeMap = map<nat, nat>

  // ----- What a range map stands for

  ghost predicate Has(m: RangeMap, x: nat) {
    exists s :: s in m && s <= x < m[s]
  }

  ghost function Elements(m: RangeMap): iset<nat> {
    iset x: nat | Has(m, x)
  }

  ghost function Interval(lo: nat, hi: nat): iset<nat> {
    iset x: nat | Within(x, lo, hi)
  }

  ghost predicate Within(x: nat, lo: nat, hi: nat) {
    lo <= x < hi
  }

  /** Ranges are non-empty, disjoint and never adjacent. */
  ghost predicate Normal(m: RangeMap) {
    && (forall s {:trigger m[s]} :: s in m ==> s < m[s])
    && (forall s, t {:trigger m[s], m[t]} :: s in m && t in m && s < t ==> m[s] < t)
  }

  /** In a normal form the starts are the elements whose predecessor is missing. */
  lemma StartsAreElements(m: RangeMap, s: nat)
    requires Normal(m)
    ensures s in m <==> Has(m, s) && (s == 0 || !Has(m, s - 1))
  {
  }

  /** In a normal form a range runs up to the first missing number. */
  lemma EndsAreMissing(m: RangeMap, s: nat)
    requires Normal(m) && s in m
    ensures !Has(m, m[s])
    ensures forall x :: s <= x < m[s] ==> Has(m, x)
  {
  }

  /** Two normal forms of the same set are the same map. */
  lemma NormalFormIsCanonical(m: RangeMap, n: RangeMap)
    requires Normal(m) && Normal(n)
    requires Elements(m) == Elements(n)
    ensures m == n
  {
    assert forall x: nat :: Has(m, x) <==> x in Elements(m);
    assert forall x: nat :: Has(n, x) <==> x in Elements(n);
    forall s: nat
      ensures s in m <==> s in n
    {
      StartsAreElements(m, s);
      StartsAreElements(n, s);
    }
    forall s | s in m
      ensures m[s] == n[s]
    {
      EndsAreMissing(m, s);
      EndsAreMissing(n, s);
    }
  }

  // ----- Lookups

  lemma {:induction false} LargestExists(keys: set<nat>) returns (k: nat)
    requires keys != {}
    ensures k in keys && forall t :: t in keys ==> t <= k
    decreases keys
  {
    k :| k in keys;
    var rest := keys - {k};
    assert forall t :: t in keys ==> t in rest || t == k;
    if rest != {} {
      var top := LargestExists(rest);
      k := if k > top then k else top;
    }
  }

  lemma {:induction false} SmallestExists(keys: set<nat>) returns (k: nat)
    requires keys != {}
    ensures k in keys && forall t :: t in keys ==> k <= t
    decreases keys
  {
    k :| k in keys;
    var rest := keys - {k};
    assert forall t :: t in keys ==> t in rest || t == k;
    if rest != {} {
      var bottom := SmallestExists(rest);
      k := if k < bottom then k else bottom;
    }
  }

  function Largest(keys: set<nat>): (k: nat)
    requires keys != {}
    ensures k in keys && forall t :: t in keys ==> t <= k
  {
    assert exists k :: k in keys && forall t :: t in keys ==> t <= k by {
      var top := LargestExists(keys);
    }
    var k :| k in keys && forall t :: t in keys ==> t <= k;
    k
  }

  function Smallest(keys: set<nat>): (k: nat)
    requires keys != {}
    ensures k in keys && forall t :: t in keys ==> k <= t
  {
    assert exists k :: k in keys && forall t :: t in keys ==> k <= t by {
      var bottom := SmallestExists(keys);
    }
    var k :| k in keys && forall t :: t in keys ==> k <= t;
    k
  }

  /** The closest range that begins at or before `x`. */
  function PrevTo(m: RangeMap, x: nat): (r: Option<Range>)
    ensures r == None ==> forall s :: s in m ==> x < s
    ensures r.Some? ==>
      && r.value.start in m
      && r.value.start <= x
      && r.value.end == m[r.value.start]
      && forall s :: s in m && s <= x ==> s <= r.value.start
  {
    var below := set s | s in m && s <= x;
    assert forall s :: s in m && s <= x ==> s in below;
    if below == {} then
      None
    else
      var s := Largest(below);
      Some(Range(s, m[s]))
  }

  /** The closest range that begins at or after `x`. */
  function NextTo(m: RangeMap, x: nat): (r: Option<Range>)
    ensures r == None ==> forall s :: s in m ==> s < x
    ensures r.Some? ==>
      && r.value.start in m
      && x <= r.value.start
      && r.value.end == m[r.value.start]
      && forall s :: s in m && x <= s ==> r.value.start <= s
  {
    var above := set s | s in m && x <= s;
    assert forall s :: s in m && x <= s ==> s in above;
    if above == {} then
      None
    else
      var s := Smallest(above);
      Some(Range(s, m[s]))
  }

  /** The closest range that begins after `x`. */
  function NextAfter(m: RangeMap, x: nat): (r: Option<Range>)
    ensures r == None ==> forall s :: s in m ==> s <= x
    ensures r.Some? ==>
      && r.value.start in m
      && x < r.value.start
      && r.value.end == m[r.value.start]
      && forall s :: s in m && x < s ==> r.value.start <= s
  {
    NextTo(m, x + 1)
  }

  // ----- What an insertion merges and drops

  /** The ranges that neither overlap nor touch [lo, hi). */
  function Untouched(m: RangeMap, lo: nat, hi: nat): RangeMap {
    map s | s in m && (m[s] < lo || hi < s) :: m[s]
  }

  /** [lo, hi) lies inside one existing range. */
  predicate Covered(m: RangeMap, lo: nat, hi: nat) {
    exists s :: s in m && s <= lo && hi <= m[s]
  }

  /** The range that an insertion into a full set gives up. */
  function Dropped(m: RangeMap, capacity: nat, lo: nat, hi: nat): Option<Range> {
    var rest := Untouched(m, lo, hi);
    if lo >= hi || Covered(m, lo, hi) || |rest| < capacity || rest == map[] then
      None
    else
      var s := Smallest(rest.Keys);
      Some(Range(s, rest[s]))
  }

  ghost function Members(r: Option<Range>): iset<nat> {
    match r
    case None => iset{}
    case Some(range) => Interval(range.start, range.end)
  }

  lemma SubmapNormal(m: RangeMap, n: RangeMap)
    requires Normal(m)
    requires forall s :: s in n ==> s in m && n[s] == m[s]
    ensures Normal(n)
  {
  }

  lemma RemoveOne(m: RangeMap, s: nat)
    requires Normal(m) && s in m
    ensures Normal(m - {s})
    ensures Elements(m - {s}) == Elements(m) - Interval(s, m[s])
    ensures Interval(s, m[s]) <= Elements(m)
    ensures |m - {s}| == |m| - 1
  {
    var n := m - {s};
    SubmapNormal(m, n);
    forall x: nat | Has(m, x) && !Within(x, s, m[s])
      ensures Has(n, x)
    {
      var t :| t in m && t <= x < m[t];
      assert t in n;
    }
    assert n.Keys == m.Keys - {s};
  }

  /** A range that touches no other keeps the normal form. */
  lemma AddOneNormal(m: RangeMap, lo: nat, hi: nat)
    requires Normal(m) && lo < hi
    requires forall s :: s in m ==> m[s] < lo || hi < s
    ensures lo !in m && Normal(m[lo := hi])
  {
    assert lo !in m;
  }

  lemma AddOne(m: RangeMap, lo: nat, hi: nat)
    requires Normal(m) && lo < hi
    requires forall s :: s in m ==> m[s] < lo || hi < s
    ensures Normal(m[lo := hi])
    ensures Elements(m[lo := hi]) == Elements(m) + Interval(lo, hi)
    ensures |m[lo := hi]| == |m| + 1
  {
    AddOneNormal(m, lo, hi);
    AddOneElements(m, lo, hi);
  }

  lemma AddOneElements(m: RangeMap, lo: nat, hi: nat)
    requires lo !in m
    ensures Elements(m[lo := hi]) == Elements(m) + Interval(lo, hi)
    ensures |m[lo := hi]| == |m| + 1
  {
    hide Has;
    assert m[lo := hi].Keys == m.Keys + {lo};
    forall x: nat
      ensures Has(m[lo := hi], x) <==> Has(m, x) || Within(x, lo, hi)
    {
      AddOneMember(m, lo, hi, x);
    }
  }

  lemma AddOneMember(m: RangeMap, lo: nat, hi: nat, x: nat)
    requires lo !in m
    ensures Has(m[lo := hi], x) <==> Has(m, x) || Within(x, lo, hi)
  {
    var n := m[lo := hi];
    if Has(m, x) {
      var t :| t in m && t <= x < m[t];
      assert t in n;
    }
    if Within(x, lo, hi) {
      assert lo in n;
    }
  }

  lemma IntervalUnion(a: nat, b: nat, c: nat, d: nat)
    requires a <= c <= b && c <= d
    ensures Interval(a, b) + Interval(c, d) == Interval(a, if d > b then d else b)
  {
  }

  lemma Absorb(rest: iset<nat>, part: iset<nat>, grown: iset<nat>, all: iset<nat>)
    requires part <= rest && rest + grown == all
    ensures (rest - part) + (grown + part) == all
  {
  }

  /**
   Half-way through an insertion of [lo, hi) into `m`: the ranges in `rest` are still in the
   map and [start, end) has swallowed the others.
   */
  ghost predicate Merging(m: RangeMap, rest: RangeMap, lo: nat, hi: nat, start: nat, end: nat) {
    && Normal(rest)
    && start <= lo < hi <= end
    && (forall s :: s in rest ==> s in m && rest[s] == m[s] && (m[s] < start || lo < s))
    && (forall s :: s in m && s !in rest ==> lo <= m[s] && s <= hi)
    && (end == hi || forall s :: s in rest && lo < s ==> end < s)
  }

  /** An insertion starts by looking at the closest range that begins at or before `lo`. */
  lemma MergePrevious(m: RangeMap, lo: nat, hi: nat)
    requires Normal(m) && lo < hi
    ensures Covered(m, lo, hi) <==> PrevTo(m, lo).Some? && PrevTo(m, lo).value.end >= hi
    ensures PrevTo(m, lo).Some? && lo <= PrevTo(m, lo).value.end < hi ==>
      var start := PrevTo(m, lo).value.start;
      Merging(m, m - {start}, lo, hi, start, hi) && Normal(m - {start})
    ensures (PrevTo(m, lo).Some? ==> PrevTo(m, lo).value.end < lo) ==> Merging(m, m, lo, hi, lo, hi)
  {
    if PrevTo(m, lo).Some? {
      var r := PrevTo(m, lo).value;
      SubmapNormal(m, m - {r.start});
      forall s | s in m && s <= lo
        ensures s == r.start || m[s] < r.start
      {
      }
    }
  }

  lemma MergePreviousElements(m: RangeMap, lo: nat, hi: nat, r: Range)
    requires Normal(m) && r.start in m && r.end == m[r.start]
    requires r.start <= lo <= r.end < hi
    ensures Elements(m - {r.start}) + Interval(r.start, hi) == Elements(m) + Interval(lo, hi)
  {
    RemoveOne(m, r.start);
    IntervalUnion(r.start, r.end, lo, hi);
    Absorb(Elements(m), Interval(r.start, r.end), Interval(lo, hi), Elements(m) + Interval(lo, hi));
    assert Interval(lo, hi) + Interval(r.start, r.end) == Interval(r.start, hi);
  }

  /** The elements after an insertion: the union, less the range that is given up. */
  ghost function AfterInsert(m: RangeMap, capacity: nat, lo: nat, hi: nat): iset<nat> {
    Elements(m) + Interval(lo, hi) - Members(Dropped(m, capacity, lo, hi))
  }

  lemma NothingToInsert(m: RangeMap, capacity: nat, lo: nat, hi: nat)
    requires lo >= hi || Covered(m, lo, hi)
    ensures AfterInsert(m, capacity, lo, hi) == Elements(m)
  {
    forall x | x in Interval(lo, hi)
      ensures x in Elements(m)
    {
      assert Within(x, lo, hi);
    }
  }

  /** The ranges after the next one begin after its end. */
  lemma FollowingLater(rest: RangeMap, start: nat, lo: nat, r: Range)
    requires Normal(rest) && start <= lo && NextTo(rest, start) == Some(r)
    requires forall s :: s in rest ==> rest[s] < start || lo < s
    ensures forall s :: s in rest - {r.start} && lo < s ==> r.end < s
  {
    hide NextTo;
    forall s | s in rest - {r.start} && lo < s
      ensures r.end < s
    {
      assert s in rest && r.start < s && rest[r.start] == r.end;
    }
  }

  lemma MergeFollowing(m: RangeMap, rest: RangeMap, lo: nat, hi: nat, start: nat, end: nat, r: Range)
    requires Normal(m) && Merging(m, rest, lo, hi, start, end)
    requires NextTo(rest, start) == Some(r) && r.start <= end
    ensures Merging(m, rest - {r.start}, lo, hi, start, if r.end > end then r.end else end)
    ensures Normal(rest - {r.start})
  {
    hide NextTo, Normal;
    SubmapNormal(rest, rest - {r.start});
    FollowingLater(rest, start, lo, r);
    NextIsAfter(m, rest, lo, start, r);
    assert r.start <= hi;
  }

  lemma NextIsAfter(m: RangeMap, rest: RangeMap, lo: nat, start: nat, r: Range)
    requires Normal(rest) && start <= lo && NextTo(rest, start) == Some(r)
    requires forall s :: s in rest ==> rest[s] < start || lo < s
    ensures lo < r.start < r.end
  {
    hide NextTo;
    assert r.start in rest && rest[r.start] == r.end;
  }

  lemma MergeFollowingElements(rest: RangeMap, start: nat, end: nat, r: Range, all: iset<nat>)
    requires Normal(rest) && Elements(rest) + Interval(start, end) == all
    requires NextTo(rest, start) == Some(r) && r.start <= end
    ensures Elements(rest - {r.start}) + Interval(start, if r.end > end then r.end else end) == all
    ensures |rest - {r.start}| < |rest|
  {
    hide Elements;
    RemoveOne(rest, r.start);
    IntervalUnion(start, end, r.start, r.end);
    Absorb(Elements(rest), Interval(r.start, r.end), Interval(start, end), all);
  }

  lemma MergeDone(m: RangeMap, rest: RangeMap, lo: nat, hi: nat, start: nat, end: nat)
    requires Merging(m, rest, lo, hi, start, end)
    requires NextTo(rest, start).Some? ==> end < NextTo(rest, start).value.start
    ensures forall s :: s in rest && lo < s ==> end < s
    ensures rest == Untouched(m, lo, hi)
    ensures |rest| <= |m|
  {
    hide NextTo, Normal;
    assert forall s :: s in rest && lo < s ==> end < s;
    assert forall s :: s in rest ==> s in Untouched(m, lo, hi);
    assert forall s :: s in Untouched(m, lo, hi) ==> s in rest;
    assert rest.Keys == Untouched(m, lo, hi).Keys;
    SubsetSize(rest.Keys, m.Keys);
  }

  lemma SubsetSize(a: set<nat>, b: set<nat>)
    requires a <= b
    ensures |a| <= |b|
  {
    assert b == a + (b - a);
  }

  /** What remains of a full map. */
  function Evict(m: RangeMap, capacity: nat): RangeMap {
    if |m| >= capacity && m != map[] then m - {Smallest(m.Keys)} else m
  }

  lemma EvictElements(m: RangeMap, capacity: nat)
    requires Normal(m)
    ensures Normal(Evict(m, capacity))
    ensures forall s :: s in Evict(m, capacity) ==> s in m && Evict(m, capacity)[s] == m[s]
    ensures |Evict(m, capacity)| <= |m|
    ensures 1 <= capacity && |m| <= capacity ==> |Evict(m, capacity)| < capacity
    ensures |m| >= capacity && m != map[] ==>
              Elements(Evict(m, capacity)) == Elements(m) - Interval(Smallest(m.Keys), m[Smallest(m.Keys)])
  {
    if |m| >= capacity && m != map[] {
      RemoveOne(m, Smallest(m.Keys));
    }
  }

  /** The range that an insertion gives up, and what it means for the elements. */
  lemma EvictIsDropped(m: RangeMap, capacity: nat, lo: nat, hi: nat, start: nat, end: nat)
    requires
      var rest := Untouched(m, lo, hi);
      && Normal(rest) && lo < hi && !Covered(m, lo, hi)
      && (forall s :: s in rest ==> rest[s] < start || end < s)
      && Elements(rest) + Interval(start, end) == Elements(m) + Interval(lo, hi)
    ensures
      Elements(Evict(Untouched(m, lo, hi), capacity)) + Interval(start, end) == AfterInsert(m, capacity, lo, hi)
  {
    hide Elements, Interval, Untouched, Covered, Normal;
    var rest := Untouched(m, lo, hi);
    EvictElements(rest, capacity);
    if |rest| >= capacity && rest != map[] {
      var s := Smallest(rest.Keys);
      assert Dropped(m, capacity, lo, hi) == Some(Range(s, rest[s]));
      Apart(start, end, s, rest[s]);
      Carve(Elements(rest), Interval(s, rest[s]), Interval(start, end));
    } else {
      assert Dropped(m, capacity, lo, hi) == None;
    }
  }

  lemma Apart(start: nat, end: nat, s: nat, e: nat)
    requires e < start || end < s
    ensures Interval(start, end) !! Interval(s, e)
  {
  }

  lemma InsertDone(m: RangeMap, capacity: nat, rest: RangeMap, lo: nat, hi: nat, start: nat, end: nat)
    requires Normal(m) && Merging(m, rest, lo, hi, start, end) && rest == Untouched(m, lo, hi)
    requires forall s :: s in rest && lo < s ==> end < s
    requires Elements(rest) + Interval(start, end) == Elements(m) + Interval(lo, hi)
    requires !Covered(m, lo, hi)
    ensures
      var n := Evict(rest, capacity)[start := end];
      && Normal(n)
      && Elements(n) == AfterInsert(m, capacity, lo, hi)
      && |n| == |Evict(rest, capacity)| + 1
  {
    hide Elements, Interval, Untouched, Covered, AfterInsert, Evict, Normal;
    assert forall s :: s in rest ==> rest[s] < start || end < s;
    EvictElements(rest, capacity);
    EvictIsDropped(m, capacity, lo, hi, start, end);
    AddOne(Evict(rest, capacity), start, end);
  }

  lemma Carve(rest: iset<nat>, part: iset<nat>, grown: iset<nat>)
    requires grown !! part
    ensures (rest - part) + grown == rest + grown - part
  {
  }

  lemma NotFull(m: RangeMap, capacity: nat, lo: nat, hi: nat)
    requires |m| < capacity
    ensures AfterInsert(m, capacity, lo, hi) == Elements(m) + Interval(lo, hi)
  {
    var rest := Untouched(m, lo, hi);
    SubsetSize(rest.Keys, m.Keys);
    assert Dropped(m, capacity, lo, hi) == None;
  }

  /** Inserting a range that touches no other into a set with room just adds it. */
  lemma InsertApart(m: RangeMap, capacity: nat, lo: nat, hi: nat, after: RangeMap)
    requires Normal(m) && lo < hi && |m| < capacity
    requires forall s :: s in m ==> m[s] < lo || hi < s
    requires Normal(after) && Elements(after) == AfterInsert(m, capacity, lo, hi)
    ensures after == m[lo := hi]
  {
    NotFull(m, capacity, lo, hi);
    AddOne(m, lo, hi);
    NormalFormIsCanonical(after, m[lo := hi]);
  }

  /** What is given up is the lowest range that does not merge, never the new one. */
  lemma DroppedIsLowestUnmerged(m: RangeMap, capacity: nat, lo: nat, hi: nat)
    requires Normal(m)
    ensures Interval(lo, hi) <= AfterInsert(m, capacity, lo, hi)
    ensures Dropped(m, capacity, lo, hi).Some? ==>
      var r := Dropped(m, capacity, lo, hi).value;
      && r.start in m && m[r.start] == r.end
      && (r.end < lo || hi < r.start)
      && forall s :: s in m && (m[s] < lo || hi < s) ==> r.start <= s
  {
    var rest := Untouched(m, lo, hi);
    assert forall s :: s in m && (m[s] < lo || hi < s) ==> s in rest.Keys;
  }

  // ----- What a removal cuts

  /** Cut [lo, hi) out of the range that starts at `s`. */
  function Cut(m: RangeMap, s: nat, lo: nat, hi: nat): RangeMap
    requires s in m
  {
    var left := if s < lo then (m - {s})[s := lo] else m - {s};
    if m[s] > hi then left[hi := m[s]] else left
  }

  lemma EmptyInterval(lo: nat, hi: nat)
    requires lo >= hi
    ensures Interval(lo, hi) == iset{}
  {
  }

  /** What is left of the range below `lo`. */
  lemma CutLeft(m: RangeMap, s: nat, lo: nat, hi: nat)
    requires Normal(m) && s in m && lo < hi && s <= hi && lo < m[s]
    ensures
      var left := if s < lo then (m - {s})[s := lo] else m - {s};
      && Normal(left)
      && Elements(left) == Elements(m) - Interval(s, m[s]) + Interval(s, lo)
      && |left| <= |m|
      && forall t :: t in left ==> left[t] < hi || m[s] < t
  {
    hide Elements, Interval, Normal;
    var rest: RangeMap := m - {s};
    RemoveOne(m, s);
    OthersApart(m, s);
    if s < lo {
      AddOne(rest, s, lo);
    } else {
      EmptyInterval(s, lo);
    }
  }

  lemma OthersApart(m: RangeMap, s: nat)
    requires Normal(m) && s in m
    ensures forall t :: t in m - {s} ==> m[t] < s || m[s] < t
  {
  }

  lemma CutElements(m: RangeMap, s: nat, lo: nat, hi: nat)
    requires Normal(m) && s in m && lo < hi && s <= hi && lo < m[s]
    ensures Normal(Cut(m, s, lo, hi))
    ensures Elements(Cut(m, s, lo, hi)) == Elements(m) - (Interval(lo, hi) * Interval(s, m[s]))
    ensures |Cut(m, s, lo, hi)| <= |m| + 1
  {
    hide Elements, Interval, Normal;
    var left := if s < lo then (m - {s})[s := lo] else m - {s};
    CutLeft(m, s, lo, hi);
    RemoveOne(m, s);
    if m[s] > hi {
      AddOne(left, hi, m[s]);
    } else {
      EmptyInterval(hi, m[s]);
    }
    CutIntervals(Elements(m), s, m[s], lo, hi);
  }

  lemma CutIntervals(all: iset<nat>, s: nat, e: nat, lo: nat, hi: nat)
    requires Interval(s, e) <= all && s <= hi && lo < e && lo < hi
    ensures all - Interval(s, e) + Interval(s, lo) + Interval(hi, e) == all - (Interval(lo, hi) * Interval(s, e))
  {
    forall x | x in Interval(s, e)
      ensures x in Interval(s, lo) || x in Interval(hi, e) || x in Interval(lo, hi)
    {
      assert Within(x, s, lo) || Within(x, hi, e) || Within(x, lo, hi);
    }
  }

  /** Half-way through the removal of [lo, hi) from `m`, with the ranges below `lo` dealt with. */
  ghost predicate Removing(m: RangeMap, now: RangeMap, lo: nat, hi: nat) {
    && Normal(now)
    && |now| <= |m| + 1
    && (forall s :: s in now && s < lo ==> now[s] <= lo)
    && Elements(now) - Interval(lo, hi) == Elements(m) - Interval(lo, hi)
  }

  lemma CutOutside(all: iset<nat>, window: iset<nat>, range: iset<nat>)
    ensures all - (window * range) - window == all - window
    ensures window <= range ==> all - (window * range) == all - window
  {
  }

  lemma IntervalSubset(a: nat, b: nat, c: nat, d: nat)
    requires c <= a && b <= d
    ensures Interval(a, b) <= Interval(c, d)
  {
    assert forall x :: Within(x, a, b) ==> Within(x, c, d);
  }

  /** No range reaches over `lo` from the left. */
  lemma RemoveClear(m: RangeMap, lo: nat, hi: nat)
    requires Normal(m)
    requires PrevTo(m, lo).Some? ==> PrevTo(m, lo).value.end <= lo
    ensures Removing(m, m, lo, hi)
  {
  }

  /** Cutting the range that reaches over `lo` from the left. */
  lemma RemoveStart(m: RangeMap, lo: nat, hi: nat, s: nat)
    requires Normal(m) && lo < hi && s in m && s <= lo < m[s]
    ensures Removing(m, Cut(m, s, lo, hi), lo, hi)
    ensures m[s] >= hi ==> Elements(Cut(m, s, lo, hi)) == Elements(m) - Interval(lo, hi)
  {
    hide Elements, Interval;
    var n := Cut(m, s, lo, hi);
    CutElements(m, s, lo, hi);
    CutOutside(Elements(m), Interval(lo, hi), Interval(s, m[s]));
    if m[s] >= hi {
      IntervalSubset(lo, hi, s, m[s]);
    }
    forall t | t in n && t < lo
      ensures n[t] <= lo
    {
      assert t == s || (t in m && n[t] == m[t] && m[t] < s);
    }
  }

  lemma CutSize(m: RangeMap, s: nat, lo: nat, hi: nat)
    requires s in m && lo <= s
    ensures |Cut(m, s, lo, hi)| <= |m|
    ensures m[s] <= hi ==> |Cut(m, s, lo, hi)| < |m|
  {
    var rest := m - {s};
    assert rest.Keys == m.Keys - {s};
    if m[s] > hi && hi !in rest {
      assert rest[hi := m[s]].Keys == rest.Keys + {hi};
    }
  }

  /** Cutting the first range that begins in [lo, hi]. */
  lemma RemoveStep(m: RangeMap, now: RangeMap, lo: nat, hi: nat, s: nat)
    requires Removing(m, now, lo, hi) && lo < hi && s in now && lo <= s <= hi
    ensures Removing(m, Cut(now, s, lo, hi), lo, hi)
    ensures now[s] <= hi ==> |Cut(now, s, lo, hi)| < |now|
  {
    hide Elements, Interval;
    CutElements(now, s, lo, hi);
    CutSize(now, s, lo, hi);
    CutOutside(Elements(now), Interval(lo, hi), Interval(s, now[s]));
  }

  /** Once a range that reaches beyond `hi` is cut, no range is left inside. */
  lemma RemoveLast(now: RangeMap, lo: nat, hi: nat, s: nat)
    requires Normal(now) && lo < hi && s in now && lo <= s <= hi < now[s]
    requires forall t :: t in now && lo <= t ==> s <= t
    ensures forall t :: t in Cut(now, s, lo, hi) && lo <= t ==> hi <= t
  {
    assert forall t :: t in now && s < t ==> now[s] < t;
  }

  lemma RemoveDone(m: RangeMap, now: RangeMap, lo: nat, hi: nat)
    requires Removing(m, now, lo, hi)
    requires forall s :: s in now && lo <= s ==> hi <= s
    ensures Elements(now) == Elements(m) - Interval(lo, hi)
  {
    forall x: nat | Within(x, lo, hi)
      ensures !Has(now, x)
    {
    }
  }

  lemma FilterGap(m: RangeMap, lo: nat, hi: nat, start: nat, end: nat)
    requires Normal(m) && lo < hi
    requires PrevTo(m, lo).Some? ==> PrevTo(m, lo).value.end < hi
    requires start == if PrevTo(m, lo).Some? && PrevTo(m, lo).value.end > lo then PrevTo(m, lo).value.end else lo
    requires end == if NextAfter(m, lo).Some? && NextAfter(m, lo).value.start < hi then NextAfter(m, lo).value.start else hi
    ensures lo <= start < end <= hi
    ensures Interval(start, end) !! Elements(m)
    ensures Interval(lo, start) <= Elements(m)
    ensures end == hi || end in Elements(m)
    ensures !(Interval(lo, hi) <= Elements(m))
  {
    forall s | s in m
      ensures m[s] <= start || end <= s
    {
    }
    forall x: nat | Within(x, start, end)
      ensures !Has(m, x)
    {
    }
    assert Within(start, start, end) && Within(start, lo, hi);
    assert start in Interval(lo, hi) && start !in Elements(m);
  }

  lemma NotCovered(m: RangeMap, lo: nat, hi: nat)
    requires Normal(m) && hi <= lo
    requires PrevTo(m, lo).Some? ==> PrevTo(m, lo).value.end < hi
    ensures !Covered(m, lo, hi)
  {
  }

  // ----- What is left above a number

  function Tail(m: RangeMap, x: nat): RangeMap {
    map s | s in m && x < s :: m[s]
  }

  /** The range that holds both `x` and `x + 1`, if there is one. */
  function Straddling(m: RangeMap, x: nat): (r: Option<Range>)
    ensures r.Some? ==> r.value.start in m && r.value.start <= x && x + 1 < r.value.end == m[r.value.start]
  {
    var prev := PrevTo(m, x);
    if prev.Some? && prev.value.end > x + 1 then prev else None
  }

  /** The elements after removing everything up to `x`: the part of a straddling range above it is inserted again. */
  ghost function AfterRemoveUntil(m: RangeMap, capacity: nat, x: nat): iset<nat> {
    match Straddling(m, x)
    case None => Elements(Tail(m, x))
    case Some(r) => AfterInsert(Tail(m, x), capacity, x + 1, r.end)
  }

  lemma StraddlingIsOnly(m: RangeMap, x: nat, s: nat)
    requires Normal(m) && s in m && s <= x && x + 1 < m[s]
    ensures Straddling(m, x) == Some(Range(s, m[s]))
  {
  }

  lemma TailSmaller(m: RangeMap, x: nat, s: nat)
    requires s in m && s <= x
    ensures |Tail(m, x)| < |m|
  {
    SubsetSize(Tail(m, x).Keys, m.Keys - {s});
  }

  lemma TailNormal(m: RangeMap, x: nat)
    requires Normal(m)
    ensures Normal(Tail(m, x)) && |Tail(m, x)| <= |m|
  {
    SubmapNormal(m, Tail(m, x));
    SubsetSize(Tail(m, x).Keys, m.Keys);
  }

  ghost function Above(x: nat): iset<nat> {
    iset y: nat | IsAbove(y, x)
  }

  ghost predicate IsAbove(y: nat, x: nat) {
    x < y
  }

  /** One element: it is above `x` if its range starts above `x` or straddles it. */
  lemma AboveMember(m: RangeMap, x: nat, y: nat)
    requires Normal(m) && x < y
    ensures
      Has(m, y) <==>
      Has(Tail(m, x), y) || (Straddling(m, x).Some? && y < Straddling(m, x).value.end)
  {
    if Has(m, y) && !Has(Tail(m, x), y) {
      var s :| s in m && s <= y < m[s];
      assert s in Tail(m, x) <==> x < s;
      StraddlingIsOnly(m, x, s);
    }
    if Has(Tail(m, x), y) {
      var s :| s in Tail(m, x) && s <= y < Tail(m, x)[s];
      assert s in m && m[s] == Tail(m, x)[s];
    }
  }

  lemma TailIsAbove(m: RangeMap, x: nat, y: nat)
    ensures Has(Tail(m, x), y) ==> x < y
  {
  }

  /** A set within its capacity keeps exactly the elements above `x`. */
  lemma RemoveUntilWithin(m: RangeMap, capacity: nat, x: nat)
    requires Normal(m) && |m| <= capacity
    ensures AfterRemoveUntil(m, capacity, x) == Elements(m) * Above(x)
  {
    hide AfterInsert, Normal, Straddling, Tail, Has;
    var r := Straddling(m, x);
    if r.Some? {
      TailSmaller(m, x, r.value.start);
      NotFull(Tail(m, x), capacity, x + 1, r.value.end);
    }
    forall y: nat
      ensures y in AfterRemoveUntil(m, capacity, x) <==> y in Elements(m) * Above(x)
    {
      TailIsAbove(m, x, y);
      if x < y {
        AboveMember(m, x, y);
      }
      assert r.Some? ==> (y in Interval(x + 1, r.value.end) <==> x < y < r.value.end) by {
        assert r.Some? ==> (Within(y, x + 1, r.value.end) <==> x < y < r.value.end);
      }
    }
  }

  /** What is left while the ranges up to `x` are visited; `todo` holds the starts to visit. */
  function Left(m: RangeMap, x: nat, todo: set<nat>): RangeMap {
    map s | s in m && (x < s || s in todo) :: m[s]
  }

  /** Half-way through the removal: the tail and what is to be visited, or the result. */
  ghost predicate Draining(m: RangeMap, now: RangeMap, todo: set<nat>, capacity: nat, x: nat) {
    && Normal(now)
    && (forall s :: s in todo ==> s in m && s <= x && s in now)
    && (|| (now == Left(m, x, todo) && (Straddling(m, x).Some? ==> Straddling(m, x).value.start in todo))
        || (todo == {} && Elements(now) == AfterRemoveUntil(m, capacity, x) && |now| <= |m|))
  }

  lemma DrainStart(m: RangeMap, todo: set<nat>, capacity: nat, x: nat)
    requires Normal(m) && todo == set s | s in m && s <= x
    ensures Draining(m, m, todo, capacity, x)
  {
    assert Left(m, x, todo) == m;
  }

  lemma DrainWhole(m: RangeMap, now: RangeMap, todo: set<nat>, capacity: nat, x: nat, s: nat)
    requires Normal(m) && Draining(m, now, todo, capacity, x) && s in todo && now[s] <= x + 1
    ensures Draining(m, now - {s}, todo - {s}, capacity, x)
  {
    hide Elements, AfterRemoveUntil, Normal, PrevTo;
    assert now == Left(m, x, todo);
    SubmapNormal(now, now - {s});
    assert now - {s} == Left(m, x, todo - {s});
  }

  /** A range that straddles `x` is the last one to be visited. */
  lemma StraddlingIsLast(m: RangeMap, now: RangeMap, todo: set<nat>, x: nat, s: nat)
    requires Normal(m) && now == Left(m, x, todo)
    requires s in m && s <= x && s in todo && x + 1 < m[s]
    requires forall t :: t in todo ==> t in m && s <= t <= x
    ensures todo == {s} && now - {s} == Tail(m, x)
  {
    hide Normal, PrevTo;
    forall t | t in todo
      ensures t == s
    {
      assert Normal(m);
      NotBetween(m, s, t, x);
    }
    assert todo == {s};
  }

  lemma NotBetween(m: RangeMap, s: nat, t: nat, x: nat)
    requires Normal(m) && s in m && t in m && s <= t <= x && x + 1 < m[s]
    ensures s == t
  {
  }

  lemma DrainStraddling(m: RangeMap, now: RangeMap, todo: set<nat>, capacity: nat, x: nat, s: nat, after: RangeMap)
    requires Normal(m) && Draining(m, now, todo, capacity, x) && s in todo && now[s] > x + 1
    requires Normal(after) && Elements(after) == AfterInsert(now - {s}, capacity, x + 1, now[s])
    requires |after| <= |now - {s}| + 1
    requires forall t :: t in todo ==> s <= t
    ensures Draining(m, after, todo - {s}, capacity, x)
  {
    hide Elements, AfterInsert, Normal, Straddling;
    assert now == Left(m, x, todo);
    StraddlingIsOnly(m, x, s);
    StraddlingIsLast(m, now, todo, x, s);
    TailSmaller(m, x, s);
    assert todo - {s} == {};
  }

  lemma DrainDone(m: RangeMap, now: RangeMap, capacity: nat, x: nat)
    requires Normal(m) && Draining(m, now, {}, capacity, x)
    ensures Elements(now) == AfterRemoveUntil(m, capacity, x) && |now| <= |m|
  {
    hide Elements, Normal, Straddling;
    TailNormal(m, x);
    assert Left(m, x, {}) == Tail(m, x);
  }

  lemma AboveSmallest(m: RangeMap, s: nat)
    requires Normal(m) && s in m && forall t :: t in m ==> s <= t
    ensures forall x :: x in Elements(m - {s}) ==> m[s] < x
  {
    forall x | x in Elements(m - {s})
      ensures m[s] < x
    {
      var t :| t in m - {s} && t <= x < (m - {s})[t];
      assert t in m;
    }
  }

  // ----- Runs

  datatype Call = InsertCall(lo: nat, hi: nat) | RemoveCall(lo: nat, hi: nat) | RemoveUntilCall(x: nat)

  /** The set that a run of calls leads to. */
  ghost function Denotes(s: iset<nat>, calls: seq<Call>): iset<nat> {
    if calls == [] then s
    else
      var t := Denotes(s, calls[..|calls| - 1]);
      match calls[|calls| - 1]
      case InsertCall(lo, hi) => t + Interval(lo, hi)
      case RemoveCall(lo, hi) => t - Interval(lo, hi)
      case RemoveUntilCall(x) => t * Above(x)
  }

  class RangeSet {
    var ranges: RangeMap
    const capacity: nat

    ghost predicate Valid()
      reads this
    {
      Normal(ranges)
    }

    constructor (capacity: nat)
      ensures Valid() && ranges == map[] && this.capacity == capacity
    {
      this.capacity := capacity;
      ranges := map[];
    }

    /**
     Set union, except that a full set gives up its lowest range that the new one does not
     merge with.
     */
    method Insert(lo: nat, hi: nat)
      requires Valid()
      modifies this
      ensures Valid()
      ensures Elements(ranges) == old(AfterInsert(ranges, capacity, lo, hi))
      ensures |ranges| <= old(|ranges|) + 1
      ensures old(|ranges|) <= capacity && 1 <= capacity ==> |ranges| <= capacity
    {
      hide Elements, Interval, AfterInsert, Normal, Merging, Untouched, Covered, PrevTo, NextTo, Smallest, Largest;
      if lo >= hi {
        NothingToInsert(ranges, capacity, lo, hi);
        return;
      }
      ghost var before := ranges;
      MergePrevious(ranges, lo, hi);
      var start: nat, end: nat := lo, hi;
      var prev := PrevTo(ranges, start);
      if prev.Some? {
        if prev.value.end >= end {
          NothingToInsert(ranges, capacity, lo, hi);
          return;
        } else if prev.value.end >= start {
          MergePreviousElements(ranges, lo, hi, prev.value);
          ranges := ranges - {prev.value.start};
          start := prev.value.start;
        }
      }
      ghost var all := Elements(before) + Interval(lo, hi);
      var next := NextTo(ranges, start);
      while next.Some? && next.value.start <= end
        invariant Normal(ranges) && Merging(before, ranges, lo, hi, start, end)
        invariant Elements(ranges) + Interval(start, end) == all
        invariant next == NextTo(ranges, start)
        decreases |ranges|
      {
        var r := next.value;
        MergeFollowing(before, ranges, lo, hi, start, end, r);
        MergeFollowingElements(ranges, start, end, r, all);
        ranges := ranges - {r.start};
        end := if r.end > end then r.end else end;
        next := NextTo(ranges, start);
      }
      MergeDone(before, ranges, lo, hi, start, end);
      InsertDone(before, capacity, ranges, lo, hi, start, end);
      EvictElements(ranges, capacity);
      if |ranges| >= capacity && ranges != map[] {
        ranges := ranges - {Smallest(ranges.Keys)};
      }
      ranges := ranges[start := end];
    }

    method AddElem(x: nat)
      requires Valid()
      modifies this
      ensures Valid()
      ensures Elements(ranges) == old(AfterInsert(ranges, capacity, x, x + 1))
      ensures old(|ranges|) <= capacity && 1 <= capacity ==> |ranges| <= capacity
    {
      Insert(x, x + 1);
    }

    /** Set difference. A removal inside a range splits it, which capacity does not bound. */
    method Remove(lo: nat, hi: nat)
      requires Valid()
      modifies this
      ensures Valid()
      ensures Elements(ranges) == old(Elements(ranges)) - Interval(lo, hi)
      ensures |ranges| <= old(|ranges|) + 1
    {
      if ranges == map[] || lo >= hi {
        return;
      }
      ghost var before := ranges;
      var prev := PrevTo(ranges, lo);
      if prev.Some? && prev.value.end > lo {
        var r := prev.value;
        RemoveStart(ranges, lo, hi, r.start);
        ranges := ranges - {r.start};
        if r.start < lo {
          ranges := ranges[r.start := lo];
        }
        if r.end > hi {
          ranges := ranges[hi := r.end];
        }
        assert ranges == Cut(before, r.start, lo, hi);
        if r.end >= hi {
          return;
        }
      } else {
        RemoveClear(ranges, lo, hi);
      }
      assert Removing(before, ranges, lo, hi);
      var next := NextTo(ranges, lo);
      while next.Some? && next.value.start <= hi
        invariant Removing(before, ranges, lo, hi)
        invariant next == NextTo(ranges, lo)
        decreases |ranges|
      {
        var r := next.value;
        RemoveStep(before, ranges, lo, hi, r.start);
        ghost var now := ranges;
        ranges := ranges - {r.start};
        if r.end > hi {
          ranges := ranges[hi := r.end];
          RemoveLast(now, lo, hi, r.start);
          break;
        }
        next := NextTo(ranges, lo);
      }
      RemoveDone(before, ranges, lo, hi);
    }

    method PopMin() returns (r: Option<Range>)
      requires Valid()
      modifies this
      ensures Valid()
      ensures r == None <==> old(ranges) == map[]
      ensures r.Some? ==> old(r.value.start in ranges && ranges[r.value.start] == r.value.end)
      ensures r.Some? ==> forall x :: x in Elements(ranges) ==> r.value.end < x
      ensures Elements(ranges) == old(Elements(ranges)) - Members(r)
      ensures |ranges| == old(|ranges|) - if r.Some? then 1 else 0
    {
      hide Elements, Interval, Normal;
      if ranges == map[] {
        return None;
      }
      var s := Smallest(ranges.Keys);
      r := Some(Range(s, ranges[s]));
      RemoveOne(ranges, s);
      AboveSmallest(ranges, s);
      ranges := ranges - {s};
    }

    method Contains(x: nat) returns (found: bool)
      requires Valid()
      ensures found <==> x in Elements(ranges)
    {
      var prev := PrevTo(ranges, x);
      found := prev.Some? && prev.value.Contains(x);
      if !found {
        var next := NextTo(ranges, x);
        found := next.Some? && next.value.Contains(x);
      }
    }

    /**
     The first part of [lo, hi) that is missing from the set: none exactly when all of it is
     present, and otherwise a non-empty gap with nothing missing before it that cannot be made
     longer. An empty query is given back unless it lies inside or at the edge of a range.
     */
    method Filter(lo: nat, hi: nat) returns (gap: Option<Range>)
      requires Valid()
      ensures lo < hi ==> (gap == None <==> Interval(lo, hi) <= Elements(ranges))
      ensures lo < hi && gap.Some? ==>
        var r := gap.value;
        && lo <= r.start < r.end <= hi
        && Interval(r.start, r.end) !! Elements(ranges)
        && Interval(lo, r.start) <= Elements(ranges)
        && (r.end == hi || r.end in Elements(ranges))
      ensures lo >= hi ==> gap == if Covered(ranges, lo, hi) then None else Some(Range(lo, hi))
    {
      if ranges == map[] {
        assert lo < hi ==> lo in Interval(lo, hi) && lo !in Elements(ranges);
        return Some(Range(lo, hi));
      }
      var newStart, newEnd := lo, hi;
      var prev := PrevTo(ranges, lo);
      if prev.Some? {
        if prev.value.end >= hi {
          assert forall x :: Within(x, lo, hi) ==> Has(ranges, x);
          return None;
        } else if prev.value.end > lo {
          newStart := prev.value.end;
        }
      }
      var next := NextAfter(ranges, lo);
      if next.Some? && next.value.start < hi {
        newEnd := next.value.start;
      }
      gap := Some(Range(newStart, newEnd));
      if lo < hi {
        FilterGap(ranges, lo, hi, newStart, newEnd);
      } else {
        NotCovered(ranges, lo, hi);
      }
    }

    /**
     Keep the elements above `x`. A set past its capacity, as `Remove` can leave it, gives up its
     lowest range when the rest of a range that straddles `x` is inserted again.
     */
    method RemoveUntil(x: nat)
      requires Valid()
      modifies this
      ensures Valid()
      ensures Elements(ranges) == old(AfterRemoveUntil(ranges, capacity, x))
      ensures |ranges| <= old(|ranges|)
      ensures old(|ranges|) <= capacity ==> Elements(ranges) == old(Elements(ranges)) * Above(x)
    {
      hide Elements, AfterInsert, AfterRemoveUntil, Above, Normal, Straddling, Left;
      ghost var before := ranges;
      var todo: set<nat> := set s | s in ranges && s <= x;
      DrainStart(ranges, todo, capacity, x);
      while todo != {}
        invariant Draining(before, ranges, todo, capacity, x)
        decreases |todo|
      {
        var s := Smallest(todo);
        var end := ranges[s];
        ghost var now := ranges;
        SubmapNormal(ranges, ranges - {s});
        ranges := ranges - {s};
        if end > x + 1 {
          Insert(x + 1, end);
          DrainStraddling(before, now, todo, capacity, x, s, ranges);
        } else {
          DrainWhole(before, now, todo, capacity, x, s);
        }
        todo := todo - {s};
      }
      DrainDone(before, ranges, capacity, x);
      if |before| <= capacity {
        RemoveUntilWithin(before, capacity, x);
      }
    }

    /** As long as capacity leaves room, every run of calls computes exactly the set it denotes. */
    method Replay(calls: seq<Call>)
      requires Valid() && |ranges| + |calls| <= capacity
      modifies this
      ensures Valid()
      ensures Elements(ranges) == Denotes(old(Elements(ranges)), calls)
    {
      hide Elements, AfterInsert, Above, Normal, Interval;
      ghost var start := Elements(ranges);
      for i := 0 to |calls|
        invariant Valid() && |ranges| <= old(|ranges|) + i
        invariant Elements(ranges) == Denotes(start, calls[..i])
      {
        assert calls[..i + 1][..i] == calls[..i];
        match calls[i] {
          case InsertCall(lo, hi) =>
            NotFull(ranges, capacity, lo, hi);
            Insert(lo, hi);
          case RemoveCall(lo, hi) => Remove(lo, hi);
          case RemoveUntilCall(x) => RemoveUntil(x);
        }
      }
      assert calls[..|calls|] == calls;
    }
  }
}
