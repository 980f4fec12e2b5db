/**
 The windowed extremum estimator of src/congestion_control/minmax.rs (Kathleen Nichols'
 algorithm): three samples stand for everything that was seen in a sliding time window.

 The value-level part defines one update and whole runs of updates, for the maximum and the
 minimum at once. The class at the end is the estimator itself, updated in place, and is
 proved to follow the value-level definitions.
 */
module WindowedMinMax {
  import opened Arithmetic

  datatype Sample = Sample(time: nat, value: nat)

  datatype Filter = Filter(window: nat, s0: Sample, s1: Sample, s2: Sample)

  datatype Mode = Max | Min

  /** One call of an update, with the window length in force when it is made. */
  datatype Step = Step(window: nat, sample: Sample)

  const UNSET := Sample(0, 0)

  /** `a` is at least as good as `b`: not smaller for a maximum, not larger for a minimum. */
  predicate Better(mode: Mode, a: nat, b: nat) {
    match mode
    case Max => a >= b
    case Min => a <= b
  }

  function Fresh(window: nat): Filter {
    Filter(window, UNSET, UNSET, UNSET)
  }

  function Subwin(f: Filter, s: Sample): Filter {
    var dt := SaturatingSub(s.time, f.s0.time);
    if dt > f.window then
      if SaturatingSub(s.time, f.s1.time) > f.window then
        f.(s0 := f.s2, s1 := s, s2 := s)
      else
        f.(s0 := f.s1, s1 := f.s2, s2 := s)
    else if f.s1.time == f.s0.time && dt > f.window / 4 then
      f.(s1 := s, s2 := s)
    else if f.s2.time == f.s1.time && dt > f.window / 2 then
      f.(s2 := s)
    else
      f
  }

  function Update(mode: Mode, f: Filter, s: Sample): Filter {
    if s.time < f.s2.time then
      f
    else if f.s0.value == 0 || Better(mode, s.value, f.s0.value) || SaturatingSub(s.time, f.s2.time) > f.window then
      f.(s0 := s, s1 := s, s2 := s)
    else if Better(mode, s.value, f.s1.value) then
      Subwin(f.(s1 := s, s2 := s), s)
    else if Better(mode, s.value, f.s2.value) then
      Subwin(f.(s2 := s), s)
    else
      Subwin(f, s)
  }

  /** The filter after a whole history of updates, the window being set before each. */
  function Run(mode: Mode, history: seq<Step>): Filter {
    if history == [] then Fresh(0)
    else
      var last := history[|history| - 1];
      Update(mode, Run(mode, history[..|history| - 1]).(window := last.window), last.sample)
  }

  // ----- What a history promises about the three samples

  ghost predicate TimesNondecreasing(history: seq<Step>) {
    forall i, j :: 0 <= i < j < |history| ==> history[i].sample.time <= history[j].sample.time
  }

  /** `s` is entry `i` of the history and no later entry beats it. */
  ghost predicate BestFrom(mode: Mode, history: seq<Step>, i: nat, s: Sample) {
    && i < |history|
    && history[i].sample == s
    && forall j :: i <= j < |history| ==> Better(mode, s.value, history[j].sample.value)
  }

  ghost predicate Tracks(mode: Mode, f: Filter, history: seq<Step>, i0: nat, i1: nat, i2: nat) {
    && i0 <= i1 <= i2
    && BestFrom(mode, history, i0, f.s0)
    && BestFrom(mode, history, i1, f.s1)
    && BestFrom(mode, history, i2, f.s2)
  }

  /** Entry `j` is no older than the window of the last update. */
  ghost predicate InWindow(history: seq<Step>, j: nat)
    requires j < |history|
  {
    var last := history[|history| - 1];
    last.sample.time - history[j].sample.time <= last.window
  }

  lemma BestFromExtends(mode: Mode, history: seq<Step>, i: nat, s: Sample, last: Step)
    requires BestFrom(mode, history, i, s)
    requires Better(mode, s.value, last.sample.value)
    ensures BestFrom(mode, history + [last], i, s)
  {
    var h := history + [last];
    assert h[i] == history[i];
  }

  lemma BestFromLast(mode: Mode, history: seq<Step>)
    requires history != []
    ensures BestFrom(mode, history, |history| - 1, history[|history| - 1].sample)
  {
  }

  /** A rotation keeps the three-entry description, and brings the first entry into the window. */
  lemma SubwinTracks(mode: Mode, g: Filter, h: seq<Step>, i0: nat, i1: nat, i2: nat)
    returns (k0: nat, k1: nat, k2: nat)
    requires h != [] && TimesNondecreasing(h) && Tracks(mode, g, h, i0, i1, i2)
    requires g.window == h[|h| - 1].window && h[|h| - 1].sample.time - g.s2.time <= g.window
    ensures Tracks(mode, Subwin(g, h[|h| - 1].sample), h, k0, k1, k2)
    ensures InWindow(h, k0)
  {
    var n := |h| - 1;
    var s := h[n].sample;
    BestFromLast(mode, h);
    assert h[i0].sample == g.s0 && h[i1].sample == g.s1 && h[i2].sample == g.s2;
    assert g.s0.time <= g.s1.time <= g.s2.time <= s.time;
    hide TimesNondecreasing, BestFrom;
    k0, k1, k2 := i0, i1, i2;
    var dt := SaturatingSub(s.time, g.s0.time);
    if dt > g.window {
      if SaturatingSub(s.time, g.s1.time) > g.window {
        k0, k1, k2 := k2, n, n;
      } else {
        k0, k1, k2 := k1, k2, n;
      }
    } else if g.s1.time == g.s0.time && dt > g.window / 4 {
      k1, k2 := n, n;
    } else if g.s2.time == g.s1.time && dt > g.window / 2 {
      k2 := n;
    }
  }

  /** One update keeps the three-entry description of the history. */
  lemma UpdateTracks(mode: Mode, f: Filter, history: seq<Step>, i0: nat, i1: nat, i2: nat, last: Step)
    returns (k0: nat, k1: nat, k2: nat)
    requires Tracks(mode, f, history, i0, i1, i2)
    requires TimesNondecreasing(history + [last])
    requires f.window == last.window
    ensures Tracks(mode, Update(mode, f, last.sample), history + [last], k0, k1, k2)
    ensures InWindow(history + [last], k0)
  {
    hide Subwin;
    var h, n := history + [last], |history|;
    assert h[n] == last && h[i2] == history[i2];
    var s := last.sample;
    assert s.time >= f.s2.time;
    BestFromLast(mode, h);
    if f.s0.value == 0 || Better(mode, s.value, f.s0.value) || SaturatingSub(s.time, f.s2.time) > f.window {
      k0, k1, k2 := n, n, n;
    } else {
      BestFromExtends(mode, history, i0, f.s0, last);
      k0, k1, k2 := i0, i1, i2;
      var g := f;
      if Better(mode, s.value, f.s1.value) {
        g, k1, k2 := f.(s1 := s, s2 := s), n, n;
      } else {
        BestFromExtends(mode, history, i1, f.s1, last);
        if Better(mode, s.value, f.s2.value) {
          g, k2 := f.(s2 := s), n;
        } else {
          BestFromExtends(mode, history, i2, f.s2, last);
        }
      }
      k0, k1, k2 := SubwinTracks(mode, g, h, k0, k1, k2);
    }
  }

  lemma RunAppend(mode: Mode, prefix: seq<Step>, last: Step)
    ensures Run(mode, prefix + [last]) == Update(mode, Run(mode, prefix).(window := last.window), last.sample)
  {
    assert (prefix + [last])[..|prefix|] == prefix;
  }

  /** The history splits into the calls before the last one and the last one. */
  lemma SplitLast(history: seq<Step>) returns (prefix: seq<Step>, last: Step)
    requires history != []
    ensures history == prefix + [last]
    ensures |prefix| == |history| - 1
    ensures forall mode :: Run(mode, history) == Update(mode, Run(mode, prefix).(window := last.window), last.sample)
    ensures TimesNondecreasing(history) ==> TimesNondecreasing(prefix)
  {
    prefix, last := history[..|history| - 1], history[|history| - 1];
  }

  lemma RunOne(mode: Mode, step: Step)
    ensures Run(mode, [step]) == Filter(step.window, step.sample, step.sample, step.sample)
  {
    assert [step][..0] == [];
  }

  lemma InWindowUpward(history: seq<Step>, i: nat)
    requires i < |history| && TimesNondecreasing(history) && InWindow(history, i)
    ensures forall j :: i <= j < |history| ==> InWindow(history, j)
  {
  }

  /**
   For every run with nondecreasing times the three samples are entries of the history, in
   order, each unbeaten from its own position on, and the first one is inside the window.
   */
  lemma {:induction false} RunTracks(mode: Mode, history: seq<Step>) returns (i0: nat, i1: nat, i2: nat)
    requires history != [] && TimesNondecreasing(history)
    ensures Tracks(mode, Run(mode, history), history, i0, i1, i2)
    ensures forall j :: i0 <= j < |history| ==> InWindow(history, j)
    decreases |history|
  {
    hide Run, Update, TimesNondecreasing;
    var prefix, last := SplitLast(history);
    if prefix == [] {
      assert history == [last];
      RunOne(mode, last);
      i0, i1, i2 := 0, 0, 0;
    } else {
      var j0, j1, j2 := RunTracks(mode, prefix);
      var f := Run(mode, prefix).(window := last.window);
      i0, i1, i2 := UpdateTracks(mode, f, prefix, j0, j1, j2, last);
    }
    InWindowUpward(history, i0);
  }

  /** `m` is the true extremum of the entries that are inside the window. */
  ghost predicate IsWindowExtremum(mode: Mode, history: seq<Step>, m: nat) {
    && (exists j :: 0 <= j < |history| && InWindow(history, j) && history[j].sample.value == m)
    && (forall j :: 0 <= j < |history| && InWindow(history, j) ==> Better(mode, m, history[j].sample.value))
  }

  /**
   The estimate never overshoots: the true windowed extremum is at least as good as it, and
   it is at least as good as the latest sample. It is the exact extremum of an in-window suffix.
   */
  lemma {:induction false} EstimateIsSound(mode: Mode, history: seq<Step>, m: nat) returns (start: nat)
    requires history != [] && TimesNondecreasing(history)
    requires IsWindowExtremum(mode, history, m)
    ensures Better(mode, m, Run(mode, history).s0.value)
    ensures Better(mode, Run(mode, history).s0.value, history[|history| - 1].sample.value)
    ensures start < |history| && InWindow(history, start)
    ensures BestFrom(mode, history, start, Run(mode, history).s0)
  {
    var i0, i1, i2 := RunTracks(mode, history);
    start := i0;
    assert history[i0].sample == Run(mode, history).s0;
  }

  /**
   The estimate can miss the true windowed maximum, even one seen a moment ago: with a window
   of 8 the sample of value 20 taken at time 15 is forgotten at time 18.
   */
  lemma RecentMaximumMissed(history: seq<Step>)
    requires history == [Step(8, Sample(0, 100)), Step(8, Sample(7, 50)), Step(8, Sample(8, 40)),
                         Step(8, Sample(9, 30)), Step(8, Sample(15, 20)), Step(8, Sample(18, 10))]
    ensures TimesNondecreasing(history)
    ensures IsWindowExtremum(Max, history, 20)
    ensures Run(Max, history).s0.value == 10
  {
    hide Run;
    assert history[..1] == [history[0]];
    RunOne(Max, history[0]);
    RunAppend(Max, history[..1], history[1]);
    assert history[..2] == history[..1] + [history[1]];
    RunAppend(Max, history[..2], history[2]);
    assert history[..3] == history[..2] + [history[2]];
    assert Run(Max, history[..3]) == Filter(8, Sample(0, 100), Sample(7, 50), Sample(8, 40));
    RunAppend(Max, history[..3], history[3]);
    assert history[..4] == history[..3] + [history[3]];
    RunAppend(Max, history[..4], history[4]);
    assert history[..5] == history[..4] + [history[4]];
    assert Run(Max, history[..5]) == Filter(8, Sample(7, 50), Sample(8, 40), Sample(9, 30));
    RunAppend(Max, history[..5], history[5]);
    assert history == history[..5] + [history[5]];
    assert InWindow(history, 4) && history[4].sample.value == 20;
  }

  // ----- When the estimate is the windowed extremum

  /** The sample is inside the window and holds the extremum of the window. */
  ghost predicate HoldsExtremum(mode: Mode, history: seq<Step>, t: Sample)
    requires history != []
  {
    var last := history[|history| - 1];
    last.sample.time - t.time <= last.window && IsWindowExtremum(mode, history, t.value)
  }

  /**
   One of the samples at hand holds the windowed extremum: the new one, or one of the three
   kept before it; the three do not count if the first is zero, for "uninitialised".
   */
  ghost predicate SampleHolds(mode: Mode, f: Filter, history: seq<Step>)
    requires history != []
  {
    || HoldsExtremum(mode, history, history[|history| - 1].sample)
    || (f.s0.value != 0
        && (|| HoldsExtremum(mode, history, f.s0)
            || HoldsExtremum(mode, history, f.s1)
            || HoldsExtremum(mode, history, f.s2)))
  }

  /** The samples are in order, of time and of value. */
  ghost predicate Ordered(mode: Mode, f: Filter, s: Sample) {
    && f.s0.time <= f.s1.time <= f.s2.time <= s.time
    && Better(mode, f.s0.value, f.s1.value) && Better(mode, f.s1.value, f.s2.value)
  }

  lemma RunIsOrdered(mode: Mode, prefix: seq<Step>, last: Step)
    requires prefix != [] && TimesNondecreasing(prefix + [last])
    ensures Ordered(mode, Run(mode, prefix), last.sample)
  {
    hide Run;
    var h := prefix + [last];
    assert forall j :: 0 <= j < |prefix| ==> h[j] == prefix[j];
    assert h[|prefix|] == last;
    assert TimesNondecreasing(prefix);
    var i0, i1, i2 := RunTracks(mode, prefix);
    assert h[i0].sample.time <= h[i1].sample.time <= h[i2].sample.time <= last.sample.time;
  }

  /** The sample put first is one of those at hand, at least as good as each of them in the window. */
  lemma FirstIsBest(mode: Mode, f: Filter, s: Sample)
    requires Ordered(mode, f, s)
    ensures
      var first := Update(mode, f, s).s0;
      && (first == s || (f.s0.value != 0 && (first == f.s0 || first == f.s1 || first == f.s2)))
      && (f.s0.value == 0 ==> first == s)
      && Better(mode, first.value, s.value)
      && (f.s0.value != 0 && s.time - f.s0.time <= f.window ==> Better(mode, first.value, f.s0.value))
      && (f.s0.value != 0 && s.time - f.s1.time <= f.window ==> Better(mode, first.value, f.s1.value))
      && (f.s0.value != 0 && s.time - f.s2.time <= f.window ==> Better(mode, first.value, f.s2.value))
  {
  }

  /** An entry of the window that is as good as the extremum is the extremum. */
  lemma AsGoodIsExtremum(mode: Mode, history: seq<Step>, i: nat, t: Sample)
    requires i < |history| && InWindow(history, i) && HoldsExtremum(mode, history, t)
    requires Better(mode, history[i].sample.value, t.value)
    ensures IsWindowExtremum(mode, history, history[i].sample.value)
  {
  }

  /**
   At any moment of any run with nondecreasing times: the estimate is the windowed extremum if
   and only if the new sample or one of the samples kept before it holds it.
   */
  lemma WindowExactIff(mode: Mode, prefix: seq<Step>, last: Step)
    requires prefix != [] && TimesNondecreasing(prefix + [last])
    ensures
      IsWindowExtremum(mode, prefix + [last], Run(mode, prefix + [last]).s0.value) <==>
      SampleHolds(mode, Run(mode, prefix), prefix + [last])
  {
    hide Run, Update, IsWindowExtremum, TimesNondecreasing;
    var h, f := prefix + [last], Run(mode, prefix);
    assert h[|h| - 1] == last;
    RunAppend(mode, prefix, last);
    RunIsOrdered(mode, prefix, last);
    FirstIsBest(mode, f.(window := last.window), last.sample);
    var i0, i1, i2 := RunTracks(mode, h);
    var first := Run(mode, h).s0;
    assert h[i0].sample == first && InWindow(h, i0);
    if SampleHolds(mode, f, h) {
      var t :=
        if HoldsExtremum(mode, h, last.sample) then last.sample
        else if HoldsExtremum(mode, h, f.s0) then f.s0
        else if HoldsExtremum(mode, h, f.s1) then f.s1
        else f.s2;
      assert HoldsExtremum(mode, h, t) && Better(mode, first.value, t.value);
      AsGoodIsExtremum(mode, h, i0, t);
    }
  }

  /** The left edge of the window never moves back. */
  ghost predicate EdgeForward(history: seq<Step>) {
    forall i, j :: 0 <= i < j < |history| ==>
      history[i].sample.time - history[i].window <= history[j].sample.time - history[j].window
  }

  /** With one window for the whole run it does not. */
  lemma FixedWindowEdge(history: seq<Step>, window: nat)
    requires TimesNondecreasing(history) && forall j :: 0 <= j < |history| ==> history[j].window == window
    ensures EdgeForward(history)
  {
  }

  /**
   Before an update: the new sample ties or beats the first, or the first stays in the window,
   or the filter has a sample to fall back on that holds the extremum.
   */
  ghost predicate FallsBackWell(mode: Mode, prefix: seq<Step>, last: Step) {
    var f := Run(mode, prefix);
    || Better(mode, last.sample.value, f.s0.value)
    || (f.s0.value != 0 && last.sample.time - f.s0.time <= last.window)
    || SampleHolds(mode, f, prefix + [last])
  }

  ghost predicate WindowExactThroughout(mode: Mode, history: seq<Step>) {
    history != [] ==>
      && IsWindowExtremum(mode, history, Run(mode, history).s0.value)
      && WindowExactThroughout(mode, history[..|history| - 1])
  }

  ghost predicate FallsBackThroughout(mode: Mode, history: seq<Step>) {
    |history| > 1 ==>
      && FallsBackWell(mode, history[..|history| - 1], history[|history| - 1])
      && FallsBackThroughout(mode, history[..|history| - 1])
  }

  /** What the window holds before the new sample was in the window before. */
  lemma StillInWindow(prefix: seq<Step>, last: Step, j: nat)
    requires prefix != [] && EdgeForward(prefix + [last]) && j < |prefix| && InWindow(prefix + [last], j)
    ensures InWindow(prefix, j)
  {
    var h := prefix + [last];
    assert h[j] == prefix[j] && h[|prefix| - 1] == prefix[|prefix| - 1] && h[|prefix|] == last;
  }

  /** A sample of the window that ties or beats both the old extremum and the new sample is the new extremum. */
  lemma BeatsBoth(mode: Mode, prefix: seq<Step>, last: Step, v: nat, i: nat)
    requires prefix != [] && EdgeForward(prefix + [last]) && IsWindowExtremum(mode, prefix, v)
    requires i <= |prefix| && InWindow(prefix + [last], i)
    requires
      var w := (prefix + [last])[i].sample.value;
      Better(mode, w, v) && Better(mode, w, last.sample.value)
    ensures IsWindowExtremum(mode, prefix + [last], (prefix + [last])[i].sample.value)
  {
    var h := prefix + [last];
    forall j | 0 <= j < |h| && InWindow(h, j)
      ensures Better(mode, h[i].sample.value, h[j].sample.value)
    {
      if j < |prefix| {
        StillInWindow(prefix, last, j);
        assert h[j] == prefix[j];
      }
    }
  }

  /** From an exact estimate, the two plain cases lead to an exact one. */
  lemma PlainCaseHolds(mode: Mode, prefix: seq<Step>, last: Step)
    requires prefix != [] && TimesNondecreasing(prefix + [last]) && EdgeForward(prefix + [last])
    requires IsWindowExtremum(mode, prefix, Run(mode, prefix).s0.value)
    requires FallsBackWell(mode, prefix, last)
    ensures SampleHolds(mode, Run(mode, prefix), prefix + [last])
  {
    hide Run, IsWindowExtremum, TimesNondecreasing, EdgeForward;
    var h, f, n := prefix + [last], Run(mode, prefix), |prefix|;
    assert h[n] == last;
    if Better(mode, last.sample.value, f.s0.value) {
      BeatsBoth(mode, prefix, last, f.s0.value, n);
    } else if f.s0.value != 0 && last.sample.time - f.s0.time <= last.window {
      PrefixNondecreasing(prefix, last);
      var i0, i1, i2 := RunTracks(mode, prefix);
      assert h[i0] == prefix[i0] && h[i0].sample == f.s0;
      BeatsBoth(mode, prefix, last, f.s0.value, i0);
    }
  }

  lemma PrefixNondecreasing(prefix: seq<Step>, last: Step)
    ensures TimesNondecreasing(prefix + [last]) ==> TimesNondecreasing(prefix)
    ensures EdgeForward(prefix + [last]) ==> EdgeForward(prefix)
  {
    assert forall j :: 0 <= j < |prefix| ==> (prefix + [last])[j] == prefix[j];
  }

  lemma OneIsExact(mode: Mode, step: Step)
    ensures IsWindowExtremum(mode, [step], Run(mode, [step]).s0.value)
  {
    hide Run;
    RunOne(mode, step);
    assert InWindow([step], 0);
  }

  /**
   For every run with nondecreasing times and a left window edge that never moves back: the
   estimate is the windowed extremum after every update if and only if before every update the
   new sample ties or beats the first, the first stays in the window, or the filter has a sample
   to fall back on.
   */
  lemma {:induction false} FallbackIff(mode: Mode, history: seq<Step>)
    requires TimesNondecreasing(history) && EdgeForward(history)
    ensures WindowExactThroughout(mode, history) <==> FallsBackThroughout(mode, history)
    decreases |history|
  {
    hide Run, IsWindowExtremum, SampleHolds, TimesNondecreasing, EdgeForward, FallsBackWell;
    if history != [] {
      var prefix, last := history[..|history| - 1], history[|history| - 1];
      assert history == prefix + [last];
      PrefixNondecreasing(prefix, last);
      FallbackIff(mode, prefix);
      if prefix == [] {
        assert history == [last];
        OneIsExact(mode, last);
      } else {
        WindowExactIff(mode, prefix, last);
        SampleFallsBack(mode, prefix, last);
        if WindowExactThroughout(mode, prefix) && FallsBackWell(mode, prefix, last) {
          PlainCaseHolds(mode, prefix, last);
        }
      }
    }
  }

  lemma SampleFallsBack(mode: Mode, prefix: seq<Step>, last: Step)
    ensures SampleHolds(mode, Run(mode, prefix), prefix + [last]) ==> FallsBackWell(mode, prefix, last)
  {
  }

  // ----- When the second and third samples are taken

  /**
   A first sample that stays is joined by a later second one after a quarter of the window; after
   half of it the third is later than the second, or both are as late as the newest.
   */
  lemma OthersAreLater(mode: Mode, f: Filter, s: Sample)
    requires Ordered(mode, f, s) && f.s0.value != 0
    ensures
      var g := Update(mode, f, s);
      g.s0 == f.s0 ==>
        && (s.time - f.s0.time > f.window / 4 ==> g.s1.time > g.s0.time)
        && (s.time - f.s0.time > f.window / 2 ==> g.s2.time > g.s1.time || g.s1.time == g.s2.time == s.time)
  {
  }

  /** Entry `k` comes more than a quarter, or half, of the window after entry `r`. */
  predicate Late(history: seq<Step>, r: nat, k: nat)
    requires r < |history| && k < |history|
  {
    history[k].sample.time - history[r].sample.time > history[k].window / 4
  }

  predicate VeryLate(history: seq<Step>, r: nat, k: nat)
    requires r < |history| && k < |history|
  {
    history[k].sample.time - history[r].sample.time > history[k].window / 2
  }

  /** The latest entry keeps entry `r` first: it neither ties nor beats it, and finds it in the window. */
  predicate KeepsFirst(mode: Mode, history: seq<Step>, r: nat)
    requires history != [] && r < |history|
  {
    var x, last := history[r].sample, history[|history| - 1];
    x.value != 0 && !Better(mode, last.sample.value, x.value) && last.sample.time - x.time <= last.window
  }

  /** The filter started anew at entry `r`, which has stayed first since. */
  ghost predicate Stays(mode: Mode, history: seq<Step>, r: nat) {
    && r < |history|
    && if |history| == r + 1 then
         var f := Run(mode, history);
         f.s0 == f.s1 == f.s2 == history[r].sample
       else
         KeepsFirst(mode, history, r) && Stays(mode, history[..|history| - 1], r)
  }

  /** `q` is the first entry late after `r`, or the end if there is none. */
  ghost predicate FirstLate(history: seq<Step>, r: nat, q: nat) {
    && r < q <= |history|
    && (q < |history| ==> Late(history, r, q))
    && forall k :: r < k < q ==> !Late(history, r, k)
  }

  /** `t` is the latest entry, `i`, that holds the extremum from entry `q` on. */
  ghost predicate LatestBest(mode: Mode, history: seq<Step>, q: nat, i: nat, t: Sample) {
    && q <= i < |history|
    && history[i].sample == t
    && (forall k :: q <= k < |history| ==> Better(mode, t.value, history[k].sample.value))
    && (forall k :: i < k < |history| ==> !Better(mode, history[k].sample.value, t.value))
  }

  /** `q` is the first entry after `i`, and later than it, that is very late after `r`, or the end. */
  ghost predicate FirstVeryLate(history: seq<Step>, r: nat, i: nat, q: nat)
    requires r < |history| && i < |history|
  {
    && i < q <= |history|
    && (q < |history| ==> VeryLate(history, r, q) && history[q].sample.time > history[i].sample.time)
    && forall k :: i < k < q ==> !(VeryLate(history, r, k) && history[k].sample.time > history[i].sample.time)
  }

  ghost predicate FixedWindow(history: seq<Step>) {
    forall i, j :: 0 <= i < j < |history| ==> history[i].window == history[j].window
  }

  /** The second sample of a stay: the extremum of the entries from the first late one on. */
  ghost predicate SecondLaw(mode: Mode, history: seq<Step>, r: nat, f: Filter, q: nat, i1: nat) {
    && FirstLate(history, r, q)
    && if q == |history| then f.s1 == f.s2 == history[r].sample
       else LatestBest(mode, history, q, i1, f.s1)
  }

  /** The third one: the extremum of the entries from the first very late one after the second on. */
  ghost predicate ThirdLaw(mode: Mode, history: seq<Step>, r: nat, f: Filter, i1: nat, q2: nat, i2: nat)
    requires r < |history| && i1 < |history|
  {
    && FirstVeryLate(history, r, i1, q2)
    && if q2 == |history| then
         f.s2.time == f.s1.time && (f.s2 == f.s1 || VeryLate(history, r, i1))
       else LatestBest(mode, history, q2, i2, f.s2)
  }

  lemma {:induction false} StayKeepsFirst(mode: Mode, history: seq<Step>, r: nat)
    requires TimesNondecreasing(history) && Stays(mode, history, r)
    ensures Run(mode, history).s0 == history[r].sample
    decreases |history|
  {
    hide Run, Update;
    if |history| > r + 1 {
      var prefix, last := SplitLast(history);
      assert history[..|history| - 1] == prefix;
      StayKeepsFirst(mode, prefix, r);
      RunIsOrdered(mode, prefix, last);
      UpdateKeepsFirst(mode, Run(mode, prefix).(window := last.window), last.sample);
    }
  }

  /** One update of a stay without late entries so far. */
  lemma SecondAppears(mode: Mode, f: Filter, x: Sample, s: Sample)
    requires f.s0 == f.s1 == f.s2 == x && x.value != 0 && x.time <= s.time <= x.time + f.window
    requires !Better(mode, s.value, x.value)
    ensures
      var g := Update(mode, f, s);
      if s.time - x.time > f.window / 4 then g.s1 == g.s2 == s else g.s1 == g.s2 == x
  {
  }

  /** One update of a stay that has a second sample. */
  lemma SecondMoves(mode: Mode, f: Filter, s: Sample)
    requires Ordered(mode, f, s) && f.s0.time < f.s1.time && f.s0.value != 0
    requires s.time <= f.s0.time + f.window && !Better(mode, s.value, f.s0.value)
    ensures
      var g := Update(mode, f, s);
      var third := f.s2.time == f.s1.time && s.time - f.s0.time > f.window / 2;
      if Better(mode, s.value, f.s1.value) then g.s1 == g.s2 == s
      else
        && g.s1 == f.s1
        && g.s2 == if Better(mode, s.value, f.s2.value) || third then s else f.s2
  {
  }

  lemma LatestBestAppend(mode: Mode, prefix: seq<Step>, last: Step, q: nat, i: nat, t: Sample)
    requires LatestBest(mode, prefix, q, i, t)
    ensures
      if Better(mode, last.sample.value, t.value)
      then LatestBest(mode, prefix + [last], q, |prefix|, last.sample)
      else LatestBest(mode, prefix + [last], q, i, t)
  {
    var h := prefix + [last];
    assert forall j :: 0 <= j < |prefix| ==> h[j] == prefix[j];
    assert h[|prefix|] == last;
  }

  lemma LatestBestNew(mode: Mode, prefix: seq<Step>, last: Step)
    ensures LatestBest(mode, prefix + [last], |prefix|, |prefix|, last.sample)
  {
  }

  lemma FirstLateAppend(prefix: seq<Step>, last: Step, r: nat, q: nat)
    requires FirstLate(prefix, r, q) && r < |prefix|
    ensures
      FirstLate(prefix + [last], r,
                if q < |prefix| || Late(prefix + [last], r, |prefix|) then q else |prefix| + 1)
  {
    var h := prefix + [last];
    assert forall j :: 0 <= j < |prefix| ==> h[j] == prefix[j];
    assert forall k :: r < k < |prefix| ==> (Late(h, r, k) <==> Late(prefix, r, k));
  }

  /**
   While a first sample stays, from the moment the filter started anew with it: the second sample
   is the latest entry that holds the extremum of all entries from the first one on that comes
   more than a quarter of the window later; until then it is the first sample itself.
   */
  lemma {:induction false} StaySecond(mode: Mode, history: seq<Step>, r: nat) returns (q: nat, i1: nat)
    requires TimesNondecreasing(history) && Stays(mode, history, r)
    ensures SecondLaw(mode, history, r, Run(mode, history), q, i1)
    decreases |history|
  {
    hide Run, Update, FirstLate, LatestBest;
    if |history| == r + 1 {
      q, i1 := r + 1, r;
      NothingLate(history, r);
    } else {
      var prefix, last := SplitLast(history);
      assert history[..|history| - 1] == prefix;
      q, i1 := StaySecond(mode, prefix, r);
      StaySecondNext(mode, prefix, last, r, q, i1);
      var n, g := |prefix|, Run(mode, history);
      if q == n {
        if Late(history, r, n) {
          i1 := n;
        } else {
          q := n + 1;
        }
      } else if Better(mode, last.sample.value, Run(mode, prefix).s1.value) {
        i1 := n;
      }
    }
  }

  lemma NothingLate(history: seq<Step>, r: nat)
    requires |history| == r + 1
    ensures FirstLate(history, r, r + 1)
  {
  }

  lemma SecondLater(mode: Mode, history: seq<Step>, r: nat, f: Filter, q: nat, i1: nat)
    requires TimesNondecreasing(history) && r < |history| && SecondLaw(mode, history, r, f, q, i1) && q < |history|
    ensures history[r].sample.time < f.s1.time
  {
    assert history[r].sample.time < history[q].sample.time <= history[i1].sample.time;
  }

  lemma StaySecondNext(mode: Mode, prefix: seq<Step>, last: Step, r: nat, q: nat, i1: nat)
    requires TimesNondecreasing(prefix + [last]) && Stays(mode, prefix + [last], r) && r < |prefix|
    requires Stays(mode, prefix, r) && SecondLaw(mode, prefix, r, Run(mode, prefix), q, i1)
    ensures
      var h, n := prefix + [last], |prefix|;
      if q == n then
        if Late(h, r, n) then SecondLaw(mode, h, r, Run(mode, h), n, n)
        else SecondLaw(mode, h, r, Run(mode, h), n + 1, i1)
      else
        SecondLaw(mode, h, r, Run(mode, h), q,
                  if Better(mode, last.sample.value, Run(mode, prefix).s1.value) then n else i1)
  {
    hide Run, Update, FirstLate, LatestBest, TimesNondecreasing;
    var h, n, f := prefix + [last], |prefix|, Run(mode, prefix).(window := last.window);
    assert h[n] == last && h[r] == prefix[r];
    PrefixNondecreasing(prefix, last);
    StayKeepsFirst(mode, prefix, r);
    RunAppend(mode, prefix, last);
    RunIsOrdered(mode, prefix, last);
    FirstLateAppend(prefix, last, r, q);
    LatestBestNew(mode, prefix, last);
    FirstLateRange(prefix, r, q);
    if q == n {
      SecondAppears(mode, f, h[r].sample, last.sample);
    } else {
      SecondLater(mode, prefix, r, f, q, i1);
      SecondMoves(mode, f, last.sample);
      LatestBestAppend(mode, prefix, last, q, i1, f.s1);
    }
  }

  lemma FirstLateRange(history: seq<Step>, r: nat, q: nat)
    requires FirstLate(history, r, q)
    ensures r < q <= |history|
  {
  }

  lemma FirstVeryLateAppend(prefix: seq<Step>, last: Step, r: nat, i: nat, q: nat)
    requires r < |prefix| && i < |prefix| && FirstVeryLate(prefix, r, i, q)
    ensures
      var h, n := prefix + [last], |prefix|;
      var here := VeryLate(h, r, n) && last.sample.time > h[i].sample.time;
      FirstVeryLate(h, r, i, if q < n || here then q else n + 1)
  {
    var h := prefix + [last];
    assert forall j :: 0 <= j < |prefix| ==> h[j] == prefix[j];
    assert forall k :: i < k < |prefix| ==> (VeryLate(h, r, k) <==> VeryLate(prefix, r, k));
  }

  lemma NothingVeryLate(history: seq<Step>, r: nat, i: nat)
    requires r < |history| && i + 1 == |history|
    ensures FirstVeryLate(history, r, i, i + 1)
  {
  }

  /** What one update of a stay does to the third sample, given where the second one is. */
  lemma ThirdNext(mode: Mode, prefix: seq<Step>, last: Step, r: nat, i1: nat, q2: nat, i2: nat, f: Filter, g: Filter)
    requires TimesNondecreasing(prefix + [last]) && FixedWindow(prefix + [last])
    requires r < |prefix| && i1 < |prefix| && ThirdLaw(mode, prefix, r, f, i1, q2, i2)
    requires f.s0 == prefix[r].sample && f.s1 == prefix[i1].sample == g.s1
    requires !Better(mode, last.sample.value, f.s1.value) && f.window == last.window
    requires
      var third := f.s2.time == f.s1.time && last.sample.time - f.s0.time > f.window / 2;
      g.s2 == if Better(mode, last.sample.value, f.s2.value) || third then last.sample else f.s2
    ensures
      var h, n := prefix + [last], |prefix|;
      if q2 < n then
        ThirdLaw(mode, h, r, g, i1, q2, if Better(mode, last.sample.value, f.s2.value) then n else i2)
      else if VeryLate(h, r, n) && last.sample.time > h[i1].sample.time then ThirdLaw(mode, h, r, g, i1, n, n)
      else ThirdLaw(mode, h, r, g, i1, n + 1, n)
  {
    hide LatestBest;
    var h, n := prefix + [last], |prefix|;
    assert h[n] == last && h[r] == prefix[r] && h[i1] == prefix[i1];
    assert h[i1].window == h[n].window;
    FirstVeryLateAppend(prefix, last, r, i1, q2);
    LatestBestNew(mode, prefix, last);
    assert VeryLate(h, r, i1) <==> VeryLate(prefix, r, i1);
    if q2 < n {
      LatestBestAppend(mode, prefix, last, q2, i2, f.s2);
      ThirdLater(mode, prefix, last, r, f, i1, q2, i2);
    }
  }

  lemma ThirdLater(
    mode: Mode, prefix: seq<Step>, last: Step, r: nat, f: Filter, i1: nat, q2: nat, i2: nat)
    requires TimesNondecreasing(prefix + [last]) && r < |prefix| && i1 < |prefix|
    requires ThirdLaw(mode, prefix, r, f, i1, q2, i2) && q2 < |prefix|
    ensures prefix[i1].sample.time < f.s2.time
  {
    var h := prefix + [last];
    assert h[q2] == prefix[q2] && h[i2] == prefix[i2];
    assert h[q2].sample.time <= h[i2].sample.time;
  }

  lemma {:induction false} StayAgain(mode: Mode, history: seq<Step>, r: nat, g: Filter, i1: nat)
    requires r < |history| && i1 + 1 == |history| && g.s1 == g.s2
    ensures ThirdLaw(mode, history, r, g, i1, i1 + 1, i1)
  {
    NothingVeryLate(history, r, i1);
  }

  /**
   While a first sample stays and the window with it: the second sample is as above, and the third
   is the latest entry that holds the extremum of the entries from the first one on that is later
   than the second sample and more than half of the window later than the first.
   */
  lemma {:induction false} StayThird(mode: Mode, history: seq<Step>, r: nat)
    returns (q: nat, i1: nat, q2: nat, i2: nat)
    requires TimesNondecreasing(history) && FixedWindow(history) && Stays(mode, history, r)
    ensures SecondLaw(mode, history, r, Run(mode, history), q, i1)
    ensures q < |history| ==> i1 < |history| && ThirdLaw(mode, history, r, Run(mode, history), i1, q2, i2)
    decreases |history|
  {
    hide Run, Update, FirstLate, LatestBest, ThirdLaw, TimesNondecreasing, FixedWindow;
    if |history| == r + 1 {
      q, i1, q2, i2 := r + 1, r, r + 1, r;
      NothingLate(history, r);
    } else {
      var prefix, last := SplitLast(history);
      assert history[..|history| - 1] == prefix;
      FixedPrefix(prefix, last);
      q, i1, q2, i2 := StayThird(mode, prefix, r);
      StaySecondNext(mode, prefix, last, r, q, i1);
      FirstLateRange(prefix, r, q);
      var n, f, g := |prefix|, Run(mode, prefix).(window := last.window), Run(mode, history);
      RunIsOrdered(mode, prefix, last);
      StayKeepsFirst(mode, prefix, r);
      if q == n {
        SecondAppears(mode, f, prefix[r].sample, last.sample);
        if Late(history, r, n) {
          i1, q2, i2 := n, n + 1, n;
          StayAgain(mode, history, r, g, n);
        } else {
          q := n + 1;
        }
      } else {
        LatestBestAt(mode, prefix, q, i1, f.s1);
        SecondLater(mode, prefix, r, f, q, i1);
        SecondMoves(mode, f, last.sample);
        if Better(mode, last.sample.value, f.s1.value) {
          i1, q2, i2 := n, n + 1, n;
          StayAgain(mode, history, r, g, n);
        } else {
          ThirdWindow(mode, prefix, r, Run(mode, prefix), f, i1, q2, i2);
          ThirdNext(mode, prefix, last, r, i1, q2, i2, f, g);
          if q2 < n {
            i2 := if Better(mode, last.sample.value, f.s2.value) then n else i2;
          } else if VeryLate(history, r, n) && last.sample.time > history[i1].sample.time {
            q2, i2 := n, n;
          } else {
            q2, i2 := n + 1, n;
          }
        }
      }
    }
  }

  /** The window the filter was left with does not matter for the law, and the entries it names exist. */
  lemma ThirdWindow(mode: Mode, history: seq<Step>, r: nat, f: Filter, g: Filter, i1: nat, q2: nat, i2: nat)
    requires r < |history| && i1 < |history| && ThirdLaw(mode, history, r, f, i1, q2, i2)
    requires g.s1 == f.s1 && g.s2 == f.s2
    ensures ThirdLaw(mode, history, r, g, i1, q2, i2) && q2 <= |history|
  {
  }

  lemma LatestBestAt(mode: Mode, history: seq<Step>, q: nat, i: nat, t: Sample)
    requires LatestBest(mode, history, q, i, t)
    ensures q <= i < |history| && history[i].sample == t
  {
  }

  lemma FixedPrefix(prefix: seq<Step>, last: Step)
    requires FixedWindow(prefix + [last])
    ensures FixedWindow(prefix)
  {
    assert forall j :: 0 <= j < |prefix| ==> (prefix + [last])[j] == prefix[j];
  }

  /** The second sample stands for every entry more than a quarter of the window later than the first. */
  ghost predicate SecondCovers(mode: Mode, history: seq<Step>, f: Filter) {
    forall j :: 0 <= j < |history| && history[j].sample.time - f.s0.time > history[j].window / 4 ==>
      f.s1.time > f.s0.time && Better(mode, f.s1.value, history[j].sample.value)
  }

  /** It does when the filter starts anew. */
  lemma RestartCovers(mode: Mode, history: seq<Step>, f: Filter)
    requires history != [] && TimesNondecreasing(history) && f.s0 == history[|history| - 1].sample
    ensures SecondCovers(mode, history, f)
  {
  }

  /** `v` ties or beats every entry more than a quarter of the window later than `x`. */
  ghost predicate BeatsLate(mode: Mode, history: seq<Step>, x: Sample, v: nat) {
    forall j :: 0 <= j < |history| && history[j].sample.time - x.time > history[j].window / 4 ==>
      Better(mode, v, history[j].sample.value)
  }

  /**
   Whichever way a sample came first: while it stays, with one window, the second sample stands
   for all late entries if and only if it did before the update or the new sample beats them all.
   */
  lemma StayCoversIff(mode: Mode, prefix: seq<Step>, last: Step)
    requires prefix != [] && TimesNondecreasing(prefix + [last]) && FixedWindow(prefix + [last])
    requires
      var x := Run(mode, prefix).s0;
      x.value != 0 && !Better(mode, last.sample.value, x.value) && last.sample.time - x.time <= last.window
    ensures
      SecondCovers(mode, prefix + [last], Run(mode, prefix + [last])) <==>
      || SecondCovers(mode, prefix, Run(mode, prefix))
      || BeatsLate(mode, prefix, Run(mode, prefix).s0, last.sample.value)
  {
    hide Run, Update, SecondCovers, BeatsLate, TimesNondecreasing, FixedWindow;
    var f := Run(mode, prefix).(window := last.window);
    RunAppend(mode, prefix, last);
    RunIsOrdered(mode, prefix, last);
    StaySecondUpdate(mode, f, last.sample);
    CoversWindow(mode, prefix, Run(mode, prefix), f);
    LateCovered(mode, prefix, last, f, Run(mode, prefix + [last]));
  }

  lemma CoversWindow(mode: Mode, history: seq<Step>, f: Filter, g: Filter)
    requires f.s0 == g.s0 && f.s1 == g.s1
    ensures SecondCovers(mode, history, f) <==> SecondCovers(mode, history, g)
  {
  }

  lemma LateCovered(mode: Mode, prefix: seq<Step>, last: Step, f: Filter, g: Filter)
    requires TimesNondecreasing(prefix + [last]) && FixedWindow(prefix + [last])
    requires g.s0 == f.s0 && f.s0.time <= f.s1.time && !Better(mode, last.sample.value, f.s0.value)
    requires
      var late := last.sample.time - f.s0.time > last.window / 4;
      g.s1 ==
      if Better(mode, last.sample.value, f.s1.value) || (f.s1.time == f.s0.time && late) then last.sample else f.s1
    ensures
      SecondCovers(mode, prefix + [last], g) <==>
      SecondCovers(mode, prefix, f) || BeatsLate(mode, prefix, f.s0, last.sample.value)
  {
    var h, n := prefix + [last], |prefix|;
    assert h[n] == last && forall j :: 0 <= j < n ==> h[j] == prefix[j];
    assert forall j :: 0 <= j < n ==> h[j].window == h[n].window && h[j].sample.time <= h[n].sample.time;
    hide TimesNondecreasing, FixedWindow;
    if SecondCovers(mode, h, g) {
      assert SecondCovers(mode, prefix, f) || BeatsLate(mode, prefix, f.s0, last.sample.value);
    } else {
      var j :| 0 <= j < |h| && h[j].sample.time - g.s0.time > h[j].window / 4
               && !(g.s1.time > g.s0.time && Better(mode, g.s1.value, h[j].sample.value));
      assert last.sample.time - f.s0.time > last.window / 4;
      assert j < n;
    }
  }

  lemma StaySecondUpdate(mode: Mode, f: Filter, s: Sample)
    requires Ordered(mode, f, s) && f.s0.value != 0
    requires s.time <= f.s0.time + f.window && !Better(mode, s.value, f.s0.value)
    ensures
      var g := Update(mode, f, s);
      && g.s0 == f.s0
      && g.s1 ==
         if Better(mode, s.value, f.s1.value) || (f.s1.time == f.s0.time && s.time - f.s0.time > f.window / 4) then s
         else f.s1
  {
  }

  /**
   No sample in the window is lost unless the new one ties or beats it or another as good has its
   time; only a third sample behind two of the same time can be.
   */
  lemma NothingLost(mode: Mode, f: Filter, s: Sample, t: Sample)
    requires Ordered(mode, f, s) && f.s0.value != 0 && (t == f.s0 || t == f.s1 || t == f.s2)
    requires s.time - t.time <= f.window && !Better(mode, s.value, t.value)
    requires f.s0.time == f.s1.time ==> f.s1.time == f.s2.time
    ensures
      var g := Update(mode, f, s);
      || (g.s0.time == t.time && Better(mode, g.s0.value, t.value))
      || (g.s1.time == t.time && Better(mode, g.s1.value, t.value))
      || (g.s2.time == t.time && Better(mode, g.s2.value, t.value))
  {
  }

  /** The newest sample is the third one, unless it is worse than the third and needs no place. */
  lemma NewestTaken(mode: Mode, f: Filter, s: Sample)
    requires Ordered(mode, f, s)
    ensures
      var g := Update(mode, f, s);
      || g.s2 == s
      || (g == f && !Better(mode, s.value, f.s2.value) && s.time - f.s0.time <= f.window)
  {
  }

  /**
   A sample that came first by a rotation need not have a second one that stands for the late
   entries: with a window of 8 the sample of value 30 taken at time 8 is passed over.
   */
  lemma RotationSkips(history: seq<Step>)
    requires history == [Step(8, Sample(0, 100)), Step(8, Sample(3, 50)), Step(8, Sample(5, 40)),
                         Step(8, Sample(8, 30)), Step(8, Sample(12, 20))]
    ensures TimesNondecreasing(history) && FixedWindow(history)
    ensures Run(Max, history) == Filter(8, Sample(5, 40), Sample(12, 20), Sample(12, 20))
    ensures !SecondCovers(Max, history, Run(Max, history))
  {
    hide Run;
    assert history[..1] == [history[0]];
    RunOne(Max, history[0]);
    RunAppend(Max, history[..1], history[1]);
    assert history[..2] == history[..1] + [history[1]];
    RunAppend(Max, history[..2], history[2]);
    assert history[..3] == history[..2] + [history[2]];
    assert Run(Max, history[..3]) == Filter(8, Sample(0, 100), Sample(3, 50), Sample(5, 40));
    RunAppend(Max, history[..3], history[3]);
    assert history[..4] == history[..3] + [history[3]];
    RunAppend(Max, history[..4], history[4]);
    assert history == history[..4] + [history[4]];
    assert history[3].sample.time - 5 > history[3].window / 4;
  }

  // ----- When the estimate is the extremum of all samples

  /** `v` is the exact extremum of the entries from `start` on. */
  ghost predicate CoversFrom(mode: Mode, history: seq<Step>, start: nat, v: nat) {
    && (exists j :: start <= j < |history| && history[j].sample.value == v)
    && (forall j :: start <= j < |history| ==> Better(mode, v, history[j].sample.value))
  }

  /**
   Where the filter begins to count: at the first entry for a maximum, and after the last zero
   before the latest entry for a minimum, because a zero is taken for "uninitialised" and
   forgotten by the next sample.
   */
  function Since(mode: Mode, history: seq<Step>): (start: nat)
    requires history != []
    ensures start < |history|
  {
    if mode == Max || |history| == 1 then 0
    else if history[|history| - 2].sample.value == 0 then |history| - 1
    else Since(mode, history[..|history| - 1])
  }

  lemma {:induction false} SinceMeans(history: seq<Step>)
    requires history != []
    ensures Since(Min, history) > 0 ==> history[Since(Min, history) - 1].sample.value == 0
    ensures forall j :: Since(Min, history) <= j < |history| - 1 ==> history[j].sample.value != 0
    decreases |history|
  {
    if |history| > 1 && history[|history| - 2].sample.value != 0 {
      var prefix := history[..|history| - 1];
      SinceMeans(prefix);
      assert forall j :: 0 <= j < |prefix| ==> prefix[j] == history[j];
    }
  }

  /** The estimate is the extremum of all entries the filter counts. */
  ghost predicate Exact(mode: Mode, history: seq<Step>)
    requires history != []
  {
    CoversFrom(mode, history, Since(mode, history), Run(mode, history).s0.value)
  }

  /** Some entry that holds this extremum is inside the window. */
  ghost predicate ExtremumAtHand(mode: Mode, history: seq<Step>)
    requires history != []
  {
    exists j ::
      && Since(mode, history) <= j < |history|
      && InWindow(history, j)
      && CoversFrom(mode, history, Since(mode, history), history[j].sample.value)
  }

  ghost predicate ExactThroughout(mode: Mode, history: seq<Step>) {
    history != [] ==> Exact(mode, history) && ExactThroughout(mode, history[..|history| - 1])
  }

  ghost predicate AtHandThroughout(mode: Mode, history: seq<Step>) {
    history != [] ==> ExtremumAtHand(mode, history) && AtHandThroughout(mode, history[..|history| - 1])
  }

  lemma ExactIsAtHand(mode: Mode, history: seq<Step>)
    requires history != [] && TimesNondecreasing(history) && Exact(mode, history)
    ensures ExtremumAtHand(mode, history)
  {
    hide Run, Since;
    var start, v := Since(mode, history), Run(mode, history).s0.value;
    var i0, i1, i2 := RunTracks(mode, history);
    if i0 >= start {
      assert InWindow(history, i0) && history[i0].sample.value == v;
    } else {
      assert mode == Min by {
        SinceMax(mode, history);
      }
      SinceMeans(history);
      assert Better(Min, v, history[start - 1].sample.value);
      var j :| start <= j < |history| && history[j].sample.value == v;
      assert j == |history| - 1 && InWindow(history, j);
    }
  }

  lemma SinceMax(mode: Mode, history: seq<Step>)
    requires history != []
    ensures mode == Max ==> Since(mode, history) == 0
  {
  }

  /** The first sample is the latest entry that holds the extremum: ties restart the filter. */
  ghost predicate Latest(mode: Mode, history: seq<Step>, i: nat)
    requires history != []
  {
    && Since(mode, history) <= i < |history|
    && history[i].sample == Run(mode, history).s0
    && (forall j :: Since(mode, history) <= j < |history| ==>
          Better(mode, history[i].sample.value, history[j].sample.value))
    && (forall j :: i < j < |history| ==> !Better(mode, history[j].sample.value, history[i].sample.value))
  }

  /** An update that neither ties nor beats a first sample inside the window keeps it. */
  lemma UpdateKeepsFirst(mode: Mode, f: Filter, s: Sample)
    requires f.s0.value != 0 && !Better(mode, s.value, f.s0.value)
    requires f.s0.time <= f.s2.time <= s.time <= f.s0.time + f.window
    ensures Update(mode, f, s).s0 == f.s0
  {
  }

  lemma UpdateRestarts(mode: Mode, f: Filter, s: Sample)
    requires f.s2.time <= s.time && (f.s0.value == 0 || Better(mode, s.value, f.s0.value))
    ensures Update(mode, f, s).s0 == s
  {
  }

  /** Where the filter counts from after one more sample. */
  lemma SinceAppend(mode: Mode, prefix: seq<Step>, last: Step, i: nat)
    requires prefix != [] && Latest(mode, prefix, i)
    ensures
      Since(mode, prefix + [last]) ==
      if mode == Min && prefix[i].sample.value == 0 then |prefix| else Since(mode, prefix)
  {
    hide Run;
    var history := prefix + [last];
    assert history[..|history| - 1] == prefix;
    var end := prefix[|prefix| - 1];
    assert history[|history| - 2] == end;
    SinceMeans(prefix);
    assert Better(mode, prefix[i].sample.value, end.sample.value);
  }

  lemma LatestNext(mode: Mode, prefix: seq<Step>, i: nat, last: Step) returns (k: nat)
    requires prefix != [] && TimesNondecreasing(prefix + [last])
    requires Latest(mode, prefix, i) && ExtremumAtHand(mode, prefix + [last])
    ensures Latest(mode, prefix + [last], k)
  {
    hide Run, Since, Update;
    var history, n := prefix + [last], |prefix|;
    var f, s := Run(mode, prefix).(window := last.window), last.sample;
    assert forall j :: 0 <= j < n ==> history[j] == prefix[j];
    assert TimesNondecreasing(prefix);
    var i0, i1, i2 := RunTracks(mode, prefix);
    assert history[i0].sample == f.s0 && history[i2].sample == f.s2 && history[n] == last;
    RunAppend(mode, prefix, last);
    SinceAppend(mode, prefix, last, i);
    if f.s0.value == 0 || Better(mode, s.value, f.s0.value) {
      UpdateRestarts(mode, f, s);
      k := n;
    } else {
      HeldInWindow(mode, prefix, i, last);
      UpdateKeepsFirst(mode, f, s);
      k := i;
    }
  }

  /** If the extremum is in the window and the new sample does not hold it, the first sample is in the window. */
  lemma HeldInWindow(mode: Mode, prefix: seq<Step>, i: nat, last: Step)
    requires prefix != [] && TimesNondecreasing(prefix + [last])
    requires Latest(mode, prefix, i) && ExtremumAtHand(mode, prefix + [last])
    requires prefix[i].sample.value != 0 && !Better(mode, last.sample.value, prefix[i].sample.value)
    ensures last.sample.time <= prefix[i].sample.time + last.window
  {
    hide Run, Since;
    var history, n := prefix + [last], |prefix|;
    assert forall j :: 0 <= j < n ==> history[j] == prefix[j];
    assert history[n] == last;
    SinceAppend(mode, prefix, last, i);
    var j :| Since(mode, history) <= j < |history| && InWindow(history, j)
             && CoversFrom(mode, history, Since(mode, history), history[j].sample.value);
    assert Better(mode, history[j].sample.value, history[i].sample.value);
    assert j < n && j <= i;
  }

  lemma {:induction false} AtHandIsLatest(mode: Mode, history: seq<Step>) returns (i: nat)
    requires history != [] && TimesNondecreasing(history) && AtHandThroughout(mode, history)
    ensures Latest(mode, history, i)
    decreases |history|
  {
    hide Run, ExtremumAtHand, Latest, TimesNondecreasing;
    var prefix, last := SplitLast(history);
    assert history[..|history| - 1] == prefix;
    if prefix == [] {
      assert history == [last];
      LatestOne(mode, last);
      i := 0;
    } else {
      i := AtHandIsLatest(mode, prefix);
      i := LatestNext(mode, prefix, i, last);
    }
  }

  lemma LatestOne(mode: Mode, step: Step)
    ensures Latest(mode, [step], 0)
  {
    hide Run;
    RunOne(mode, step);
  }

  lemma LatestIsExact(mode: Mode, history: seq<Step>, i: nat)
    requires history != [] && Latest(mode, history, i)
    ensures Exact(mode, history)
  {
    hide Run, Since;
  }

  /**
   For every run with nondecreasing times: after every update the estimate is the extremum of
   all samples, for the minimum those since the last zero, if and only if after every update
   some entry that holds this extremum is inside the window.
   */
  lemma {:induction false} ExactIff(mode: Mode, history: seq<Step>)
    requires TimesNondecreasing(history)
    ensures ExactThroughout(mode, history) <==> AtHandThroughout(mode, history)
    decreases |history|
  {
    hide Run, Update, Exact, ExtremumAtHand;
    if history != [] {
      var prefix, last := SplitLast(history);
      assert history[..|history| - 1] == prefix;
      ExactIff(mode, prefix);
      if Exact(mode, history) {
        ExactIsAtHand(mode, history);
      }
      if AtHandThroughout(mode, history) {
        var i := AtHandIsLatest(mode, history);
        LatestIsExact(mode, history, i);
      }
    }
  }

  // ----- The minimum of all samples

  ghost predicate CoversThroughout(mode: Mode, history: seq<Step>) {
    history != [] ==>
      && CoversFrom(mode, history, 0, Run(mode, history).s0.value)
      && CoversThroughout(mode, history[..|history| - 1])
  }

  /** After a zero there are only zeros. */
  ghost predicate ZerosLast(history: seq<Step>) {
    forall i, j :: 0 <= i < j < |history| && history[i].sample.value == 0 ==> history[j].sample.value == 0
  }

  /** With zeros only at the end, what the filter forgets does not matter. */
  lemma ZerosLastCovers(history: seq<Step>, v: nat)
    requires history != [] && ZerosLast(history)
    ensures CoversFrom(Min, history, 0, v) <==> CoversFrom(Min, history, Since(Min, history), v)
  {
    hide Since;
    var start := Since(Min, history);
    SinceMeans(history);
    if start > 0 {
      assert forall j :: start <= j < |history| ==> history[j].sample.value == 0;
      assert history[|history| - 1].sample.value == 0 == history[start - 1].sample.value;
    }
  }

  lemma CoversZerosLast(prefix: seq<Step>, last: Step)
    requires prefix != [] && TimesNondecreasing(prefix + [last]) && ZerosLast(prefix)
    requires CoversFrom(Min, prefix, 0, Run(Min, prefix).s0.value)
    requires CoversFrom(Min, prefix + [last], 0, Run(Min, prefix + [last]).s0.value)
    ensures ZerosLast(prefix + [last])
  {
    hide Run, Update;
    var history, n := prefix + [last], |prefix|;
    assert forall j :: 0 <= j < n ==> history[j] == prefix[j];
    if exists i :: 0 <= i < n && prefix[i].sample.value == 0 {
      var i :| 0 <= i < n && prefix[i].sample.value == 0;
      assert TimesNondecreasing(prefix);
      var i0, i1, i2 := RunTracks(Min, prefix);
      assert history[i2].sample == Run(Min, prefix).s2 && history[n] == last;
      RunAppend(Min, prefix, last);
      UpdateRestarts(Min, Run(Min, prefix).(window := last.window), last.sample);
      assert Better(Min, last.sample.value, history[i].sample.value);
    }
  }

  lemma ZerosLastPrefix(prefix: seq<Step>, last: Step)
    ensures ZerosLast(prefix + [last]) ==> ZerosLast(prefix)
    ensures prefix == [] ==> ZerosLast(prefix + [last])
  {
    assert forall j :: 0 <= j < |prefix| ==> (prefix + [last])[j] == prefix[j];
  }

  /**
   The estimate is the minimum of all samples after every update if and only if some entry that
   holds the minimum is always inside the window and no zero is followed by a positive sample.
   */
  lemma {:induction false} MinOfAllIff(history: seq<Step>)
    requires TimesNondecreasing(history)
    ensures CoversThroughout(Min, history) <==> AtHandThroughout(Min, history) && ZerosLast(history)
    decreases |history|
  {
    hide Run, Update, ExtremumAtHand, CoversFrom, Since, TimesNondecreasing;
    if history != [] {
      var prefix, last := SplitLast(history);
      assert history[..|history| - 1] == prefix;
      ZerosLastPrefix(prefix, last);
      MinOfAllIff(prefix);
      ExactIff(Min, history);
      ExactIff(Min, prefix);
      if CoversThroughout(Min, history) && prefix != [] {
        CoversZerosLast(prefix, last);
      }
      if ZerosLast(history) {
        ZerosLastCovers(history, Run(Min, history).s0.value);
        assert CoversFrom(Min, history, 0, Run(Min, history).s0.value) <==> Exact(Min, history);
      }
    }
  }

  /**
   As long as the minimum stayed at hand, the estimate is the minimum of all samples if and only
   if the latest sample is zero or none is.
   */
  lemma MinExactIff(history: seq<Step>)
    requires history != [] && TimesNondecreasing(history) && AtHandThroughout(Min, history)
    ensures CoversFrom(Min, history, 0, Run(Min, history).s0.value) <==>
            (history[|history| - 1].sample.value == 0 ||
             forall j :: 0 <= j < |history| ==> history[j].sample.value != 0)
  {
    hide Run, Since, AtHandThroughout, ExactThroughout;
    var start, v := Since(Min, history), Run(Min, history).s0.value;
    MinSinceLastZero(history);
    var j :| start <= j < |history| && history[j].sample.value == v;
    if start > 0 && history[|history| - 1].sample.value != 0 {
      assert v != 0 && !Better(Min, v, history[start - 1].sample.value);
    }
  }

  /** As long as the minimum stayed at hand, it is exact from the entry after the last zero on. */
  lemma MinSinceLastZero(history: seq<Step>)
    requires history != [] && TimesNondecreasing(history) && AtHandThroughout(Min, history)
    ensures
      var start := Since(Min, history);
      && CoversFrom(Min, history, start, Run(Min, history).s0.value)
      && (start > 0 ==> history[start - 1].sample.value == 0)
      && (forall j :: start <= j < |history| - 1 ==> history[j].sample.value != 0)
  {
    hide Run, CoversFrom, Since, AtHandThroughout;
    ExactIff(Min, history);
    SinceMeans(history);
  }

  // ----- Histories that fit in one window

  /** No entry is older than the first by more than the window then in force. */
  ghost predicate FitsOneWindow(history: seq<Step>) {
    && TimesNondecreasing(history)
    && forall j :: 0 <= j < |history| ==> history[j].sample.time - history[0].sample.time <= history[j].window
  }

  lemma FitsPrefix(prefix: seq<Step>, last: Step)
    requires FitsOneWindow(prefix + [last])
    ensures FitsOneWindow(prefix)
  {
    var history := prefix + [last];
    assert forall j :: 0 <= j < |prefix| ==> history[j] == prefix[j];
  }

  lemma {:induction false} BestExists(mode: Mode, history: seq<Step>, start: nat) returns (i: nat)
    requires start < |history|
    ensures start <= i < |history| && CoversFrom(mode, history, start, history[i].sample.value)
    decreases |history| - start
  {
    i := start;
    if start + 1 < |history| {
      var k := BestExists(mode, history, start + 1);
      i := if Better(mode, history[start].sample.value, history[k].sample.value) then start else k;
    }
  }

  lemma OneWindowOnce(mode: Mode, history: seq<Step>)
    requires history != [] && FitsOneWindow(history)
    ensures ExtremumAtHand(mode, history)
  {
    hide Since, CoversFrom;
    var i := BestExists(mode, history, Since(mode, history));
    assert history[0].sample.time <= history[i].sample.time;
    assert InWindow(history, i);
  }

  lemma {:induction false} OneWindowAtHand(mode: Mode, history: seq<Step>)
    requires FitsOneWindow(history)
    ensures AtHandThroughout(mode, history)
    decreases |history|
  {
    hide ExtremumAtHand, FitsOneWindow;
    if history != [] {
      var prefix, last := history[..|history| - 1], history[|history| - 1];
      assert history == prefix + [last];
      FitsPrefix(prefix, last);
      OneWindowAtHand(mode, prefix);
      OneWindowOnce(mode, history);
    }
  }

  /** Within one window the maximum filter is exact: its estimate is the maximum of all samples. */
  lemma MaxExactInOneWindow(history: seq<Step>)
    requires history != [] && FitsOneWindow(history)
    ensures CoversFrom(Max, history, 0, Run(Max, history).s0.value)
  {
    hide Run, CoversFrom;
    OneWindowAtHand(Max, history);
    ExactIff(Max, history);
  }

  // ----- The estimator

  class MinMax {
    var window: nat
    const samples: array<Sample>

    ghost predicate Valid()
      reads this
    {
      samples.Length == 3
    }

    /** The three samples and the window as a value. */
    ghost function Value(): Filter
      requires Valid()
      reads this, samples
    {
      Filter(window, samples[0], samples[1], samples[2])
    }

    constructor (window: nat)
      ensures Valid() && fresh(samples) && Value() == Fresh(window)
    {
      this.window := window;
      samples := new Sample[3](_ => UNSET);
    }

    method SetWindow(window: nat)
      requires Valid()
      modifies this`window
      ensures Value() == old(Value()).(window := window)
    {
      this.window := window;
    }

    method Reset(s: Sample)
      requires Valid()
      modifies samples
      ensures Value() == Filter(window, s, s, s)
    {
      for i := 0 to 3
        invariant forall k :: 0 <= k < i ==> samples[k] == s
      {
        samples[i] := s;
      }
    }

    method SubwinUpdate(s: Sample)
      requires Valid()
      modifies samples
      ensures Value() == Subwin(old(Value()), s)
    {
      var dt := SaturatingSub(s.time, samples[0].time);
      if dt > window {
        samples[0] := samples[1];
        samples[1] := samples[2];
        samples[2] := s;
        if SaturatingSub(s.time, samples[0].time) > window {
          samples[0] := samples[1];
          samples[1] := samples[2];
          samples[2] := s;
        }
      } else if samples[1].time == samples[0].time && dt > window / 4 {
        samples[2] := s;
        samples[1] := s;
      } else if samples[2].time == samples[1].time && dt > window / 2 {
        samples[2] := s;
      }
    }

    method UpdateMax(time: nat, value: nat)
      requires Valid()
      modifies samples
      ensures Value() == Update(Max, old(Value()), Sample(time, value))
    {
      if time < samples[2].time {
        return;
      }
      var s := Sample(time, value);
      if samples[0].value == 0 || s.value >= samples[0].value || SaturatingSub(s.time, samples[2].time) > window {
        Reset(s);
        return;
      }
      if s.value >= samples[1].value {
        samples[2] := s;
        samples[1] := s;
      } else if s.value >= samples[2].value {
        samples[2] := s;
      }
      SubwinUpdate(s);
    }

    method UpdateMin(time: nat, value: nat)
      requires Valid()
      modifies samples
      ensures Value() == Update(Min, old(Value()), Sample(time, value))
    {
      if time < samples[2].time {
        return;
      }
      var s := Sample(time, value);
      if samples[0].value == 0 || s.value <= samples[0].value || SaturatingSub(s.time, samples[2].time) > window {
        Reset(s);
        return;
      }
      if s.value <= samples[1].value {
        samples[2] := s;
        samples[1] := s;
      } else if s.value <= samples[2].value {
        samples[2] := s;
      }
      SubwinUpdate(s);
    }

    method Get() returns (v: nat)
      requires Valid()
      ensures v == Value().s0.value
    {
      v := samples[0].value;
    }
  }
}
