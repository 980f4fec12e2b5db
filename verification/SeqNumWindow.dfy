/**
 Duplicate detection over a sliding window of 128 packet numbers, src/window.rs; compare
 section 3.4.3 of RFC 4303.

 The 128-bit field is a sequence of bits, the least significant first. Bit `k` stands for the
 number `k` below the upper edge of the window.
 */
module SeqNumWindows {
  import opened Arithmetic

  const SIZE: nat := 128

  type Bits = b: seq<bool> | |b| == SIZE witness seq(SIZE, _ => false)

  datatype Window = Window(lower: nat, bits: Bits) {

    /** The window never reaches the largest 64-bit number. */
    predicate Valid() {
      lower + SIZE <= U64_MAX
    }

    function Upper(): nat {
      (if lower + SIZE <= U64_MAX then lower + SIZE else U64_MAX) - 1
    }

    function Contains(n: nat): bool
      requires Valid()
    {
      if n > Upper() then false
      else if n < lower then true
      else bits[Upper() - n]
    }

    /** How far the window has to move up for `n`. */
    function Jump(n: nat): nat {
      if n > Upper() then n - Upper() else 0
    }

    function Insert(n: nat): (w: Window)
      requires Valid() && n < U64_MAX
      ensures w.Valid()
    {
      if n < lower then this
      else
        var moved := if n > Upper() then Window(lower + Jump(n), ShiftLeft(bits, Jump(n) % U32_RANGE)) else this;
        Window(moved.lower, moved.bits[moved.Upper() - n := true])
    }
  }

  /** `checked_shl`, with zero when the shift is as wide as the field. */
  function ShiftLeft(bits: Bits, d: nat): Bits {
    if d >= SIZE then seq(SIZE, _ => false) else seq(d, _ => false) + bits[..SIZE - d]
  }

  lemma ShiftLeftAt(bits: Bits, d: nat, k: nat)
    requires k < SIZE
    ensures ShiftLeft(bits, d)[k] <==> d <= k && bits[k - d]
  {
  }

  function Empty(): Window {
    Window(0, seq(SIZE, _ => false))
  }

  function Run(ns: seq<nat>): (w: Window)
    requires forall i :: 0 <= i < |ns| ==> ns[i] < U64_MAX
    ensures w.Valid()
  {
    if ns == [] then Empty()
    else Run(ns[..|ns| - 1]).Insert(ns[|ns| - 1])
  }

  // ----- Sets of numbers seen

  /** Every number seen is reported as present. */
  ghost predicate Complete(w: Window, seen: set<nat>)
    requires w.Valid()
  {
    forall n :: n in seen ==> w.Contains(n)
  }

  /** No number on or above the window is reported as present unless it was seen. */
  ghost predicate Exact(w: Window, seen: set<nat>)
    requires w.Valid()
  {
    forall n :: n >= w.lower && w.Contains(n) ==> n in seen
  }

  /** A jump keeps the bits of the numbers that stay in the window. */
  lemma JumpKeeps(w: Window, n: nat, x: nat)
    requires w.Valid() && w.Upper() < n < U64_MAX && w.Contains(x)
    ensures w.Insert(n).Contains(x)
  {
    hide ShiftLeft;
    var v := w.Insert(n);
    if v.lower <= x {
      var d := w.Jump(n);
      assert d < SIZE;
      ShiftLeftAt(w.bits, d, v.Upper() - x);
    }
  }

  /** An insertion loses no number, and its own number is there. */
  lemma InsertKeeps(w: Window, n: nat, x: nat)
    requires w.Valid() && n < U64_MAX && (x == n || w.Contains(x))
    ensures w.Insert(n).Contains(x)
  {
    hide ShiftLeft;
    if n > w.Upper() && x != n {
      JumpKeeps(w, n, x);
    }
  }

  lemma InsertComplete(w: Window, seen: set<nat>, n: nat)
    requires w.Valid() && n < U64_MAX && Complete(w, seen)
    ensures Complete(w.Insert(n), seen + {n})
  {
    forall x | x in seen + {n}
      ensures w.Insert(n).Contains(x)
    {
      InsertKeeps(w, n, x);
    }
  }

  /** A jump of 2^32 or more whose low 32 bits leave some old bit in the field, off its own place. */
  predicate LeavesStaleBit(w: Window, n: nat) {
    var d := w.Jump(n) % U32_RANGE;
    w.Jump(n) >= U32_RANGE && exists k :: 0 <= k < SIZE && w.bits[k] && 0 < k + d < SIZE
  }

  /** An insertion keeps the window exact if and only if it leaves no stale bit behind. */
  lemma InsertExactIff(w: Window, seen: set<nat>, n: nat)
    requires w.Valid() && n < U64_MAX && Complete(w, seen) && Exact(w, seen)
    ensures Exact(w.Insert(n), seen + {n}) <==> !LeavesStaleBit(w, n)
  {
    hide ShiftLeft;
    var v, jump := w.Insert(n), w.Jump(n);
    var d := jump % U32_RANGE;
    if LeavesStaleBit(w, n) {
      var k :| 0 <= k < SIZE && w.bits[k] && 0 < k + d < SIZE;
      var x := v.Upper() - (k + d);
      ShiftLeftAt(w.bits, d, k + d);
      assert x >= v.lower && v.Contains(x);
      assert x > w.Upper();
      assert x !in seen;
    } else {
      forall x | x >= v.lower && v.Contains(x)
        ensures x in seen + {n}
      {
        if x != n {
          if n > w.Upper() {
            var k := v.Upper() - x;
            ShiftLeftAt(w.bits, d, k);
            assert w.bits[k - d];
            assert jump < U32_RANGE;
            assert w.Contains(x);
          } else {
            assert w.Contains(x);
          }
        }
      }
    }
  }

  // ----- Runs

  ghost function Seen(ns: seq<nat>): set<nat> {
    set n | n in ns
  }

  lemma {:induction false} RunComplete(ns: seq<nat>)
    requires forall i :: 0 <= i < |ns| ==> ns[i] < U64_MAX
    ensures Complete(Run(ns), Seen(ns))
    decreases |ns|
  {
    if ns != [] {
      var prefix, last := ns[..|ns| - 1], ns[|ns| - 1];
      RunComplete(prefix);
      InsertComplete(Run(prefix), Seen(prefix), last);
      SeenAppend(ns);
    }
  }

  lemma SeenAppend(ns: seq<nat>)
    requires ns != []
    ensures Seen(ns) == Seen(ns[..|ns| - 1]) + {ns[|ns| - 1]}
  {
    assert ns == ns[..|ns| - 1] + [ns[|ns| - 1]];
  }

  /** No insertion of the run leaves a stale bit behind. */
  predicate Clean(ns: seq<nat>)
    requires forall i :: 0 <= i < |ns| ==> ns[i] < U64_MAX
  {
    ns == [] || (Clean(ns[..|ns| - 1]) && !LeavesStaleBit(Run(ns[..|ns| - 1]), ns[|ns| - 1]))
  }

  /** The window agrees with the set of numbers seen after every insertion of the run. */
  ghost predicate ExactThroughout(ns: seq<nat>)
    requires forall i :: 0 <= i < |ns| ==> ns[i] < U64_MAX
  {
    Exact(Run(ns), Seen(ns)) && (ns == [] || ExactThroughout(ns[..|ns| - 1]))
  }

  /**
   For every run, the window agrees throughout with the full set of numbers seen, on and above
   the window, if and only if no insertion leaves a stale bit.
   */
  lemma {:induction false} RunExactIff(ns: seq<nat>)
    requires forall i :: 0 <= i < |ns| ==> ns[i] < U64_MAX
    ensures ExactThroughout(ns) <==> Clean(ns)
    decreases |ns|
  {
    if ns != [] {
      var prefix, last := ns[..|ns| - 1], ns[|ns| - 1];
      RunExactIff(prefix);
      if ExactThroughout(prefix) {
        RunComplete(prefix);
        InsertExactIff(Run(prefix), Seen(prefix), last);
        SeenAppend(ns);
      }
    }
  }

  /** No insertion of the run jumps 2^32 numbers or more past the window. */
  predicate ShortJumps(ns: seq<nat>)
    requires forall i :: 0 <= i < |ns| ==> ns[i] < U64_MAX
  {
    ns == [] || (ShortJumps(ns[..|ns| - 1]) && Run(ns[..|ns| - 1]).Jump(ns[|ns| - 1]) < U32_RANGE)
  }

  /** With short jumps a number on or above the window is reported if and only if it was inserted. */
  lemma {:induction false} RunExact(ns: seq<nat>)
    requires forall i :: 0 <= i < |ns| ==> ns[i] < U64_MAX
    requires ShortJumps(ns)
    ensures forall n :: n >= Run(ns).lower ==> (Run(ns).Contains(n) <==> n in ns)
    decreases |ns|
  {
    ShortJumpsAreClean(ns);
    RunExactIff(ns);
    RunComplete(ns);
    assert forall n :: n in Seen(ns) <==> n in ns;
  }

  lemma {:induction false} ShortJumpsAreClean(ns: seq<nat>)
    requires forall i :: 0 <= i < |ns| ==> ns[i] < U64_MAX
    requires ShortJumps(ns)
    ensures Clean(ns)
    decreases |ns|
  {
    if ns != [] {
      ShortJumpsAreClean(ns[..|ns| - 1]);
    }
  }

  /** After a jump of exactly 2^32 the shift is by zero, and an old number reappears as a new one. */
  lemma LongJumpForges(n: nat)
    requires n == 127 + U32_RANGE
    ensures Run([0, n]).Contains(U32_RANGE) && U32_RANGE !in Seen([0, n])
  {
    assert [0, n][..1] == [0] && [0][..0] == [];
    var w := Run([0]);
    assert w == Empty().Insert(0);
    assert w.Upper() == 127 && w.bits[127];
    assert w.Jump(n) == U32_RANGE;
    ShiftLeftAt(w.bits, 0, 127);
    assert Run([0, n]) == w.Insert(n);
  }

  // ----- The detector

  class SeqNumWindow {
    var lower: nat
    var bits: Bits

    ghost function Value(): Window
      reads this
    {
      Window(lower, bits)
    }

    constructor ()
      ensures Value() == Empty()
    {
      lower, bits := 0, seq(SIZE, _ => false);
    }

    method Insert(n: nat)
      requires Value().Valid() && n < U64_MAX
      modifies this
      ensures Value() == old(Value()).Insert(n)
    {
      if n < lower {
        return;
      }
      var upper := Upper();
      if n > upper {
        var diff := n - upper;
        lower := lower + diff;
        bits := ShiftLeft(bits, diff % U32_RANGE);
      }
      upper := Upper();
      bits := bits[upper - n := true];
    }

    method Contains(n: nat) returns (found: bool)
      requires Value().Valid()
      ensures found == Value().Contains(n)
    {
      var upper := Upper();
      if n > upper {
        return false;
      }
      if n < lower {
        return true;
      }
      found := bits[upper - n];
    }

    method Upper() returns (upper: nat)
      ensures upper == Value().Upper()
    {
      upper := if lower + SIZE <= U64_MAX then lower + SIZE else U64_MAX;
      upper := upper - 1;
    }
  }
}
