/** The smoother: a fixed number of "skip-self" Jacobi relaxation steps over a
    sequence with pinned positions.  Each step builds a fresh sequence whose
    endpoints are copied from the ORIGINAL input, whose interior cells are the
    mean of their two neighbours in the previous iterate (the cell's own old
    value is left out), and over which the pins are then written again. */
module Smoother {
  import opened Pins

  /** Position `i` is one of the two endpoints of a sequence of length `n`. */
  predicate IsEndpoint(n: nat, i: nat)
  {
    i == 0 || i == n - 1
  }

  /** The skip-self stencil at interior cell `i`: the mean of its two
      neighbours, leaving out the cell's own value. */
  function Mean(prev: seq<real>, i: nat): real
    requires 0 < i < |prev| - 1
  {
    (prev[i - 1] + prev[i + 1]) / 2.0
  }

  /** The averaging part of one step: endpoints from `v`, interior cells the
      mean of their neighbours in `prev`. */
  function Stencil(v: seq<real>, prev: seq<real>): (r: seq<real>)
    requires |prev| == |v| >= 1
    ensures |r| == |v|
  {
    seq(|v|, i requires 0 <= i < |v| =>
      if IsEndpoint(|v|, i) then v[i] else Mean(prev, i))
  }

  /** One relaxation step: the stencil followed by set_fixed. */
  function Step(v: seq<real>, prev: seq<real>, pins: seq<Pin>): (r: seq<real>)
    requires |prev| == |v| >= 1 && ValidPins(pins, |v|)
    ensures |r| == |v|
  {
    ApplyPins(Stencil(v, prev), pins)
  }

  /** Cell `i` after one step: its last pin if it has one, else the input's
      value at an endpoint, else the mean of its neighbours in `prev`. */
  lemma StepCell(v: seq<real>, prev: seq<real>, pins: seq<Pin>, i: nat)
    requires |prev| == |v| >= 1 && ValidPins(pins, |v|) && i < |v|
    ensures LastPin(pins, i).Some? ==> Step(v, prev, pins)[i] == LastPin(pins, i).value
    ensures LastPin(pins, i).None? && IsEndpoint(|v|, i) ==> Step(v, prev, pins)[i] == v[i]
    ensures LastPin(pins, i).None? && !IsEndpoint(|v|, i) ==> Step(v, prev, pins)[i] == Mean(prev, i)
  {
  }

  /** What every iterate after at least one step satisfies: each pinned
      position holds its (last) pin value, each unpinned endpoint holds the
      original input's value. */
  predicate Settled(v: seq<real>, pins: seq<Pin>, r: seq<real>)
  {
    |r| == |v| &&
    (forall i :: 0 <= i < |r| && LastPin(pins, i).Some? ==> r[i] == LastPin(pins, i).value) &&
    (forall i :: 0 <= i < |r| && LastPin(pins, i).None? && IsEndpoint(|v|, i) ==> r[i] == v[i])
  }

  /** Every step, from any previous iterate, ends settled. */
  lemma StepSettled(v: seq<real>, prev: seq<real>, pins: seq<Pin>)
    requires |prev| == |v| >= 1 && ValidPins(pins, |v|)
    ensures Settled(v, pins, Step(v, prev, pins))
  {
    forall i | 0 <= i < |v| {
      StepCell(v, prev, pins, i);
    }
  }

  /** The iteration loop of smooth_vector, from iterate `prev` with `k` steps
      still to run. */
  function Iterate(v: seq<real>, prev: seq<real>, pins: seq<Pin>, k: nat): (r: seq<real>)
    requires |prev| == |v| >= 1 && ValidPins(pins, |v|)
    ensures |r| == |v|
    decreases k
  {
    if k == 0 then prev else Iterate(v, Step(v, prev, pins), pins, k - 1)
  }

  /** smooth_vector: exactly `m` steps, starting from the input itself. */
  function Smooth(v: seq<real>, pins: seq<Pin>, m: nat): (r: seq<real>)
    requires |v| >= 1 && ValidPins(pins, |v|)
    ensures |r| == |v|
    ensures m == 0 ==> r == v
  {
    Iterate(v, v, pins, m)
  }

  /** After at least one step the loop's result is settled. */
  lemma {:induction false} IterateSettled(v: seq<real>, prev: seq<real>, pins: seq<Pin>, k: nat)
    requires |prev| == |v| >= 1 && ValidPins(pins, |v|) && k >= 1
    ensures Settled(v, pins, Iterate(v, prev, pins, k))
    decreases k
  {
    if k == 1 {
      StepSettled(v, prev, pins);
    } else {
      IterateSettled(v, Step(v, prev, pins), pins, k - 1);
    }
  }

  /** For m >= 1, smooth_vector's result holds every pin and keeps every
      unpinned endpoint at the input's value. */
  lemma SmoothSettled(v: seq<real>, pins: seq<Pin>, m: nat)
    requires |v| >= 1 && ValidPins(pins, |v|) && m >= 1
    ensures Settled(v, pins, Smooth(v, pins, m))
  {
    IterateSettled(v, v, pins, m);
  }

  /** Running one more step of the loop is one more Step on its result. */
  lemma {:induction false} IterateSucc(v: seq<real>, prev: seq<real>, pins: seq<Pin>, k: nat)
    requires |prev| == |v| >= 1 && ValidPins(pins, |v|)
    ensures Iterate(v, prev, pins, k + 1) == Step(v, Iterate(v, prev, pins, k), pins)
    decreases k
  {
    if k > 0 {
      IterateSucc(v, Step(v, prev, pins), pins, k - 1);
    }
  }

  /** The result after m+1 steps is one Step applied to the result after m. */
  lemma SmoothSucc(v: seq<real>, pins: seq<Pin>, m: nat)
    requires |v| >= 1 && ValidPins(pins, |v|)
    ensures Smooth(v, pins, m + 1) == Step(v, Smooth(v, pins, m), pins)
  {
    IterateSucc(v, v, pins, m);
  }

  /** The skip-self stencil, read off the result: an unpinned interior cell
      after m >= 1 steps is the mean of its two neighbours after m-1 steps. */
  lemma SmoothInterior(v: seq<real>, pins: seq<Pin>, m: nat, i: nat)
    requires |v| >= 1 && ValidPins(pins, |v|)
    requires m >= 1 && 0 < i < |v| - 1 && LastPin(pins, i).None?
    ensures Smooth(v, pins, m)[i] == (Smooth(v, pins, m - 1)[i - 1] + Smooth(v, pins, m - 1)[i + 1]) / 2.0
  {
    SmoothSucc(v, pins, m - 1);
    StepCell(v, Smooth(v, pins, m - 1), pins, i);
  }

  /** Pins win after any positive number of steps, stated over the pin list:
      a position addressed by some pin holds the value of the last pin that
      addresses it. */
  lemma SmoothHoldsPins(v: seq<real>, pins: seq<Pin>, m: nat)
    requires |v| >= 1 && ValidPins(pins, |v|) && m >= 1
    ensures forall k :: 0 <= k < |pins| && (forall k' :: k < k' < |pins| ==> pins[k'].index != pins[k].index) ==>
              Smooth(v, pins, m)[pins[k].index] == pins[k].value
  {
    forall k | 0 <= k < |pins| && (forall k' :: k < k' < |pins| ==> pins[k'].index != pins[k].index)
      ensures Smooth(v, pins, m)[pins[k].index] == pins[k].value
    {
      SmoothSettled(v, pins, m);
      var i := pins[k].index;
      LastPinSpec(pins, i);
      var j :| 0 <= j < |pins| && pins[j].index == i && pins[j].value == LastPin(pins, i).value &&
               forall k' :: j < k' < |pins| ==> pins[k'].index != i;
      assert j == k;
    }
  }

  /** An unpinned endpoint never moves: after any number of steps it still
      holds the input's value. */
  lemma SmoothEndpoints(v: seq<real>, pins: seq<Pin>, m: nat)
    requires |v| >= 1 && ValidPins(pins, |v|)
    ensures forall i :: 0 <= i < |v| && IsEndpoint(|v|, i) && !Addressed(pins, i) ==>
              Smooth(v, pins, m)[i] == v[i]
  {
    forall i | 0 <= i < |v| && IsEndpoint(|v|, i) && !Addressed(pins, i)
      ensures Smooth(v, pins, m)[i] == v[i]
    {
      LastPinSpec(pins, i);
      if m >= 1 {
        SmoothSettled(v, pins, m);
      }
    }
  }

  // ---------------------------------------------------------------------
  // The alternative endpoint rule: copy the endpoints from the PREVIOUS
  // iterate instead of the original input.  Both rules give the same run.

  /** One step with endpoints taken from the previous iterate. */
  function StepFromPrev(prev: seq<real>, pins: seq<Pin>): (r: seq<real>)
    requires |prev| >= 1 && ValidPins(pins, |prev|)
    ensures |r| == |prev|
  {
    Step(prev, prev, pins)
  }

  /** `k` steps of the alternative rule. */
  function IterateFromPrev(prev: seq<real>, pins: seq<Pin>, k: nat): (r: seq<real>)
    requires |prev| >= 1 && ValidPins(pins, |prev|)
    ensures |r| == |prev|
    decreases k
  {
    if k == 0 then prev else IterateFromPrev(StepFromPrev(prev, pins), pins, k - 1)
  }

  /** `prev` agrees with `v` at every unpinned endpoint. */
  predicate EndsAgree(v: seq<real>, prev: seq<real>, pins: seq<Pin>)
  {
    |prev| == |v| &&
    forall i :: 0 <= i < |v| && IsEndpoint(|v|, i) && LastPin(pins, i).None? ==> prev[i] == v[i]
  }

  /** Where `prev` agrees with `v` at the unpinned endpoints, the two rules
      give the same step, and the step again agrees with `v` there. */
  lemma StepRulesAgree(v: seq<real>, prev: seq<real>, pins: seq<Pin>)
    requires |v| >= 1 && ValidPins(pins, |v|) && EndsAgree(v, prev, pins)
    ensures Step(v, prev, pins) == StepFromPrev(prev, pins)
    ensures EndsAgree(v, Step(v, prev, pins), pins)
  {
    ApplyPinsOverwrites(Stencil(v, prev), Stencil(prev, prev), pins);
    StepSettled(v, prev, pins);
  }

  /** Under that agreement, the two loops give the same result. */
  lemma {:induction false} IterateRulesAgree(v: seq<real>, prev: seq<real>, pins: seq<Pin>, k: nat)
    requires |v| >= 1 && ValidPins(pins, |v|) && EndsAgree(v, prev, pins)
    ensures Iterate(v, prev, pins, k) == IterateFromPrev(prev, pins, k)
    decreases k
  {
    if k > 0 {
      StepRulesAgree(v, prev, pins);
      IterateRulesAgree(v, Step(v, prev, pins), pins, k - 1);
    }
  }

  /** Copying the endpoints from the original input (as the program does)
      or from the previous iterate gives the same result for every m. */
  lemma SmoothEndpointRulesAgree(v: seq<real>, pins: seq<Pin>, m: nat)
    requires |v| >= 1 && ValidPins(pins, |v|)
    ensures Smooth(v, pins, m) == IterateFromPrev(v, pins, m)
  {
    IterateRulesAgree(v, v, pins, m);
  }

  // ---------------------------------------------------------------------
  // Fixed points.

  /** `v` is an equilibrium of the relaxation: it already holds every pin,
      and every unpinned interior cell is the mean of its neighbours. */
  predicate Equilibrium(v: seq<real>, pins: seq<Pin>)
    requires InRange(pins, |v|)
  {
    ApplyPins(v, pins) == v &&
    forall i :: 0 < i < |v| - 1 && LastPin(pins, i).None? ==> v[i] == Mean(v, i)
  }

  /** A sequence is left unchanged by one step from itself exactly when it is
      an equilibrium. */
  lemma EquilibriumIffStepFixed(v: seq<real>, pins: seq<Pin>)
    requires |v| >= 1 && ValidPins(pins, |v|)
    ensures Step(v, v, pins) == v <==> Equilibrium(v, pins)
  {
    PinnedFixedPoint(v, pins);
    var s := Step(v, v, pins);
    if s == v {
      forall i | 0 < i < |v| - 1 && LastPin(pins, i).None?
        ensures v[i] == Mean(v, i)
      {
        StepCell(v, v, pins, i);
        assert s[i] == v[i];
      }
    }
    if Equilibrium(v, pins) {
      forall i | 0 <= i < |v|
        ensures s[i] == v[i]
      {
        StepCell(v, v, pins, i);
        assert ApplyPins(v, pins)[i] == v[i];
      }
    }
  }

  /** A sequence one step leaves unchanged stays unchanged by the loop. */
  lemma {:induction false} IterateFixed(v: seq<real>, pins: seq<Pin>, k: nat)
    requires |v| >= 1 && ValidPins(pins, |v|) && Step(v, v, pins) == v
    ensures Iterate(v, v, pins, k) == v
    decreases k
  {
    if k > 0 {
      IterateFixed(v, pins, k - 1);
    }
  }

  /** An equilibrium is returned unchanged for every number of steps. */
  lemma EquilibriumStable(v: seq<real>, pins: seq<Pin>, m: nat)
    requires |v| >= 1 && ValidPins(pins, |v|) && Equilibrium(v, pins)
    ensures Smooth(v, pins, m) == v
  {
    EquilibriumIffStepFixed(v, pins);
    IterateFixed(v, pins, m);
  }

  /** When every position is addressed, the lookup finds a pin everywhere. */
  lemma AllAddressedPinned(pins: seq<Pin>, n: nat)
    requires forall i :: 0 <= i < n ==> Addressed(pins, i)
    ensures forall i :: 0 <= i < n ==> LastPin(pins, i).Some?
  {
    forall i | 0 <= i < n
      ensures LastPin(pins, i).Some?
    {
      LastPinSpec(pins, i);
    }
  }

  /** When every position is pinned, any positive number of steps yields the
      pinned vector, whatever the input held. */
  lemma AllPinned(v: seq<real>, pins: seq<Pin>, m: nat)
    requires |v| >= 1 && ValidPins(pins, |v|) && m >= 1
    requires forall i :: 0 <= i < |v| ==> Addressed(pins, i)
    ensures Smooth(v, pins, m) == ApplyPins(v, pins)
  {
    AllAddressedPinned(pins, |v|);
    SmoothSettled(v, pins, m);
    var r := Smooth(v, pins, m);
    var w := ApplyPins(v, pins);
    assert forall i :: 0 <= i < |v| ==> r[i] == w[i];
  }

  // ---------------------------------------------------------------------
  // smooth_vector as written, over arrays.

  /** The body of one iteration: a fresh buffer, the endpoint copies, the
      inner loop over the interior cells, then set_fixed in place. */
  method StepBuffer(v: seq<real>, prev: seq<real>, pins: seq<Pin>) returns (next: seq<real>)
    requires |prev| == |v| >= 1 && ValidPins(pins, |v|)
    ensures next == Step(v, prev, pins)
  {
    var n := |v|;
    var curr := new real[n];
    curr[0] := v[0];
    curr[n - 1] := v[n - 1];
    var i := 1;
    while i < n - 1
      invariant 1 <= i
      invariant curr[0] == v[0] && curr[n - 1] == v[n - 1]
      invariant forall j :: 1 <= j < i && j < n - 1 ==> curr[j] == Mean(prev, j)
    {
      curr[i] := (prev[i - 1] + prev[i + 1]) / 2.0;
      i := i + 1;
    }
    assert curr[..] == Stencil(v, prev);
    SetFixed(curr, pins);
    next := curr[..];
  }

  /** smooth_vector as written: m iterations, each building the next iterate
      in a fresh buffer that then replaces the previous one. */
  method SmoothVector(v: seq<real>, pins: seq<Pin>, m: nat) returns (r: seq<real>)
    requires |v| >= 1 && ValidPins(pins, |v|)
    ensures r == Smooth(v, pins, m)
  {
    var prev := v;
    var iteration := 0;
    while iteration < m
      invariant 0 <= iteration <= m
      invariant |prev| == |v|
      invariant Iterate(v, prev, pins, m - iteration) == Smooth(v, pins, m)
    {
      prev := StepBuffer(v, prev, pins);
      iteration := iteration + 1;
    }
    r := prev;
  }
}
