/** Pinned ("fixed") positions of the smoothed sequence and the routine that
    writes them over a sequence.  A pin list is an ordered list of
    (index, value) pairs; applying it overwrites the sequence entry by entry,
    in list order, so when two pins share an index the later one wins. */
module Pins {

  datatype Option<T> = None | Some(value: T)

  /** One (position, value) override. */
  datatype Pin = Pin(index: nat, value: real)

  /** Every pin addresses a position of a sequence of length `n`. */
  predicate InRange(pins: seq<Pin>, n: nat)
  {
    forall k :: 0 <= k < |pins| ==> pins[k].index < n
  }

  /** The configuration constraint of the program: every pin is in range and
      there are no more pins than positions. */
  predicate ValidPins(pins: seq<Pin>, n: nat)
  {
    |pins| <= n && InRange(pins, n)
  }

  /** Some pin in the list addresses position `i`. */
  predicate Addressed(pins: seq<Pin>, i: nat)
  {
    exists k :: 0 <= k < |pins| && pins[k].index == i
  }

  /** Reference definition of "last write wins": the value of the LAST pin in
      the list that addresses position `i`, or None when no pin does. */
  function LastPin(pins: seq<Pin>, i: nat): Option<real>
  {
    if |pins| == 0 then None
    else if pins[|pins| - 1].index == i then Some(pins[|pins| - 1].value)
    else LastPin(pins[..|pins| - 1], i)
  }

  /** The value position `i` of `v` holds once `pins` have been written. */
  function Pinned(v: seq<real>, pins: seq<Pin>, i: nat): real
    requires i < |v|
  {
    match LastPin(pins, i)
    case Some(x) => x
    case None => v[i]
  }

  /** LastPin finds a pin exactly when some pin addresses `i`, and what it
      finds is the value of the last such pin. */
  lemma {:induction false} LastPinSpec(pins: seq<Pin>, i: nat)
    ensures LastPin(pins, i).Some? <==> Addressed(pins, i)
    ensures LastPin(pins, i).Some? ==>
      exists k :: 0 <= k < |pins| && pins[k].index == i && pins[k].value == LastPin(pins, i).value &&
                  forall k' :: k < k' < |pins| ==> pins[k'].index != i
  {
    if |pins| > 0 && pins[|pins| - 1].index != i {
      var init := pins[..|pins| - 1];
      LastPinSpec(init, i);
      assert forall k :: 0 <= k < |init| ==> init[k] == pins[k];
      if LastPin(init, i).Some? {
        var k :| 0 <= k < |init| && init[k].index == i && init[k].value == LastPin(init, i).value &&
                 forall k' :: k < k' < |init| ==> init[k'].index != i;
        assert pins[k].index == i && pins[k].value == LastPin(pins, i).value;
        assert forall k' :: k < k' < |pins| ==> pins[k'].index != i;
      }
    }
  }

  /** Peeling the FIRST pin off the list: a later pin for `i` overrides it. */
  lemma {:induction false} LastPinCons(p: Pin, rest: seq<Pin>, i: nat)
    ensures LastPin([p] + rest, i) ==
      if LastPin(rest, i).Some? then LastPin(rest, i)
      else if p.index == i then Some(p.value)
      else None
  {
    var pins := [p] + rest;
    if |rest| > 0 {
      assert pins[..|pins| - 1] == [p] + rest[..|rest| - 1];
      assert pins[|pins| - 1] == rest[|rest| - 1];
      LastPinCons(p, rest[..|rest| - 1], i);
    } else {
      assert pins[..|pins| - 1] == [];
    }
  }

  /** set_fixed: write every pin over `v`, in list order. */
  function ApplyPins(v: seq<real>, pins: seq<Pin>): (r: seq<real>)
    requires InRange(pins, |v|)
    ensures |r| == |v|
    ensures forall i :: 0 <= i < |r| ==> r[i] == Pinned(v, pins, i)
    decreases |pins|
  {
    if |pins| == 0 then v
    else
      var w := v[pins[0].index := pins[0].value];
      var r := ApplyPins(w, pins[1..]);
      assert pins == [pins[0]] + pins[1..];
      forall i | 0 <= i < |r|
        ensures r[i] == Pinned(v, pins, i)
      {
        LastPinCons(pins[0], pins[1..], i);
      }
      r
  }

  /** Positions no pin addresses keep their value; pinned positions hold the
      value of their last pin, whatever `v` held there. */
  lemma ApplyPinsFrame(v: seq<real>, pins: seq<Pin>, i: nat)
    requires InRange(pins, |v|) && i < |v|
    ensures !Addressed(pins, i) ==> ApplyPins(v, pins)[i] == v[i]
    ensures forall k :: 0 <= k < |pins| && pins[k].index == i &&
                        (forall k' :: k < k' < |pins| ==> pins[k'].index != i) ==>
                        ApplyPins(v, pins)[i] == pins[k].value
  {
    LastPinSpec(pins, i);
    forall k | 0 <= k < |pins| && pins[k].index == i && (forall k' :: k < k' < |pins| ==> pins[k'].index != i)
      ensures ApplyPins(v, pins)[i] == pins[k].value
    {
      var j :| 0 <= j < |pins| && pins[j].index == i && pins[j].value == LastPin(pins, i).value &&
               forall k' :: j < k' < |pins| ==> pins[k'].index != i;
      assert j == k;
    }
  }

  /** What ApplyPins writes does not depend on what was there before, except
      at unpinned positions. */
  lemma ApplyPinsOverwrites(v: seq<real>, w: seq<real>, pins: seq<Pin>)
    requires |v| == |w| && InRange(pins, |v|)
    ensures (forall i :: 0 <= i < |v| && LastPin(pins, i).None? ==> v[i] == w[i]) <==>
            ApplyPins(v, pins) == ApplyPins(w, pins)
  {
    if ApplyPins(v, pins) == ApplyPins(w, pins) {
      forall i | 0 <= i < |v| && LastPin(pins, i).None?
        ensures v[i] == w[i]
      {
        assert ApplyPins(v, pins)[i] == ApplyPins(w, pins)[i];
      }
    }
  }

  /** Applying the same pins twice is the same as applying them once. */
  lemma ApplyPinsIdempotent(v: seq<real>, pins: seq<Pin>)
    requires InRange(pins, |v|)
    ensures ApplyPins(ApplyPins(v, pins), pins) == ApplyPins(v, pins)
  {
    var once := ApplyPins(v, pins);
    var twice := ApplyPins(once, pins);
    assert forall i :: 0 <= i < |v| ==> twice[i] == once[i];
  }

  /** A sequence is a fixed point of ApplyPins exactly when it already holds
      every pin's (last) value at that pin's position. */
  lemma PinnedFixedPoint(v: seq<real>, pins: seq<Pin>)
    requires InRange(pins, |v|)
    ensures ApplyPins(v, pins) == v <==>
            forall i :: 0 <= i < |v| && LastPin(pins, i).Some? ==> v[i] == LastPin(pins, i).value
  {
    if forall i :: 0 <= i < |v| && LastPin(pins, i).Some? ==> v[i] == LastPin(pins, i).value {
      assert forall i :: 0 <= i < |v| ==> ApplyPins(v, pins)[i] == v[i];
    } else {
      var i :| 0 <= i < |v| && LastPin(pins, i).Some? && v[i] != LastPin(pins, i).value;
      assert ApplyPins(v, pins)[i] != v[i];
    }
  }

  /** set_fixed as it is written: an in-place loop over the pin list. */
  method SetFixed(a: array<real>, pins: seq<Pin>)
    requires InRange(pins, a.Length)
    modifies a
    ensures a[..] == ApplyPins(old(a[..]), pins)
  {
    ghost var v := a[..];
    var k := 0;
    while k < |pins|
      invariant 0 <= k <= |pins|
      invariant forall i :: 0 <= i < a.Length ==> a[i] == Pinned(v, pins[..k], i)
    {
      assert pins[..k + 1][..k] == pins[..k];
      a[pins[k].index] := pins[k].value;
      k := k + 1;
    }
    assert pins[..k] == pins;
    assert forall i :: 0 <= i < a.Length ==> a[..][i] == ApplyPins(v, pins)[i];
  }
}
