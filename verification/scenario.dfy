/** The configuration the program's driver runs: a zero vector of length n
    with both endpoints and the middle position (n / 2) pinned to 1.0. */
module Scenario {
  import opened Pins
  import opened Smoother

  /** The driver's three pins; the program requires n >= 3 because it
      declares three of them and forbids more pins than positions. */
  function ReferencePins(n: nat): (pins: seq<Pin>)
    requires n >= 3
    ensures ValidPins(pins, n)
    ensures forall i :: 0 <= i < n ==> (Addressed(pins, i) <==> i == 0 || i == n / 2 || i == n - 1)
  {
    var pins := [Pin(0, 1.0), Pin(n / 2, 1.0), Pin(n - 1, 1.0)];
    forall i | 0 <= i < n && (i == 0 || i == n / 2 || i == n - 1)
      ensures Addressed(pins, i)
    {
      var k := if i == 0 then 0 else if i == n / 2 then 1 else 2;
      assert pins[k].index == i;
    }
    pins
  }

  /** The driver's input: zeros, then the pins written over them. */
  function ReferenceInput(n: nat): (v: seq<real>)
    requires n >= 3
    ensures |v| == n
    ensures forall i :: 0 <= i < n ==> v[i] == if i == 0 || i == n / 2 || i == n - 1 then 1.0 else 0.0
  {
    var pins := ReferencePins(n);
    var v := ApplyPins(seq(n, _ => 0.0), pins);
    forall i | 0 <= i < n
      ensures v[i] == if i == 0 || i == n / 2 || i == n - 1 then 1.0 else 0.0
    {
      LastPinSpec(pins, i);
    }
    v
  }

  /** For every length and every positive step count, the three pinned
      positions of the driver's run hold 1.0. */
  lemma ReferenceRunHoldsPins(n: nat, m: nat)
    requires n >= 3 && m >= 1
    ensures Smooth(ReferenceInput(n), ReferencePins(n), m)[0] == 1.0
    ensures Smooth(ReferenceInput(n), ReferencePins(n), m)[n / 2] == 1.0
    ensures Smooth(ReferenceInput(n), ReferencePins(n), m)[n - 1] == 1.0
  {
    var pins := ReferencePins(n);
    SmoothSettled(ReferenceInput(n), pins, m);
    LastPinSpec(pins, 0);
    LastPinSpec(pins, n / 2);
    LastPinSpec(pins, n - 1);
  }

  /** The reference configuration: n = 10 (the NSIZE default) and m = 1. */
  lemma ReferenceScenario()
    ensures Smooth(ReferenceInput(10), ReferencePins(10), 1) ==
            [1.0, 0.5, 0.0, 0.0, 0.5, 1.0, 0.5, 0.0, 0.5, 1.0]
  {
    var pins := ReferencePins(10);
    var v := ReferenceInput(10);
    var r := Smooth(v, pins, 1);
    SmoothSucc(v, pins, 0);
    forall i | 0 <= i < 10
      ensures LastPin(pins, i) == if i == 0 || i == 5 || i == 9 then Some(1.0) else None
    {
      LastPinSpec(pins, i);
    }
    assert r == [1.0, 0.5, 0.0, 0.0, 0.5, 1.0, 0.5, 0.0, 0.5, 1.0];
  }
}
