# Skip-self Jacobi smoothing with pinned positions

A Dafny model of the smoothing core of `main.cpp`: a one-dimensional
sequence of reals relaxed for exactly `m` steps. Each step builds a new
sequence of the same length. Its two endpoints are copied from the original
input. Every interior cell becomes the mean of its two neighbours in the
previous iterate, without the cell's own old value. Then the pinned
`(index, value)` pairs are written over the result. Pins are written in list
order, so when two pins share an index the later one wins.

The model has three modules:

- `Pins` (`pins.dfy`): the pin list, the "last write wins" reference lookup
  `LastPin`, the pure `ApplyPins` (`set_fixed`), and the in-place array loop
  `SetFixed`.
- `Smoother` (`smoother.dfy`): the stencil, `Step` (one iteration),
  `Iterate` (the loop of `smooth_vector`, from a given iterate), `Smooth`
  (`smooth_vector`), and the array implementation `SmoothVector` proved equal
  to `Smooth`.
- `Scenario` (`scenario.dfy`): the driver's configuration (zeros, pins at
  `0`, `n / 2` and `n - 1` set to `1.0`) and the reference run: n = 10
  (the `NSIZE` default) and m = 1.

Values are Dafny `real`, so the division by 2 is exact. The compile-time
length `n` and pin array become a parameter sequence and a pin list. The
program's preconditions stay as `requires` clauses:

- the input is non-empty, because the code computes `size - 1`;
- every pin index is below the length, because `set_fixed` indexes with it;
- there are no more pins than positions, the `static_assert` at line 15.

Two details of the code are easy to misread:

- The code copies the endpoints of every new iterate from the original input
  `v` (lines 54-55), not from the previous iterate. `SmoothEndpointRulesAgree`
  proves that the two rules give the same result for every `m`. The reason is
  that an unpinned endpoint never changes, and a pinned one is overwritten.
- With `m = 0` the code returns `v` as given. It does not write the pins
  itself; the driver wrote them before the call (line 114).

## Model

| member | source | states |
|---|---|---|
| Pins.LastPinSpec | main.cpp:28-31 | the reference lookup finds a value exactly when some pin addresses the position, and it is the value of the last such pin in list order |
| Pins.LastPinCons | main.cpp:28-31 | writing pins front to back: a pin is overridden at its index by any later pin for that index |
| Pins.ApplyPins | main.cpp:26-32 | set_fixed keeps the length; each position holds the value of the last pin addressing it, and every other position keeps the input's value |
| Pins.ApplyPinsFrame | main.cpp:28-31 | positions no pin addresses are untouched; a pin that no later pin overrides determines its position whatever was there |
| Pins.ApplyPinsOverwrites | main.cpp:28-31 | two inputs give the same pinned result exactly when they agree at every unpinned position |
| Pins.ApplyPinsIdempotent | main.cpp:28-31 | writing the same pins twice equals writing them once |
| Pins.PinnedFixedPoint | main.cpp:26-32 | set_fixed leaves a sequence unchanged exactly when it already holds every pin's last value |
| Pins.SetFixed | main.cpp:26-32 | the in-place loop over the pin list leaves the array equal to ApplyPins of its previous contents |
| Smoother.Stencil | main.cpp:54-60 | the averaging pass (endpoint copies from v, interior cells the mean of their neighbours in prev, via `Mean`) keeps the length; its cell contents are stated by StepCell |
| Smoother.Step | main.cpp:47-62 | one iteration builds a sequence of the input's length |
| Smoother.StepCell | main.cpp:54-62 | after one step a cell holds its last pin if it has one, else the original input's value at an endpoint, else the mean of its two neighbours in the previous iterate |
| Smoother.StepSettled | main.cpp:54-62 | whatever the previous iterate, one step leaves every pin in place and every unpinned endpoint at the input's value |
| Smoother.Iterate | main.cpp:45-70 | running k more steps from a given iterate keeps the length; IterateSettled and IterateSucc state what the steps compute |
| Smoother.Smooth | main.cpp:34-73 | smooth_vector keeps the length and, when m = 0, returns the input as given without writing the pins |
| Smoother.IterateSettled | main.cpp:45-70 | after at least one run of the loop every pin holds and every unpinned endpoint equals the input |
| Smoother.SmoothSettled | main.cpp:34-73 | for m >= 1 the result holds every pin and keeps unpinned endpoints at the input's values |
| Smoother.IterateSucc | main.cpp:45-70 | running the loop one step longer applies one more step to its result |
| Smoother.SmoothSucc | main.cpp:45-68 | the result after m+1 steps is one step applied to the result after m steps |
| Smoother.SmoothInterior | main.cpp:57-60 | an unpinned interior cell after m >= 1 steps is the mean of its two neighbours after m-1 steps, its own old value left out |
| Smoother.SmoothHoldsPins | main.cpp:62 | after m >= 1 steps, every pin not overridden by a later pin for its index holds its value |
| Smoother.SmoothEndpoints | main.cpp:54-55 | for every m, an endpoint no pin addresses equals the original input's value and is never averaged |
| Smoother.StepRulesAgree | main.cpp:54-55 | where the previous iterate agrees with the input at the unpinned endpoints, copying endpoints from either gives the same step, which agrees again |
| Smoother.IterateRulesAgree | main.cpp:45-70 | under the same agreement, the loop gives the same result with either endpoint rule |
| Smoother.SmoothEndpointRulesAgree | main.cpp:54-55 | copying endpoints from the original input or from the previous iterate yields the same result for every m |
| Smoother.EquilibriumIffStepFixed | main.cpp:54-62 | a step from a sequence to itself changes nothing exactly when it holds its pins and each unpinned interior cell is the mean of its neighbours |
| Smoother.IterateFixed | main.cpp:45-70 | a sequence that one step leaves unchanged is left unchanged by any number of steps |
| Smoother.EquilibriumStable | main.cpp:34-73 | an equilibrium input is returned unchanged for every m |
| Smoother.AllPinned | main.cpp:54-62 | when every position is pinned, any m >= 1 yields the pinned input, whatever the input held |
| Smoother.StepBuffer | main.cpp:47-62 | the buffer loop, endpoint copies and in-place pin write compute exactly one step |
| Smoother.SmoothVector | main.cpp:34-73 | the loop over fresh buffers computes exactly the m-step result |
| Scenario.ReferencePins | main.cpp:113 | the driver's pins are valid for n >= 3 and address exactly positions 0, n/2 and n-1 |
| Scenario.ReferenceInput | main.cpp:96-114 | the driver's input is 1.0 at positions 0, n/2 and n-1 and 0.0 elsewhere |
| Scenario.ReferenceRunHoldsPins | main.cpp:113-125 | for every n >= 3 and m >= 1, the driver's run holds 1.0 at positions 0, n/2 and n-1 |
| Scenario.ReferenceScenario | main.cpp:113-125 | in the reference configuration, n = 10 (the NSIZE default) and m = 1, the run yields [1, 0.5, 0, 0, 0.5, 1, 0.5, 0, 0.5, 1] |

## Left out

- Argument handling in `main` (lines 77-89): `atoi` parsing, the argument-count checks and the unused parameter `N` are driver code. `m` is a parameter of `Smooth`.
- Console output and the `OUTPUT_RESULT` dumps (lines 80, 94-111, 116-123, 127-135): I/O.
- `std::chrono` timing (lines 124-138): instrumentation with no effect on the result.
- The `STD_ARRAY` build switch (lines 20-24, 36-41, 48-52, 64-68): both branches compute the same values, so one sequence abstraction models both.
- IEEE-754 `double` rounding: values are exact reals, and the proved properties are structural.
- Determinism needs no lemma: every operation is a pure function of its inputs.
