/** Stochastic "zombie apocalypse" simulated with the Gillespie algorithm. Two reaction
    channels act on the integer counts of susceptibles S, zombies Z and removed R:
    a bite (S, Z) -> (Z, Z) with propensity b*S*Z and a kill (S, Z) -> (S, R) with
    propensity k*S*Z. The run appends one entry per event to four parallel lists. */
module Gillespie {

  /** The four lists the simulation extends: the S, Z and R counts and the event times. */
  datatype Trace = Trace(S: seq<int>, Z: seq<int>, R: seq<int>, t: seq<real>)

  function Last<T>(s: seq<T>): T
    requires |s| > 0
  {
    s[|s| - 1]
  }

  /** A simulation can start from tr: every list has a last value to read, and the
      current susceptible and zombie counts are non-negative. */
  predicate Runnable(tr: Trace) {
    && |tr.S| > 0 && |tr.Z| > 0 && |tr.R| > 0 && |tr.t| > 0
    && Last(tr.S) >= 0 && Last(tr.Z) >= 0
  }

  /** The four lists have one entry per time point. */
  predicate Parallel(tr: Trace) {
    |tr.S| == |tr.Z| == |tr.R| == |tr.t|
  }

  /** The propensities [b*S*Z, k*S*Z] of the bite and the kill channel. */
  function Propensities(s: int, z: int, killRate: real, biteRate: real): (real, real) {
    (biteRate * (s as real) * (z as real), killRate * (s as real) * (z as real))
  }

  /** The sum of a list of propensities (np.sum). */
  function Sum(propensities: (real, real)): real {
    propensities.0 + propensities.1
  }

  function PropensitySum(s: int, z: int, killRate: real, biteRate: real): real {
    Sum(Propensities(s, z, killRate, biteRate))
  }

  /** No reaction is possible once the susceptibles or the zombies are gone. */
  lemma NoPropensityWhenExtinct(s: int, z: int, killRate: real, biteRate: real)
    requires s == 0 || z == 0
    ensures Propensities(s, z, killRate, biteRate) == (0.0, 0.0)
    ensures PropensitySum(s, z, killRate, biteRate) == 0.0
  {
    if s == 0 {
      assert biteRate * (s as real) == 0.0 && killRate * (s as real) == 0.0;
    } else {
      assert (s as real) * (z as real) == 0.0;
      assert biteRate * (s as real) * (z as real) == biteRate * ((s as real) * (z as real));
      assert killRate * (s as real) * (z as real) == killRate * ((s as real) * (z as real));
    }
  }

  /** An event can fire only when both the susceptibles and the zombies are present. */
  lemma ReactingCountsArePositive(s: int, z: int, killRate: real, biteRate: real)
    requires s >= 0 && z >= 0 && PropensitySum(s, z, killRate, biteRate) != 0.0
    ensures s > 0 && z > 0
  {
    if s == 0 || z == 0 {
      NoPropensityWhenExtinct(s, z, killRate, biteRate);
    }
  }

  /** With positive rates and non-negative counts the total propensity is zero exactly
      when S = 0 or Z = 0. */
  lemma PropensitySumZero(s: int, z: int, killRate: real, biteRate: real)
    requires killRate > 0.0 && biteRate > 0.0 && s >= 0 && z >= 0
    ensures PropensitySum(s, z, killRate, biteRate) == 0.0 <==> (s == 0 || z == 0)
  {
    if s > 0 && z > 0 {
      var sz := (s as real) * (z as real);
      assert sz > 0.0;
      assert biteRate * (s as real) * (z as real) == biteRate * sz;
      assert killRate * (s as real) * (z as real) == killRate * sz;
      assert PropensitySum(s, z, killRate, biteRate) == (biteRate + killRate) * sz;
      assert (biteRate + killRate) * sz > 0.0;
    }
  }

  /** With non-negative rates every channel has a non-negative propensity, so a total
      that is not zero is positive. */
  lemma PropensitySumPositive(s: int, z: int, killRate: real, biteRate: real)
    requires killRate >= 0.0 && biteRate >= 0.0 && s >= 0 && z >= 0
    requires PropensitySum(s, z, killRate, biteRate) != 0.0
    ensures PropensitySum(s, z, killRate, biteRate) > 0.0
  {
    var sz := (s as real) * (z as real);
    assert sz >= 0.0;
    assert biteRate * (s as real) * (z as real) == biteRate * sz;
    assert killRate * (s as real) * (z as real) == killRate * sz;
    assert biteRate * sz >= 0.0 && killRate * sz >= 0.0;
  }

  /** Outside non-negative counts the loop of the source need not end. From S < 0 < Z with
      positive rates, the total propensity is negative and not zero, so the loop does
      not break. A draw r2 with r2 (b + k) >= b picks the bite, which keeps S < 0 < Z.
      With ln(1/r1) > 0 the sojourn time is negative, so the last time falls and the
      test t[-1] < t_end keeps holding. For example, S = -1, Z = 1, b = 0.1, k = 0.06
      and r2 = 0.7 every time. */
  lemma NegativeSusceptiblesNeverStop(tr: Trace, killRate: real, biteRate: real, r2: real, expDraw: real)
    requires |tr.S| > 0 && |tr.Z| > 0 && |tr.R| > 0 && |tr.t| > 0
    requires Last(tr.S) < 0 && Last(tr.Z) > 0 && killRate > 0.0 && biteRate > 0.0
    requires r2 * (biteRate + killRate) >= biteRate && expDraw > 0.0
    ensures var propensities := Propensities(Last(tr.S), Last(tr.Z), killRate, biteRate);
            var propensitySum := Sum(propensities);
            && propensitySum < 0.0
            && BiteChosen(r2, propensities)
            && var next := AppendEvent(tr, SojournTime(propensitySum, expDraw), true);
               Last(next.S) < 0 && Last(next.Z) > 0 && Last(next.t) < Last(tr.t)
  {
    var s, z := Last(tr.S) as real, Last(tr.Z) as real;
    var sz := s * z;
    assert sz < 0.0;
    var propensities := Propensities(Last(tr.S), Last(tr.Z), killRate, biteRate);
    assert propensities.0 == biteRate * sz;
    assert propensities.1 == killRate * sz;
    var propensitySum := Sum(propensities);
    assert propensitySum == (biteRate + killRate) * sz;
    assert (biteRate + killRate) * sz < 0.0;
    assert r2 * propensitySum == (r2 * (biteRate + killRate)) * sz;
    assert (r2 * (biteRate + killRate)) * sz <= biteRate * sz;
    assert 1.0 / propensitySum < 0.0;
    assert SojournTime(propensitySum, expDraw) < 0.0;
  }

  /** The sojourn time (1/sum) * ln(1/r1), with expDraw standing for ln(1/r1). */
  function SojournTime(propensitySum: real, expDraw: real): real
    requires propensitySum != 0.0
  {
    (1.0 / propensitySum) * expDraw
  }

  /** The bite channel fires when r2 * sum does not exceed the bite propensity. */
  predicate BiteChosen(r2: real, propensities: (real, real)) {
    r2 * Sum(propensities) <= propensities.0
  }

  /** Appends one event to the four lists: the time moves on by tau, and either a bite
      (S-1, Z+1, R) or a kill (S, Z-1, R+1) happens. */
  function AppendEvent(tr: Trace, tau: real, bite: bool): Trace
    requires |tr.S| > 0 && |tr.Z| > 0 && |tr.R| > 0 && |tr.t| > 0
  {
    Trace(tr.S + [if bite then Last(tr.S) - 1 else Last(tr.S)],
          tr.Z + [if bite then Last(tr.Z) + 1 else Last(tr.Z) - 1],
          tr.R + [if bite then Last(tr.R) else Last(tr.R) + 1],
          tr.t + [Last(tr.t) + tau])
  }

  /** One pass of the loop body when the total propensity is not zero: event number i
      draws expDraw(i), standing for ln(1/r1), so that the sojourn time is
      (1/sum) * expDraw(i), and r2(i), which picks the bite exactly when r2 * sum does
      not exceed the bite propensity. */
  function Advance(tr: Trace, killRate: real, biteRate: real, expDraw: nat -> real, r2: nat -> real, i: nat): (next: Trace)
    requires Runnable(tr) && PropensitySum(Last(tr.S), Last(tr.Z), killRate, biteRate) != 0.0
    ensures Runnable(next)
    ensures Last(tr.S) > 0 && Last(tr.Z) > 0
    ensures tr.S <= next.S && tr.Z <= next.Z && tr.R <= next.R && tr.t <= next.t
    ensures |next.S| == |tr.S| + 1 && |next.Z| == |tr.Z| + 1 && |next.R| == |tr.R| + 1 && |next.t| == |tr.t| + 1
    ensures 2 * Last(next.S) + Last(next.Z) == 2 * Last(tr.S) + Last(tr.Z) - 1
    ensures || (Last(next.S) == Last(tr.S) - 1 && Last(next.Z) == Last(tr.Z) + 1 && Last(next.R) == Last(tr.R))
            || (Last(next.S) == Last(tr.S) && Last(next.Z) == Last(tr.Z) - 1 && Last(next.R) == Last(tr.R) + 1)
    ensures var propensities := Propensities(Last(tr.S), Last(tr.Z), killRate, biteRate);
            && (Last(next.S) == Last(tr.S) - 1 <==> BiteChosen(r2(i), propensities))
            && Last(next.t) == Last(tr.t) + SojournTime(Sum(propensities), expDraw(i))
  {
    ReactingCountsArePositive(Last(tr.S), Last(tr.Z), killRate, biteRate);
    var propensities := Propensities(Last(tr.S), Last(tr.Z), killRate, biteRate);
    var propensitySum := Sum(propensities);
    AppendEvent(tr, SojournTime(propensitySum, expDraw(i)), BiteChosen(r2(i), propensities))
  }

  /** The lists the simulation loop leaves behind when it starts from tr with event
      number i next. */
  function Simulate(tr: Trace, tEnd: real, killRate: real, biteRate: real,
                    expDraw: nat -> real, r2: nat -> real, i: nat): Trace
    requires Runnable(tr)
    decreases 2 * Last(tr.S) + Last(tr.Z)
  {
    if Last(tr.t) >= tEnd then tr
    else if PropensitySum(Last(tr.S), Last(tr.Z), killRate, biteRate) == 0.0 then tr
    else Simulate(Advance(tr, killRate, biteRate, expDraw, r2, i), tEnd, killRate, biteRate, expDraw, r2, i + 1)
  }

  /** The simulation only appends: each list given is a prefix of the list returned,
      all four gain the same number of entries, and 2S+Z falls by exactly one per
      event, so there are at most 2*S0 + Z0 events whatever the time horizon. */
  lemma {:induction false} SimulateExtends(tr: Trace, tEnd: real, killRate: real, biteRate: real,
                                          expDraw: nat -> real, r2: nat -> real, i: nat)
    requires Runnable(tr)
    decreases 2 * Last(tr.S) + Last(tr.Z)
    ensures var result := Simulate(tr, tEnd, killRate, biteRate, expDraw, r2, i);
            var events := |result.S| - |tr.S|;
            && Runnable(result)
            && tr.S <= result.S && tr.Z <= result.Z && tr.R <= result.R && tr.t <= result.t
            && |result.Z| - |tr.Z| == events && |result.R| - |tr.R| == events
            && |result.t| - |tr.t| == events
            && 2 * Last(result.S) + Last(result.Z) == 2 * Last(tr.S) + Last(tr.Z) - events
            && events <= 2 * Last(tr.S) + Last(tr.Z)
  {
    if Last(tr.t) < tEnd && PropensitySum(Last(tr.S), Last(tr.Z), killRate, biteRate) != 0.0 {
      var next := Advance(tr, killRate, biteRate, expDraw, r2, i);
      SimulateExtends(next, tEnd, killRate, biteRate, expDraw, r2, i + 1);
    }
  }

  /** The loop ends only when the last time has reached the horizon or the total
      propensity of the last state is zero. */
  lemma {:induction false} SimulateStops(tr: Trace, tEnd: real, killRate: real, biteRate: real,
                                        expDraw: nat -> real, r2: nat -> real, i: nat)
    requires Runnable(tr)
    decreases 2 * Last(tr.S) + Last(tr.Z)
    ensures var result := Simulate(tr, tEnd, killRate, biteRate, expDraw, r2, i);
            Runnable(result) &&
            (Last(result.t) >= tEnd || PropensitySum(Last(result.S), Last(result.Z), killRate, biteRate) == 0.0)
  {
    if Last(tr.t) < tEnd && PropensitySum(Last(tr.S), Last(tr.Z), killRate, biteRate) != 0.0 {
      var next := Advance(tr, killRate, biteRate, expDraw, r2, i);
      SimulateStops(next, tEnd, killRate, biteRate, expDraw, r2, i + 1);
    }
  }

  /** With S = 0 or Z = 0 nothing can react: the loop stops without appending. */
  lemma ZeroPropensityAppendsNothing(tr: Trace, tEnd: real, killRate: real, biteRate: real,
                                     expDraw: nat -> real, r2: nat -> real, i: nat)
    requires Runnable(tr) && (Last(tr.S) == 0 || Last(tr.Z) == 0)
    ensures Simulate(tr, tEnd, killRate, biteRate, expDraw, r2, i) == tr
  {
    NoPropensityWhenExtinct(Last(tr.S), Last(tr.Z), killRate, biteRate);
  }

  /** When the loop runs at all, its first event is a bite exactly when
      r2 * sum <= b*S*Z, and it happens after the sojourn time (1/sum) * expDraw(i). */
  lemma FirstEvent(tr: Trace, tEnd: real, killRate: real, biteRate: real,
                   expDraw: nat -> real, r2: nat -> real, i: nat)
    requires Runnable(tr) && Last(tr.t) < tEnd
    requires PropensitySum(Last(tr.S), Last(tr.Z), killRate, biteRate) != 0.0
    ensures var result := Simulate(tr, tEnd, killRate, biteRate, expDraw, r2, i);
            var propensities := Propensities(Last(tr.S), Last(tr.Z), killRate, biteRate);
            var propensitySum := Sum(propensities);
            && |result.S| > |tr.S| && |result.Z| > |tr.Z| && |result.t| > |tr.t|
            && (result.S[|tr.S|] == Last(tr.S) - 1 <==> r2(i) * propensitySum <= propensities.0)
            && (result.Z[|tr.Z|] == Last(tr.Z) + 1 <==> r2(i) * propensitySum <= propensities.0)
            && result.t[|tr.t|] == Last(tr.t) + (1.0 / propensitySum) * expDraw(i)
  {
    var next := Advance(tr, killRate, biteRate, expDraw, r2, i);
    SimulateExtends(next, tEnd, killRate, biteRate, expDraw, r2, i + 1);
    var result := Simulate(next, tEnd, killRate, biteRate, expDraw, r2, i + 1);
    assert result.S[|tr.S|] == next.S[|tr.S|];
    assert result.Z[|tr.Z|] == next.Z[|tr.Z|];
    assert result.t[|tr.t|] == next.t[|tr.t|];
  }

  // ---------------------------------------------------------------------------
  // What every event does to the parallel lists

  /** Entry j of parallel lists records an event applied to entry j-1: both S and Z were
      positive, and either a bite (S-1, Z+1, R) or a kill (S, Z-1, R+1) happened. */
  predicate IsEvent(tr: Trace, j: nat)
    requires Parallel(tr) && 0 < j < |tr.S|
  {
    && tr.S[j - 1] > 0 && tr.Z[j - 1] > 0
    && ((tr.S[j] == tr.S[j - 1] - 1 && tr.Z[j] == tr.Z[j - 1] + 1 && tr.R[j] == tr.R[j - 1]) ||
        (tr.S[j] == tr.S[j - 1] && tr.Z[j] == tr.Z[j - 1] - 1 && tr.R[j] == tr.R[j - 1] + 1))
  }

  /** Every entry after index `from` records an event. */
  predicate EventsFrom(tr: Trace, from: nat) {
    && Parallel(tr) && from < |tr.S|
    && forall j :: from < j < |tr.S| ==> IsEvent(tr, j)
  }

  /** Every time after index `from` is at least the one before it. */
  predicate TimeOrderedFrom(t: seq<real>, from: nat) {
    forall j :: from < j < |t| ==> t[j - 1] <= t[j]
  }

  /** Starting from parallel lists, the simulation keeps them parallel, and every entry
      it appends records a bite or a kill applied to the entry before. */
  lemma {:induction false} SimulateEvents(tr: Trace, from: nat, tEnd: real, killRate: real, biteRate: real,
                                         expDraw: nat -> real, r2: nat -> real, i: nat)
    requires Runnable(tr) && EventsFrom(tr, from)
    decreases 2 * Last(tr.S) + Last(tr.Z)
    ensures EventsFrom(Simulate(tr, tEnd, killRate, biteRate, expDraw, r2, i), from)
  {
    if Last(tr.t) < tEnd && PropensitySum(Last(tr.S), Last(tr.Z), killRate, biteRate) != 0.0 {
      var next := Advance(tr, killRate, biteRate, expDraw, r2, i);
      assert IsEvent(next, |tr.S|);
      assert EventsFrom(next, from) by {
        forall j | from < j < |next.S|
          ensures IsEvent(next, j)
        {
          if j < |tr.S| {
            assert IsEvent(tr, j);
          }
        }
      }
      SimulateEvents(next, from, tEnd, killRate, biteRate, expDraw, r2, i + 1);
    }
  }

  /** With non-negative rates and sojourn draws, the appended times never decrease. */
  lemma {:induction false} SimulateTimeOrdered(tr: Trace, from: nat, tEnd: real, killRate: real, biteRate: real,
                                              expDraw: nat -> real, r2: nat -> real, i: nat)
    requires Runnable(tr) && TimeOrderedFrom(tr.t, from)
    requires killRate >= 0.0 && biteRate >= 0.0
    requires forall k: nat :: expDraw(k) >= 0.0
    decreases 2 * Last(tr.S) + Last(tr.Z)
    ensures TimeOrderedFrom(Simulate(tr, tEnd, killRate, biteRate, expDraw, r2, i).t, from)
  {
    var propensitySum := PropensitySum(Last(tr.S), Last(tr.Z), killRate, biteRate);
    if Last(tr.t) < tEnd && propensitySum != 0.0 {
      PropensitySumPositive(Last(tr.S), Last(tr.Z), killRate, biteRate);
      var next := Advance(tr, killRate, biteRate, expDraw, r2, i);
      assert (1.0 / propensitySum) * expDraw(i) >= 0.0;
      assert TimeOrderedFrom(next.t, from) by {
        forall j | from < j < |next.t|
          ensures next.t[j - 1] <= next.t[j]
        {
          if j < |tr.t| {
            assert tr.t[j - 1] <= tr.t[j];
          }
        }
      }
      SimulateTimeOrdered(next, from, tEnd, killRate, biteRate, expDraw, r2, i + 1);
    }
  }

  /** Between two indices at or after `from`, the total S+Z+R stays the same, S does not
      grow, R does not shrink, and 2S+Z falls by exactly the number of events. */
  lemma {:induction false} EventsBetween(tr: Trace, from: nat, i: nat, j: nat)
    requires EventsFrom(tr, from) && from <= i <= j < |tr.S|
    ensures tr.S[j] + tr.Z[j] + tr.R[j] == tr.S[i] + tr.Z[i] + tr.R[i]
    ensures tr.S[j] <= tr.S[i] && tr.R[i] <= tr.R[j]
    ensures 2 * tr.S[j] + tr.Z[j] == 2 * tr.S[i] + tr.Z[i] - (j - i)
  {
    if i < j {
      EventsBetween(tr, from, i, j - 1);
      assert IsEvent(tr, j);
    }
  }

  /** No count becomes negative after index `from` if none was negative there. */
  lemma EventsNonNegative(tr: Trace, from: nat, j: nat)
    requires EventsFrom(tr, from) && from <= j < |tr.S|
    requires tr.S[from] >= 0 && tr.Z[from] >= 0 && tr.R[from] >= 0
    ensures tr.S[j] >= 0 && tr.Z[j] >= 0 && tr.R[j] >= 0
  {
    EventsBetween(tr, from, from, j);
    if j > from {
      assert IsEvent(tr, j);
    }
  }

  /** The properties of one run from the one-element lists [s0], [z0], [r0], [t0]: the
      lists stay parallel; S+Z+R is the same at every index; S never grows and R never
      shrinks; no count is negative; there are at most 2*s0 + z0 events; with
      non-negative rates and sojourn draws the times never decrease; and the run ends at
      the horizon or in a state with S = 0 or Z = 0 when both rates are positive. */
  lemma RunFromInitialState(s0: int, z0: int, r0: int, t0: real, tEnd: real, killRate: real, biteRate: real,
                            expDraw: nat -> real, r2: nat -> real)
    requires s0 >= 0 && z0 >= 0 && r0 >= 0
    ensures var result := Simulate(Trace([s0], [z0], [r0], [t0]), tEnd, killRate, biteRate, expDraw, r2, 0);
            && Parallel(result) && Runnable(result)
            && |result.S| - 1 <= 2 * s0 + z0
            && (forall j :: 0 <= j < |result.S| ==> result.S[j] + result.Z[j] + result.R[j] == s0 + z0 + r0)
            && (forall j :: 0 <= j < |result.S| ==> result.S[j] >= 0 && result.Z[j] >= 0 && result.R[j] >= 0)
            && (forall i, j :: 0 <= i <= j < |result.S| ==> result.S[j] <= result.S[i] && result.R[i] <= result.R[j])
            && (killRate >= 0.0 && biteRate >= 0.0 && (forall k: nat :: expDraw(k) >= 0.0) ==>
                  forall j :: 0 < j < |result.t| ==> result.t[j - 1] <= result.t[j])
            && (killRate > 0.0 && biteRate > 0.0 ==>
                  Last(result.t) >= tEnd || Last(result.S) == 0 || Last(result.Z) == 0)
  {
    var tr := Trace([s0], [z0], [r0], [t0]);
    var result := Simulate(tr, tEnd, killRate, biteRate, expDraw, r2, 0);
    SimulateExtends(tr, tEnd, killRate, biteRate, expDraw, r2, 0);
    SimulateEvents(tr, 0, tEnd, killRate, biteRate, expDraw, r2, 0);
    SimulateStops(tr, tEnd, killRate, biteRate, expDraw, r2, 0);
    assert result.S[0] == s0 && result.Z[0] == z0 && result.R[0] == r0;
    forall j | 0 <= j < |result.S|
      ensures result.S[j] + result.Z[j] + result.R[j] == s0 + z0 + r0
      ensures result.S[j] >= 0 && result.Z[j] >= 0 && result.R[j] >= 0
    {
      EventsBetween(result, 0, 0, j);
      EventsNonNegative(result, 0, j);
    }
    forall i, j | 0 <= i <= j < |result.S|
      ensures result.S[j] <= result.S[i] && result.R[i] <= result.R[j]
    {
      EventsBetween(result, 0, i, j);
    }
    if killRate >= 0.0 && biteRate >= 0.0 && (forall k: nat :: expDraw(k) >= 0.0) {
      SimulateTimeOrdered(tr, 0, tEnd, killRate, biteRate, expDraw, r2, 0);
    }
    if killRate > 0.0 && biteRate > 0.0 {
      PropensitySumZero(Last(result.S), Last(result.Z), killRate, biteRate);
    }
  }

  // ---------------------------------------------------------------------------
  // run_simulation

  /** The caller's four lists, which the simulation extends in place. */
  class Populations {
    var S: seq<int>
    var Z: seq<int>
    var R: seq<int>
    var t: seq<real>

    function Current(): Trace
      reads this
    {
      Trace(S, Z, R, t)
    }

    ghost predicate Valid()
      reads this
    {
      Runnable(Current())
    }

    /** The one-element lists [S0], [Z0], [R0], [t0] the script starts from. */
    constructor (s0: int, z0: int, r0: int, t0: real)
      requires s0 >= 0 && z0 >= 0
      ensures Valid() && S == [s0] && Z == [z0] && R == [r0] && t == [t0]
    {
      S, Z, R, t := [s0], [z0], [r0], [t0];
    }

    /** The rest of one pass of the loop once the propensity sum is known not to be zero:
        appends the time after the sojourn (1 / propensitySum) * e, where e stands for
        ln(1/r1), and then either a bite (S - 1, Z + 1, R), when u * propensitySum does
        not exceed the bite propensity, or a kill (S, Z - 1, R + 1). */
    method Fire(propensities: (real, real), propensitySum: real, e: real, u: real)
      requires Valid()
      requires propensitySum == Sum(propensities) && propensitySum != 0.0
      modifies this
      ensures Current() == AppendEvent(old(Current()), SojournTime(propensitySum, e), BiteChosen(u, propensities))
    {
      var tau := SojournTime(propensitySum, e);
      t := t + [Last(t) + tau];
      if BiteChosen(u, propensities) {
        S := S + [Last(S) - 1];
        Z := Z + [Last(Z) + 1];
        R := R + [Last(R)];
      } else {
        S := S + [Last(S)];
        Z := Z + [Last(Z) - 1];
        R := R + [Last(R) + 1];
      }
    }

    /** While the last time is before tEnd: stop if the total propensity is zero,
        otherwise append the next time and one bite or kill to the lists. */
    method RunSimulation(tEnd: real, killRate: real, biteRate: real, expDraw: nat -> real, r2: nat -> real)
      requires Valid()
      modifies this
      ensures Valid()
      ensures Current() == Simulate(old(Current()), tEnd, killRate, biteRate, expDraw, r2, 0)
    {
      var i := 0;
      while Last(t) < tEnd
        invariant Valid()
        invariant Simulate(Current(), tEnd, killRate, biteRate, expDraw, r2, i) ==
                  Simulate(old(Current()), tEnd, killRate, biteRate, expDraw, r2, 0)
        decreases 2 * Last(S) + Last(Z)
      {
        var propensities := Propensities(Last(S), Last(Z), killRate, biteRate);
        var propensitySum := Sum(propensities);
        if propensitySum == 0.0 {
          break;
        }
        ghost var before := Current();
        Fire(propensities, propensitySum, expDraw(i), r2(i));
        assert Current() == Advance(before, killRate, biteRate, expDraw, r2, i);
        i := i + 1;
      }
    }
  }
}
