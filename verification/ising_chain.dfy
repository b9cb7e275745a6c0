/** One-dimensional Ising chain on a periodic ring, relaxed by Metropolis Monte Carlo.
    A configuration is a sequence of spins; site i interacts with site (i + 1) mod n,
    and every bond also feels an external field of strength one half per spin. */
module IsingChain {

  datatype Option<T> = None | Some(value: T)

  /** Every site holds a spin of -1 or +1. */
  predicate ValidSpins(c: seq<int>) {
    forall i :: 0 <= i < |c| ==> c[i] == -1 || c[i] == 1
  }

  /** The right-hand neighbour of site i on a ring of n sites (np.roll by -1). */
  function Next(n: nat, i: nat): (j: nat)
    requires i < n
    ensures j < n
  {
    if i + 1 == n then 0 else i + 1
  }

  /** Next is the successor modulo the ring size. */
  lemma NextIsSuccessorMod(n: nat, i: nat)
    requires i < n
    ensures Next(n, i) == (i + 1) % n
  {
  }

  /** The left-hand neighbour of site i on a ring of n sites. */
  function Prev(n: nat, i: nat): (j: nat)
    requires i < n
    ensures j < n && Next(n, j) == i
  {
    if i == 0 then n - 1 else i - 1
  }

  /** Twice the negated energy of bond i: 2 * (s_i * s_next + (s_i + s_next) / 2). */
  function TwiceBond(c: seq<int>, i: nat): int
    requires i < |c|
  {
    2 * c[i] * c[Next(|c|, i)] + c[i] + c[Next(|c|, i)]
  }

  /** Sum of TwiceBond over the bonds 0 .. k-1. */
  function TwiceBondSum(c: seq<int>, k: nat): int
    requires k <= |c|
  {
    if k == 0 then 0 else TwiceBondSum(c, k - 1) + TwiceBond(c, k - 1)
  }

  /** The Hamiltonian of a configuration: minus the sum of its bond energies. */
  function Energy(c: seq<int>): real {
    -(TwiceBondSum(c, |c|) as real) / 2.0
  }

  /** Sum of the spins at sites 0 .. k-1. */
  function SpinSum(c: seq<int>, k: nat): int
    requires k <= |c|
  {
    if k == 0 then 0 else SpinSum(c, k - 1) + c[k - 1]
  }

  /** Sum of the nearest-neighbour products over bonds 0 .. k-1. */
  function PairSum(c: seq<int>, k: nat): int
    requires k <= |c|
  {
    if k == 0 then 0 else PairSum(c, k - 1) + c[k - 1] * c[Next(|c|, k - 1)]
  }

  /** Sum of the right-hand neighbours of sites 0 .. k-1. */
  function ShiftSum(c: seq<int>, k: nat): int
    requires k <= |c|
  {
    if k == 0 then 0 else ShiftSum(c, k - 1) + c[Next(|c|, k - 1)]
  }

  /** Number of sites among 0 .. k-1 whose spin is v. */
  function CountUpTo(c: seq<int>, v: int, k: nat): nat
    requires k <= |c|
  {
    if k == 0 then 0 else CountUpTo(c, v, k - 1) + (if c[k - 1] == v then 1 else 0)
  }

  /** Python's list.count. */
  function Count(c: seq<int>, v: int): nat {
    CountUpTo(c, v, |c|)
  }

  /** The candidate configuration: site p multiplied by -1. */
  function Flip(c: seq<int>, p: nat): seq<int>
    requires p < |c|
  {
    c[p := -c[p]]
  }

  /** Number of positions at which two equally long configurations differ. */
  function HammingDistance(a: seq<int>, b: seq<int>): nat
    requires |a| == |b|
  {
    if |a| == 0 then 0
    else HammingDistance(a[..|a| - 1], b[..|b| - 1]) + (if a[|a| - 1] != b[|b| - 1] then 1 else 0)
  }

  /** The energy change of flipping site p, computed from its two neighbours only. */
  function LocalDelta(c: seq<int>, p: nat): int
    requires p < |c|
  {
    2 * c[p] * (c[Prev(|c|, p)] + c[Next(|c|, p)] + 1)
  }

  // ---------------------------------------------------------------------------
  // calculate_energy

  /** Accumulates the Hamiltonian bond by bond, as the source's loop does. */
  method CalculateEnergy(configuration: seq<int>) returns (hamiltonian: real)
    ensures hamiltonian == Energy(configuration)
  {
    hamiltonian := 0.0;
    var i := 0;
    while i < |configuration|
      invariant 0 <= i <= |configuration|
      invariant hamiltonian == -(TwiceBondSum(configuration, i) as real) / 2.0
    {
      var state := configuration[i];
      var neighbour := configuration[Next(|configuration|, i)];
      hamiltonian := hamiltonian - ((state * neighbour) as real + 0.5 * ((state + neighbour) as real));
      i := i + 1;
    }
  }

  lemma {:induction false} ShiftSumPrefix(c: seq<int>, k: nat)
    requires k < |c|
    ensures ShiftSum(c, k) == SpinSum(c, k + 1) - c[0]
  {
    if k > 0 {
      ShiftSumPrefix(c, k - 1);
    }
  }

  /** Rolling the ring by one site does not change the total spin. */
  lemma {:induction false} ShiftSumIsSpinSum(c: seq<int>)
    ensures ShiftSum(c, |c|) == SpinSum(c, |c|)
  {
    if |c| > 0 {
      ShiftSumPrefix(c, |c| - 1);
    }
  }

  lemma {:induction false} TwiceBondSumSplit(c: seq<int>, k: nat)
    requires k <= |c|
    ensures TwiceBondSum(c, k) == 2 * PairSum(c, k) + SpinSum(c, k) + ShiftSum(c, k)
  {
    if k > 0 {
      TwiceBondSumSplit(c, k - 1);
    }
  }

  /** The field term of every bond adds up to the total spin, so the energy is
      -(sum of s_i s_{i+1} + sum of s_i). */
  lemma EnergyDecomposition(c: seq<int>)
    ensures Energy(c) == -((PairSum(c, |c|) + SpinSum(c, |c|)) as real)
  {
    TwiceBondSumSplit(c, |c|);
    ShiftSumIsSpinSum(c);
  }

  lemma {:induction false} TwiceBondSumBounds(c: seq<int>, k: nat)
    requires ValidSpins(c) && k <= |c|
    ensures -2 * k <= TwiceBondSum(c, k) <= 4 * k
  {
    if k > 0 {
      TwiceBondSumBounds(c, k - 1);
      var a, b := c[k - 1], c[Next(|c|, k - 1)];
      assert a == 1 || a == -1;
      assert b == 1 || b == -1;
    }
  }

  /** Every valid configuration has energy between -2n and n. */
  lemma EnergyBounds(c: seq<int>)
    requires ValidSpins(c)
    ensures -2.0 * (|c| as real) <= Energy(c) <= |c| as real
  {
    TwiceBondSumBounds(c, |c|);
  }

  lemma {:induction false} UniformTwiceBondSum(c: seq<int>, v: int, k: nat)
    requires k <= |c|
    requires forall i :: 0 <= i < |c| ==> c[i] == v
    ensures TwiceBondSum(c, k) == (2 * v * v + 2 * v) * k
  {
    if k > 0 {
      UniformTwiceBondSum(c, v, k - 1);
    }
  }

  /** The all-up configuration attains the lower bound -2n; because of the field
      term the all-down configuration has energy 0, not -2n. */
  lemma UniformEnergies(c: seq<int>)
    ensures (forall i :: 0 <= i < |c| ==> c[i] == 1) ==> Energy(c) == -2.0 * (|c| as real)
    ensures (forall i :: 0 <= i < |c| ==> c[i] == -1) ==> Energy(c) == 0.0
  {
    if forall i :: 0 <= i < |c| ==> c[i] == 1 {
      UniformTwiceBondSum(c, 1, |c|);
    }
    if forall i :: 0 <= i < |c| ==> c[i] == -1 {
      UniformTwiceBondSum(c, -1, |c|);
    }
  }

  lemma {:induction false} AlternatingTwiceBondSum(c: seq<int>, k: nat)
    requires |c| % 2 == 0 && k <= |c|
    requires forall i :: 0 <= i < |c| ==> c[i] == (if i % 2 == 0 then 1 else -1)
    ensures TwiceBondSum(c, k) == -2 * k
  {
    if k > 0 {
      AlternatingTwiceBondSum(c, k - 1);
      var i, j := k - 1, Next(|c|, k - 1);
      assert j == 0 || j == i + 1;
      assert c[i] == -c[j] by {
        if j == 0 {
          assert i % 2 == 1;
        } else {
          assert i % 2 != j % 2;
        }
      }
      assert c[i] * c[j] == -1 by {
        assert c[i] == 1 || c[i] == -1;
      }
    }
  }

  /** On an even ring the alternating configuration attains the upper bound n. */
  lemma AlternatingEnergy(c: seq<int>)
    requires |c| % 2 == 0
    requires forall i :: 0 <= i < |c| ==> c[i] == (if i % 2 == 0 then 1 else -1)
    ensures Energy(c) == |c| as real
  {
    AlternatingTwiceBondSum(c, |c|);
  }

  // ---------------------------------------------------------------------------
  // The energy difference of a single flip

  lemma BondAfterFlip(c: seq<int>, p: nat, i: nat)
    requires 2 <= |c| && p < |c| && i < |c|
    ensures TwiceBond(Flip(c, p), i) - TwiceBond(c, i) ==
      if i == p then -4 * c[p] * c[Next(|c|, p)] - 2 * c[p]
      else if i == Prev(|c|, p) then -4 * c[Prev(|c|, p)] * c[p] - 2 * c[p]
      else 0
  {
    var n := |c|;
    var c' := Flip(c, p);
    var j := Next(n, i);
    var a, b, a', b' := c[i], c[j], c'[i], c'[j];
    assert TwiceBond(c, i) == 2 * a * b + a + b;
    assert TwiceBond(c', i) == 2 * a' * b' + a' + b';
    if i == p {
      assert j != p;
      assert a' == -a && b' == b;
      assert 2 * a' * b' == -(2 * a * b);
    } else if i == Prev(n, p) {
      assert j == p;
      assert a' == a && b' == -b;
      assert 2 * a' * b' == -(2 * a * b);
    } else {
      assert j != p;
      assert a' == a && b' == b;
    }
  }

  lemma {:induction false} TwiceBondSumAfterFlip(c: seq<int>, p: nat, k: nat)
    requires 2 <= |c| && p < |c| && k <= |c|
    ensures TwiceBondSum(Flip(c, p), k) - TwiceBondSum(c, k) ==
      (if p < k then -4 * c[p] * c[Next(|c|, p)] - 2 * c[p] else 0) +
      (if Prev(|c|, p) < k then -4 * c[Prev(|c|, p)] * c[p] - 2 * c[p] else 0)
  {
    if k > 0 {
      TwiceBondSumAfterFlip(c, p, k - 1);
      BondAfterFlip(c, p, k - 1);
    }
  }

  /** Flipping site p of a ring with at least two sites changes the energy by exactly
      2 s_p (s_{p-1} + s_{p+1} + 1): the global difference the update computes equals
      the local formula. */
  lemma FlipDelta(c: seq<int>, p: nat)
    requires 2 <= |c| && p < |c|
    ensures Energy(Flip(c, p)) - Energy(c) == LocalDelta(c, p) as real
  {
    TwiceBondSumAfterFlip(c, p, |c|);
    var n := |c|;
    assert -4 * c[p] * c[Next(n, p)] - 2 * c[p] - 4 * c[Prev(n, p)] * c[p] - 2 * c[p]
        == -2 * LocalDelta(c, p);
  }

  /** For valid spins a flip never leaves the energy unchanged: it moves by 2 or 6. */
  lemma FlipDeltaValues(c: seq<int>, p: nat)
    requires ValidSpins(c) && 2 <= |c| && p < |c|
    ensures LocalDelta(c, p) in {-6, -2, 2, 6}
  {
    var a, b, s := c[Prev(|c|, p)], c[Next(|c|, p)], c[p];
    assert a == 1 || a == -1;
    assert b == 1 || b == -1;
    assert s == 1 || s == -1;
  }

  // ---------------------------------------------------------------------------
  // The Metropolis update

  /** One proposal: flip site p; keep the flip when the energy does not rise, or when it
      rises by d and the uniform draw u is at most the threshold r(d, t) (exp(-d/t) in
      the source); otherwise keep the current configuration. */
  function MetropolisStep(c: seq<int>, p: nat, t: real, u: real, r: (real, real) -> real): (result: seq<int>)
    requires p < |c|
    ensures result == c || result == Flip(c, p)
  {
    var next := Flip(c, p);
    var dEnergy := Energy(next) - Energy(c);
    if Accepts(dEnergy, u, r(dEnergy, t)) then next else c
  }

  /** Whether a proposal changing the energy by dEnergy is taken, given the uniform
      draw u and the threshold for dEnergy. */
  predicate Accepts(dEnergy: real, u: real, threshold: real) {
    dEnergy <= 0.0 || (dEnergy > 0.0 && u <= threshold)
  }

  /** The sites of the first k proposals all lie on a ring of `size` sites. */
  predicate SitesOnRing(position: nat -> nat, k: nat, size: nat) {
    k == 0 || (position(k - 1) < size && SitesOnRing(position, k - 1, size))
  }

  /** Each of the first k sites is on the ring. */
  lemma {:induction false} SiteOnRing(position: nat -> nat, k: nat, size: nat, i: nat)
    requires SitesOnRing(position, k, size) && i < k
    ensures position(i) < size
  {
    if i < k - 1 {
      SiteOnRing(position, k - 1, size, i);
    }
  }

  /** The configuration after the first k proposals of a run at temperature t. */
  function Sweep(c: seq<int>, k: nat, t: real, position: nat -> nat, uniform: nat -> real,
                 r: (real, real) -> real): (result: seq<int>)
    requires SitesOnRing(position, k, |c|)
    ensures |result| == |c|
  {
    if k == 0 then c
    else MetropolisStep(Sweep(c, k - 1, t, position, uniform, r), position(k - 1), t, uniform(k - 1), r)
  }

  /** The acceptance rule, stated with the local energy difference d: a proposal that
      does not raise the energy is always taken; one that raises it is taken exactly
      when u <= r(d, t); a rejected proposal leaves the configuration as it was. */
  lemma AcceptanceRule(c: seq<int>, p: nat, t: real, u: real, r: (real, real) -> real)
    requires ValidSpins(c) && 2 <= |c| && p < |c|
    ensures var d := LocalDelta(c, p) as real;
            var result := MetropolisStep(c, p, t, u, r);
            && (d <= 0.0 ==> result == Flip(c, p))
            && (d > 0.0 ==> (result == Flip(c, p) <==> u <= r(d, t)))
            && (result == c || result == Flip(c, p))
            && (result != c <==> result == Flip(c, p))
  {
    FlipDelta(c, p);
    assert Flip(c, p)[p] != c[p];
  }

  lemma {:induction false} HammingTriangle(a: seq<int>, b: seq<int>, c: seq<int>)
    requires |a| == |b| == |c|
    ensures HammingDistance(a, c) <= HammingDistance(a, b) + HammingDistance(b, c)
  {
    if |a| > 0 {
      HammingTriangle(a[..|a| - 1], b[..|b| - 1], c[..|c| - 1]);
    }
  }

  lemma {:induction false} HammingUpdate(a: seq<int>, p: nat, x: int)
    requires p < |a|
    ensures HammingDistance(a, a[p := x]) <= 1
  {
    var b := a[p := x];
    var n := |a|;
    if p == n - 1 {
      assert a[..n - 1] == b[..n - 1];
      HammingSame(a[..n - 1]);
    } else {
      assert b[..n - 1] == a[..n - 1][p := x];
      HammingUpdate(a[..n - 1], p, x);
    }
  }

  lemma {:induction false} HammingSame(a: seq<int>)
    ensures HammingDistance(a, a) == 0
  {
    if |a| > 0 {
      HammingSame(a[..|a| - 1]);
    }
  }

  /** Over k proposals the configuration keeps its length and its spin domain, and it
      moves away from the start in at most k positions (at most one per proposal). */
  lemma {:induction false} SweepInvariants(c: seq<int>, k: nat, t: real, position: nat -> nat,
                                          uniform: nat -> real, r: (real, real) -> real)
    requires SitesOnRing(position, k, |c|)
    ensures ValidSpins(c) ==> ValidSpins(Sweep(c, k, t, position, uniform, r))
    ensures HammingDistance(c, Sweep(c, k, t, position, uniform, r)) <= k
  {
    if k == 0 {
      HammingSame(c);
    } else {
      var prev := Sweep(c, k - 1, t, position, uniform, r);
      var p := position(k - 1);
      SweepInvariants(c, k - 1, t, position, uniform, r);
      var next := MetropolisStep(prev, p, t, uniform(k - 1), r);
      assert next == prev || next == Flip(prev, p);
      if next == prev {
        HammingSame(prev);
      } else {
        HammingUpdate(prev, p, -prev[p]);
      }
      HammingTriangle(c, prev, next);
    }
  }

  // ---------------------------------------------------------------------------
  // update_configuration

  /** One pass of the update loop: flip the spin at randomPosition in a copy of the
      configuration, compare the energies of the two configurations and keep the copy
      when the energy does not rise or when the draw u is at most r(dEnergy, t). */
  method Propose(currentConfig: seq<int>, randomPosition: nat, t: real, u: real,
                 r: (real, real) -> real)
    returns (result: seq<int>)
    requires randomPosition < |currentConfig|
    ensures result == MetropolisStep(currentConfig, randomPosition, t, u, r)
  {
    var nextConfig := currentConfig;
    nextConfig := nextConfig[randomPosition := -nextConfig[randomPosition]];
    var currentEnergy := CalculateEnergy(currentConfig);
    var nextEnergy := CalculateEnergy(nextConfig);
    var dEnergy := nextEnergy - currentEnergy;
    result := currentConfig;
    if dEnergy <= 0.0 {
      result := nextConfig;
    } else if dEnergy > 0.0 && u <= r(dEnergy, t) {
      result := nextConfig;
    }
  }

  /** Runs n Metropolis proposals at temperature t on a copy of config. The site of
      proposal i is position(i) and its uniform draw is uniform(i). */
  method UpdateConfiguration(config: seq<int>, n: nat, t: real, position: nat -> nat,
                             uniform: nat -> real, r: (real, real) -> real)
    returns (currentConfig: seq<int>)
    requires SitesOnRing(position, n, |config|)
    ensures currentConfig == Sweep(config, n, t, position, uniform, r)
    ensures |currentConfig| == |config|
    ensures ValidSpins(config) ==> ValidSpins(currentConfig)
    ensures HammingDistance(config, currentConfig) <= n
  {
    currentConfig := config;
    for i := 0 to n
      invariant SitesOnRing(position, i, |config|)
      invariant currentConfig == Sweep(config, i, t, position, uniform, r)
    {
      SiteOnRing(position, n, |config|, i);
      currentConfig := Propose(currentConfig, position(i), t, uniform(i), r);
    }
    SweepInvariants(config, n, t, position, uniform, r);
  }

  // ---------------------------------------------------------------------------
  // The order parameter and average_ising

  /** The mean spin (count(+1) - count(-1)) / (count(+1) + count(-1)); None stands for
      the division by zero on a configuration holding neither spin. */
  function MeanIsing(c: seq<int>): (m: Option<real>)
    ensures m.Some? <==> Count(c, 1) + Count(c, -1) > 0
    ensures m.Some? ==> -1.0 <= m.value <= 1.0
  {
    var numPositives := Count(c, 1);
    var numNegatives := Count(c, -1);
    if numPositives + numNegatives == 0 then None
    else
      var denominator := (numPositives + numNegatives) as real;
      var numerator := (numPositives as int - numNegatives as int) as real;
      RatioBounds(numerator, denominator);
      Some(numerator / denominator)
  }

  lemma RatioBounds(x: real, d: real)
    requires d > 0.0 && -d <= x <= d
    ensures -1.0 <= x / d <= 1.0
  {
    assert (x / d) * d == x;
  }

  lemma {:induction false} CountsOfValidSpins(c: seq<int>, k: nat)
    requires ValidSpins(c) && k <= |c|
    ensures CountUpTo(c, 1, k) + CountUpTo(c, -1, k) == k
    ensures CountUpTo(c, 1, k) - CountUpTo(c, -1, k) == SpinSum(c, k)
  {
    if k > 0 {
      CountsOfValidSpins(c, k - 1);
    }
  }

  /** On a non-empty valid configuration the order parameter is defined and equals the
      magnetisation per site, the total spin divided by the number of sites. */
  lemma MeanIsingIsMagnetisation(c: seq<int>)
    requires ValidSpins(c) && |c| > 0
    ensures MeanIsing(c) == Some((SpinSum(c, |c|) as real) / (|c| as real))
  {
    CountsOfValidSpins(c, |c|);
  }

  /** Flipping a site never changes how many sites hold a spin of -1 or +1: -x is a
      spin exactly when x is. */
  lemma {:induction false} FlipKeepsSpinCount(c: seq<int>, p: nat, k: nat)
    requires p < |c| && k <= |c|
    ensures CountUpTo(Flip(c, p), 1, k) + CountUpTo(Flip(c, p), -1, k)
         == CountUpTo(c, 1, k) + CountUpTo(c, -1, k)
  {
    if k > 0 {
      FlipKeepsSpinCount(c, p, k - 1);
    }
  }

  /** Over k proposals the number of sites holding a spin of -1 or +1 stays the same, so
      the mean spin of the result is defined exactly when that of the start is. */
  lemma {:induction false} SweepKeepsSpinCount(c: seq<int>, k: nat, t: real, position: nat -> nat,
                                              uniform: nat -> real, r: (real, real) -> real)
    requires SitesOnRing(position, k, |c|)
    ensures var result := Sweep(c, k, t, position, uniform, r);
            Count(result, 1) + Count(result, -1) == Count(c, 1) + Count(c, -1)
  {
    if k > 0 {
      var prev := Sweep(c, k - 1, t, position, uniform, r);
      SweepKeepsSpinCount(c, k - 1, t, position, uniform, r);
      FlipKeepsSpinCount(prev, position(k - 1), |prev|);
    }
  }

  /** For each temperature temps[j] in order, relaxes a copy of initialConfig with n
      proposals (drawing position(j)(i) and uniform(j)(i)) and records its mean spin. */
  method AverageIsing(initialConfig: seq<int>, n: nat, temps: seq<real>,
                      position: nat -> nat -> nat, uniform: nat -> nat -> real,
                      r: (real, real) -> real)
    returns (meanIsingList: seq<real>)
    requires Count(initialConfig, 1) + Count(initialConfig, -1) > 0
    requires forall j: nat :: SitesOnRing(position(j), n, |initialConfig|)
    ensures |meanIsingList| == |temps|
    ensures forall j :: 0 <= j < |temps| ==>
      MeanIsing(Sweep(initialConfig, n, temps[j], position(j), uniform(j), r)) == Some(meanIsingList[j])
    ensures forall j :: 0 <= j < |temps| ==> -1.0 <= meanIsingList[j] <= 1.0
  {
    meanIsingList := [];
    for j := 0 to |temps|
      invariant |meanIsingList| == j
      invariant forall k :: 0 <= k < j ==>
        MeanIsing(Sweep(initialConfig, n, temps[k], position(k), uniform(k), r)) == Some(meanIsingList[k])
      invariant forall k :: 0 <= k < j ==> -1.0 <= meanIsingList[k] <= 1.0
    {
      var minimalConfiguration := UpdateConfiguration(initialConfig, n, temps[j], position(j), uniform(j), r);
      var numPositives := Count(minimalConfiguration, 1);
      var numNegatives := Count(minimalConfiguration, -1);
      SweepKeepsSpinCount(initialConfig, n, temps[j], position(j), uniform(j), r);
      var meanIsing := ((numPositives as int - numNegatives as int) as real) / ((numPositives + numNegatives) as real);
      assert MeanIsing(minimalConfiguration) == Some(meanIsing);
      meanIsingList := meanIsingList + [meanIsing];
    }
  }
}
