/** Explicit Euler and classical fourth-order Runge-Kutta integration of dn/dt = f(t, n),
    applied to logistic growth. The time grid t0, t0 + h, t0 + 2h, ... is given by its
    number of points. */
module RungeKutta {

  const CarryingCapacity: real := 100.0
  const BirthRate: real := 1.0

  /** Logistic growth: dn/dt = r n (1 - n / K). */
  function NPrime(n: real): real {
    BirthRate * n * (1.0 - n / CarryingCapacity)
  }

  /** The logistic derivative vanishes at 0 and at the carrying capacity, is positive
      strictly between them and negative above the carrying capacity. */
  lemma LogisticSigns(n: real)
    ensures NPrime(0.0) == 0.0 && NPrime(CarryingCapacity) == 0.0
    ensures 0.0 < n < CarryingCapacity ==> NPrime(n) > 0.0
    ensures n > CarryingCapacity ==> NPrime(n) < 0.0
  {
    assert NPrime(n) == n * (1.0 - n / CarryingCapacity);
    if 0.0 < n < CarryingCapacity {
      assert 1.0 - n / CarryingCapacity > 0.0;
      assert n * (1.0 - n / CarryingCapacity) > 0.0;
    }
    if n > CarryingCapacity {
      var g := 1.0 - n / CarryingCapacity;
      assert g < 0.0;
      assert n * g < 0.0;
    }
  }

  /** The derivative the script integrates: NPrime, ignoring t. */
  function Logistic(): (real, real) -> real {
    (t: real, n: real) => NPrime(n)
  }

  /** The i-th point of the time grid. */
  function GridPoint(t0: real, h: real, i: nat): real {
    t0 + (i as real) * h
  }

  /** The value reached from x after moving dx along a line of slope `slope`. */
  function Ahead(x: real, slope: real, dx: real): real {
    x + slope * dx
  }

  /** One Euler step: n + h f(t, n). */
  function EulerStep(f: (real, real) -> real, t: real, n: real, h: real): real {
    Ahead(n, f(t, n), h)
  }

  /** The four RK4 stages: slopes at t, at t + h/2 (twice, each from the previous
      stage's half step) and at t + h. */
  function Rk4Stages(f: (real, real) -> real, t: real, n: real, h: real): (k: seq<real>)
    ensures |k| == 4
  {
    var k1 := f(t, n);
    var k2 := f(t + h / 2.0, Ahead(n, k1, h / 2.0));
    var k3 := f(t + h / 2.0, Ahead(n, k2, h / 2.0));
    var k4 := f(t + h, Ahead(n, k3, h));
    [k1, k2, k3, k4]
  }

  /** The RK4 weights. */
  const Weights: seq<real> := [1.0 / 6.0, 1.0 / 3.0, 1.0 / 3.0, 1.0 / 6.0]

  /** The dot product of two vectors of equal length. */
  function Dot(w: seq<real>, k: seq<real>): real
    requires |w| == |k|
  {
    if |w| == 0 then 0.0 else w[0] * k[0] + Dot(w[1..], k[1..])
  }

  /** One RK4 step: n plus h times the weighted average of the four stages. */
  function Rk4Step(f: (real, real) -> real, t: real, n: real, h: real): real {
    Ahead(n, Dot(Weights, Rk4Stages(f, t, n, h)), h)
  }

  /** The dot product of two vectors of four entries, written out. */
  lemma DotOfFour(w: seq<real>, k: seq<real>)
    requires |w| == 4 && |k| == 4
    ensures Dot(w, k) == w[0] * k[0] + w[1] * k[1] + w[2] * k[2] + w[3] * k[3]
  {
    assert w[1..][1..][1..][1..] == [];
    assert Dot(w[1..][1..][1..], k[1..][1..][1..]) == w[3] * k[3];
    assert Dot(w[1..][1..], k[1..][1..]) == w[2] * k[2] + w[3] * k[3];
  }

  /** The weights sum to one, so a constant slope c is averaged to c. */
  lemma WeightsAverageConstant(c: real)
    ensures Dot(Weights, [c, c, c, c]) == c
  {
    DotOfFour(Weights, [c, c, c, c]);
  }

  /** One RK4 step is n + h (k1/6 + k2/3 + k3/3 + k4/6), where k1 is the slope at (t, n),
      k2 the slope at t + h/2 after half a step along k1, k3 the slope at t + h/2 after
      half a step along k2, and k4 the slope at t + h after a full step along k3. */
  lemma Rk4StepWeights(f: (real, real) -> real, t: real, n: real, h: real)
    ensures var k := Rk4Stages(f, t, n, h);
            && k[0] == f(t, n)
            && k[1] == f(t + h / 2.0, n + k[0] * h / 2.0)
            && k[2] == f(t + h / 2.0, n + k[1] * h / 2.0)
            && k[3] == f(t + h, n + k[2] * h)
            && Rk4Step(f, t, n, h) == n + h * (k[0] / 6.0 + k[1] / 3.0 + k[2] / 3.0 + k[3] / 6.0)
  {
    var k := Rk4Stages(f, t, n, h);
    assert Ahead(n, k[0], h / 2.0) == n + k[0] * h / 2.0;
    assert Ahead(n, k[1], h / 2.0) == n + k[1] * h / 2.0;
    assert Ahead(n, k[2], h) == n + k[2] * h;
    DotOfFour(Weights, k);
  }

  /** The Euler approximation after i steps from n0. */
  function EulerApprox(f: (real, real) -> real, t0: real, n0: real, h: real, i: nat): real {
    if i == 0 then n0
    else EulerStep(f, GridPoint(t0, h, i - 1), EulerApprox(f, t0, n0, h, i - 1), h)
  }

  /** The RK4 approximation after i steps from n0. */
  function Rk4Approx(f: (real, real) -> real, t0: real, n0: real, h: real, i: nat): real {
    if i == 0 then n0
    else Rk4Step(f, GridPoint(t0, h, i - 1), Rk4Approx(f, t0, n0, h, i - 1), h)
  }

  /** The RK4 weights sum to one: for a derivative that is the constant c, one RK4 step
      is exactly one Euler step, n + h c. */
  lemma Rk4ConstantSlope(f: (real, real) -> real, c: real, t: real, n: real, h: real)
    requires forall s: real, m: real :: f(s, m) == c
    ensures Rk4Step(f, t, n, h) == EulerStep(f, t, n, h) == n + h * c
  {
    assert Rk4Stages(f, t, n, h) == [c, c, c, c];
    WeightsAverageConstant(c);
  }

  /** A state where the derivative vanishes at every time is a fixed point of one step
      of either method. */
  lemma StepsFixEquilibrium(f: (real, real) -> real, t: real, nStar: real, h: real)
    requires forall s: real :: f(s, nStar) == 0.0
    ensures EulerStep(f, t, nStar, h) == nStar
    ensures Rk4Step(f, t, nStar, h) == nStar
  {
    var k := Rk4Stages(f, t, nStar, h);
    assert Ahead(nStar, k[0], h / 2.0) == nStar;
    assert Ahead(nStar, k[1], h / 2.0) == nStar;
    assert Ahead(nStar, k[2], h) == nStar;
    assert k == [0.0, 0.0, 0.0, 0.0];
    WeightsAverageConstant(0.0);
  }

  /** Started at an equilibrium, both methods stay there at every grid point. */
  lemma {:induction false} ApproxFixEquilibrium(f: (real, real) -> real, t0: real, nStar: real, h: real, i: nat)
    requires forall s: real :: f(s, nStar) == 0.0
    ensures EulerApprox(f, t0, nStar, h, i) == nStar
    ensures Rk4Approx(f, t0, nStar, h, i) == nStar
  {
    if i > 0 {
      ApproxFixEquilibrium(f, t0, nStar, h, i - 1);
      StepsFixEquilibrium(f, GridPoint(t0, h, i - 1), nStar, h);
    }
  }

  /** For logistic growth, a population of 0 or of the carrying capacity never moves. */
  lemma LogisticEquilibria(t0: real, h: real, i: nat)
    ensures EulerApprox(Logistic(), t0, 0.0, h, i) == 0.0
    ensures Rk4Approx(Logistic(), t0, 0.0, h, i) == 0.0
    ensures EulerApprox(Logistic(), t0, CarryingCapacity, h, i) == CarryingCapacity
    ensures Rk4Approx(Logistic(), t0, CarryingCapacity, h, i) == CarryingCapacity
  {
    LogisticSigns(0.0);
    ApproxFixEquilibrium(Logistic(), t0, 0.0, h, i);
    ApproxFixEquilibrium(Logistic(), t0, CarryingCapacity, h, i);
  }

  /** Euler's method on the grid of `steps` points starting at t0: every grid point gets
      one approximation, the first is n0, and each next one is the previous plus
      h f(t, previous). The loop appends one value more than there are grid points and
      the last one is dropped. */
  method EulerMethod(f: (real, real) -> real, t0: real, n0: real, h: real, steps: nat)
    returns (tSteps: seq<real>, nApprox: seq<real>)
    ensures |tSteps| == steps && |nApprox| == steps
    ensures forall i :: 0 <= i < steps ==> tSteps[i] == GridPoint(t0, h, i)
    ensures forall i :: 0 <= i < steps ==> nApprox[i] == EulerApprox(f, t0, n0, h, i)
    ensures steps > 0 ==> nApprox[0] == n0
    ensures forall i :: 0 <= i < steps - 1 ==> nApprox[i + 1] == EulerStep(f, tSteps[i], nApprox[i], h)
  {
    tSteps := seq(steps, (i: int) requires 0 <= i => GridPoint(t0, h, i));
    var n := n0;
    var approx := [n];
    for j := 0 to steps
      invariant |approx| == j + 1
      invariant forall i :: 0 <= i <= j ==> approx[i] == EulerApprox(f, t0, n0, h, i)
      invariant n == approx[j]
    {
      ghost var before := approx;
      assert EulerApprox(f, t0, n0, h, j + 1) == EulerStep(f, tSteps[j], n, h);
      n := Ahead(n, f(tSteps[j], n), h);
      assert n == EulerApprox(f, t0, n0, h, j + 1);
      approx := approx + [n];
      assert forall i :: 0 <= i <= j ==> approx[i] == before[i];
    }
    nApprox := approx[..steps];
    forall i | 0 <= i < steps - 1
      ensures nApprox[i + 1] == EulerStep(f, tSteps[i], nApprox[i], h)
    {
      assert nApprox[i + 1] == EulerApprox(f, t0, n0, h, i + 1);
    }
  }

  /** The classical RK4 method on the same grid: one approximation per grid point, the
      first is n0, and each next one is one RK4 step from the previous. */
  method RungeKuttaMethod(f: (real, real) -> real, t0: real, n0: real, h: real, steps: nat)
    returns (tSteps: seq<real>, nApprox: seq<real>)
    ensures |tSteps| == steps && |nApprox| == steps
    ensures forall i :: 0 <= i < steps ==> tSteps[i] == GridPoint(t0, h, i)
    ensures forall i :: 0 <= i < steps ==> nApprox[i] == Rk4Approx(f, t0, n0, h, i)
    ensures steps > 0 ==> nApprox[0] == n0
    ensures forall i :: 0 <= i < steps - 1 ==> nApprox[i + 1] == Rk4Step(f, tSteps[i], nApprox[i], h)
  {
    tSteps := seq(steps, (i: int) requires 0 <= i => GridPoint(t0, h, i));
    var n := n0;
    var approx := [n];
    for j := 0 to steps
      invariant |approx| == j + 1
      invariant forall i :: 0 <= i <= j ==> approx[i] == Rk4Approx(f, t0, n0, h, i)
      invariant n == approx[j]
    {
      var t := tSteps[j];
      var kArray := Rk4Stages(f, t, n, h);
      n := Ahead(n, Dot(Weights, kArray), h);
      approx := approx + [n];
    }
    nApprox := approx[..steps];
    forall i | 0 <= i < steps - 1
      ensures nApprox[i + 1] == Rk4Step(f, tSteps[i], nApprox[i], h)
    {
      assert nApprox[i + 1] == Rk4Approx(f, t0, n0, h, i + 1);
    }
  }
}
