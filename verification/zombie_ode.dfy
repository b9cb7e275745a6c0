/** Deterministic epidemic models: the right-hand sides dy/dt = f(y, t) of the SZR
    (susceptible, zombie, removed) and SIR (susceptible, infected, recovered) systems,
    normalised by the total population N, and the initial vector used when the
    interactive parameters change. */
module ZombieOde {

  /** The removed population every re-solve starts from. */
  const R0: real := 0.0

  function Total(rates: seq<real>): real
    requires |rates| == 3
  {
    rates[0] + rates[1] + rates[2]
  }

  /** SZR model: f0 = -S Z / N, f1 = (1 - a) S Z / N, f2 = a S Z / N. The three rates sum
      to zero, so the total population is conserved; for S, Z >= 0 and N > 0 the
      susceptibles never grow, and with a >= 0 the removed never shrink; the zombie
      rate is -(1 - a) times the susceptible rate. */
  function ModelSZR(y: seq<real>, t: real, a: real, ni: real): (f: seq<real>)
    requires |y| == 3 && ni != 0.0
    ensures |f| == 3
    ensures Total(f) == 0.0
    ensures y[0] >= 0.0 && y[1] >= 0.0 && ni > 0.0 ==> f[0] <= 0.0
    ensures y[0] >= 0.0 && y[1] >= 0.0 && ni > 0.0 && a >= 0.0 ==> f[2] >= 0.0
    ensures f[1] == -(1.0 - a) * f[0]
    ensures y[1] == 0.0 ==> f == [0.0, 0.0, 0.0]
  {
    var si, zi, ri := y[0], y[1], y[2];
    var f0 := - si * zi / ni;
    var f1 := (1.0 - a) * si * zi / ni;
    var f2 := a * si * zi / ni;
    SzrRates(si, zi, a, ni);
    [f0, f1, f2]
  }

  lemma SzrRates(si: real, zi: real, a: real, ni: real)
    requires ni != 0.0
    ensures var f0, f1, f2 := - si * zi / ni, (1.0 - a) * si * zi / ni, a * si * zi / ni;
            && f0 + f1 + f2 == 0.0
            && f1 == -(1.0 - a) * f0
            && (si >= 0.0 && zi >= 0.0 && ni > 0.0 ==> f0 <= 0.0)
            && (si >= 0.0 && zi >= 0.0 && ni > 0.0 && a >= 0.0 ==> f2 >= 0.0)
            && (zi == 0.0 ==> f0 == 0.0 && f1 == 0.0 && f2 == 0.0)
  {
    var q := si * zi / ni;
    assert - si * zi / ni == -q;
    assert (1.0 - a) * si * zi / ni == (1.0 - a) * q;
    assert a * si * zi / ni == a * q;
    if si >= 0.0 && zi >= 0.0 && ni > 0.0 {
      assert si * zi >= 0.0;
      assert q >= 0.0;
      if a >= 0.0 {
        assert a * q >= 0.0;
      }
    }
    if zi == 0.0 {
      assert q == 0.0;
    }
  }

  /** SIR model: f0 = -S I / N, f1 = (S / N - mu) I, f2 = mu I. The three rates sum to
      zero; for S, I >= 0, N > 0 the susceptibles never grow; with mu >= 0 the
      recovered never shrink. */
  function ModelSIR(y: seq<real>, t: real, mu: real, ni: real): (f: seq<real>)
    requires |y| == 3 && ni != 0.0
    ensures |f| == 3
    ensures Total(f) == 0.0
    ensures y[0] >= 0.0 && y[1] >= 0.0 && ni > 0.0 ==> f[0] <= 0.0
    ensures y[1] >= 0.0 && mu >= 0.0 ==> f[2] >= 0.0
    ensures f[2] == mu * y[1]
    ensures y[1] == 0.0 ==> f == [0.0, 0.0, 0.0]
  {
    var si, ii, ri := y[0], y[1], y[2];
    var f0 := - si * ii / ni;
    var f1 := ((si / ni) - mu) * ii;
    var f2 := mu * ii;
    SirRates(si, ii, mu, ni);
    [f0, f1, f2]
  }

  lemma SirRates(si: real, ii: real, mu: real, ni: real)
    requires ni != 0.0
    ensures var f0, f1, f2 := - si * ii / ni, ((si / ni) - mu) * ii, mu * ii;
            && f0 + f1 + f2 == 0.0
            && (si >= 0.0 && ii >= 0.0 && ni > 0.0 ==> f0 <= 0.0)
            && (ii >= 0.0 && mu >= 0.0 ==> f2 >= 0.0)
            && (ii == 0.0 ==> f0 == 0.0 && f1 == 0.0 && f2 == 0.0)
  {
    var q := si / ni;
    assert si * ii / ni == q * ii;
    assert ((si / ni) - mu) * ii == q * ii - mu * ii;
    if si >= 0.0 && ii >= 0.0 && ni > 0.0 {
      assert q >= 0.0;
      assert q * ii >= 0.0;
    }
    if ii >= 0.0 && mu >= 0.0 {
      assert mu * ii >= 0.0;
    }
  }

  /** Neither right-hand side depends on t: both systems are autonomous. */
  lemma Autonomous(y: seq<real>, t1: real, t2: real, a: real, ni: real)
    requires |y| == 3 && ni != 0.0
    ensures ModelSZR(y, t1, a, ni) == ModelSZR(y, t2, a, ni)
    ensures ModelSIR(y, t1, a, ni) == ModelSIR(y, t2, a, ni)
  {
  }

  /** The population every re-solve is run for. */
  const NNew: real := 200.0

  /** The initial vector [NNew - Z, Z, R0] of a re-solve, Z being the slider's zombie
      count: it holds NNew individuals in all, and none of its entries is negative when
      0 <= Z <= NNew (the slider ranges over [1, 100]). */
  function ResolveInitial(zNew: real): (y: seq<real>)
    ensures |y| == 3
    ensures Total(y) == NNew
    ensures 0.0 <= zNew <= NNew ==> y[0] >= 0.0 && y[1] >= 0.0 && y[2] >= 0.0
  {
    [NNew - zNew, zNew, R0]
  }
}
