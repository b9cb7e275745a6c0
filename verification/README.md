# Simulation scripts: a verified model

This project models the computational core of four small simulation scripts in Dafny.
It proves properties of that model.

- **Ising chain** (`ising_chain.dfy`, module `IsingChain`). This is a periodic ring of spins ±1 whose energy is
  `H = -Σ (s_i s_{i+1} + (s_i + s_{i+1}) / 2)`. The ring is relaxed by single-site Metropolis proposals, and the
  mean spin (the order parameter) is measured once per temperature.
  - `calculate_energy`, the copying update loop of `update_configuration` and the per-temperature loop of
    `average_ising` are methods with loops.
  - Each method is proved against a specification function (`Energy`, `Sweep`, `MeanIsing`). The properties of
    those functions are proved as lemmas.
- **Gillespie simulation** (`gillespie.dfy`, module `Gillespie`). Integer counts S, Z and R evolve under two
  reaction channels: a bite (S, Z) → (Z, Z) with propensity b·S·Z and a kill (S, Z) → (S, R) with propensity
  k·S·Z.
  - The caller's four lists are a `Populations` object whose `seq` fields `RunSimulation` extends in place.
  - The loop is proved against the recursive function `Simulate`, whose termination measure is 2S+Z.
- **ODE right-hand sides** (`zombie_ode.dfy`, module `ZombieOde`). These are the SZR and SIR derivative functions
  handed to the integrator, and the initial vector of a re-solve.
- **Euler and RK4 steppers** (`runge_kutta.dfy`, module `RungeKutta`). These are the logistic derivative, plus the
  Euler and classical fourth-order Runge–Kutta loops over a grid of `steps` points. Each loop is proved against a
  recursive approximation function.

Floating point numbers are modelled as `real`, and Python lists as `seq`. Random draws are parameters (see Left out).

## Model

| member | source | states |
|---|---|---|
| IsingChain.NextIsSuccessorMod | src/exercise_ising_chain.py:17-20 | The right-hand neighbour used for every bond is site (i + 1) mod n, as `np.roll(configuration, -1)` gives it. |
| IsingChain.CalculateEnergy | src/exercise_ising_chain.py:16-24 | The accumulated Hamiltonian equals `Energy`, minus half the sum of the bond terms 2·s_i·s_{i+1} + s_i + s_{i+1} over the ring. |
| IsingChain.EnergyDecomposition | src/exercise_ising_chain.py:16-24 | The energy is −(Σ s_i s_{i+1} + Σ s_i), the sum of the pair term and the field term. |
| IsingChain.EnergyBounds | src/exercise_ising_chain.py:16-24 | For every valid configuration of n spins, −2n ≤ H ≤ n. |
| IsingChain.UniformEnergies | src/exercise_ising_chain.py:23 | All +1 has energy −2n, the minimum. All −1 has energy 0 because of the field term. |
| IsingChain.AlternatingEnergy | src/exercise_ising_chain.py:16-24 | An alternating ring of even length has energy n, the maximum. |
| IsingChain.FlipDelta | src/exercise_ising_chain.py:38-42 | On a ring of at least two sites, flipping site p changes the global energy by exactly the local quantity 2·s_p·(s_{p−1} + s_{p+1} + 1). |
| IsingChain.FlipDeltaValues | src/exercise_ising_chain.py:38-42 | That energy change is one of −6, −2, 2, 6. |
| IsingChain.HammingUpdate | src/exercise_ising_chain.py:38-39 | Changing one site of a copy moves it at most one position away from the original. |
| IsingChain.MetropolisStep | src/exercise_ising_chain.py:38-48 | A proposal either keeps the configuration or returns it with exactly site p flipped. |
| IsingChain.AcceptanceRule | src/exercise_ising_chain.py:43-48 | Let d be the local energy change. If d ≤ 0 the flip is taken. If d > 0 it is taken exactly when u ≤ r(d, t). On rejection the configuration is unchanged. |
| IsingChain.Propose | src/exercise_ising_chain.py:37-48 | Flipping a copy, comparing the two computed energies and choosing by the if/elif gives exactly `MetropolisStep`. |
| IsingChain.SiteOnRing | src/exercise_ising_chain.py:37 | Every drawn site of a run whose draws lie on the ring (`randint(0, len - 1)`) is a valid index. |
| IsingChain.Sweep | src/exercise_ising_chain.py:34-49 | A run of k proposals keeps the length of the configuration. |
| IsingChain.SweepInvariants | src/exercise_ising_chain.py:35-49 | After k proposals every spin is still ±1, and the result differs from the start in at most k positions. |
| IsingChain.UpdateConfiguration | src/exercise_ising_chain.py:34-49 | The returned configuration is `Sweep` of the input. It has the same length and spin domain, and it differs from the input in at most n positions. The input is a value, so it is never changed. |
| IsingChain.MeanIsing | src/exercise_ising_chain.py:57-59 | The mean spin is defined exactly when some spin is ±1, and then lies in [−1, 1]. None stands for the division by zero. |
| IsingChain.MeanIsingIsMagnetisation | src/exercise_ising_chain.py:57-59 | On a non-empty valid configuration the mean spin is (count(+1) − count(−1)) / n, the total spin per site. |
| IsingChain.FlipKeepsSpinCount | src/exercise_ising_chain.py:38-39 | Flipping one site keeps the number of sites holding −1 or +1. |
| IsingChain.SweepKeepsSpinCount | src/exercise_ising_chain.py:34-49 | After any number of proposals the number of sites holding −1 or +1 is the same as at the start. So the denominator at line 59 is non-zero exactly when it is for the initial configuration. |
| IsingChain.AverageIsing | src/exercise_ising_chain.py:53-61 | One value per temperature, in order. Value j is the mean spin after n proposals at temps[j] from the initial configuration, and every value lies in [−1, 1]. Only a ±1 spin somewhere in the initial configuration is required. Other entries, such as 0, are allowed as in the source. |
| Gillespie.NoPropensityWhenExtinct | src/zombie_apocalypse_gillespie.py:27-28 | With S = 0 or Z = 0 both propensities, and so their sum, are zero. |
| Gillespie.ReactingCountsArePositive | src/zombie_apocalypse_gillespie.py:27-31 | If the loop gets past the zero test with non-negative counts, then S > 0 and Z > 0. |
| Gillespie.PropensitySumZero | src/zombie_apocalypse_gillespie.py:27-31 | With positive rates and non-negative counts, the total propensity is zero if and only if S = 0 or Z = 0. |
| Gillespie.PropensitySumPositive | src/zombie_apocalypse_gillespie.py:27-35 | With non-negative rates, a total propensity that is not zero is positive. So the sojourn time has the sign of ln(1/r1). |
| Gillespie.NegativeSusceptiblesNeverStop | src/zombie_apocalypse_gillespie.py:22-46 | From S < 0 < Z with positive rates, the total propensity is negative, so the loop does not break. A draw r2 with r2·(b+k) ≥ b picks the bite, which keeps S < 0 < Z. With ln(1/r1) > 0 the time falls, so t[-1] < t_end keeps holding and the loop need not end. |
| Gillespie.Advance | src/zombie_apocalypse_gillespie.py:33-46 | One pass appends one entry to each list. The event is a bite (S−1, Z+1, R) exactly when r2·sum ≤ b·S·Z, and otherwise a kill (S, Z−1, R+1). 2S+Z falls by one, and the new time is the old one plus (1/sum)·ln(1/r1). |
| Gillespie.SimulateExtends | src/zombie_apocalypse_gillespie.py:22-47 | The given lists are prefixes of the returned ones, and all four gain the same number of entries. 2S+Z falls by the number of events, so there are at most 2·S0+Z0 events whatever t_end is. |
| Gillespie.SimulateStops | src/zombie_apocalypse_gillespie.py:22-31 | The loop ends only with the last time ≥ t_end or a zero total propensity. |
| Gillespie.ZeroPropensityAppendsNothing | src/zombie_apocalypse_gillespie.py:27-31 | With S = 0 or Z = 0 the loop stops without appending anything. |
| Gillespie.FirstEvent | src/zombie_apocalypse_gillespie.py:33-46 | When the loop runs, its first appended S and Z are a bite exactly when r2·sum ≤ p0, and its first appended time is t + (1/sum)·ln(1/r1). |
| Gillespie.SimulateEvents | src/zombie_apocalypse_gillespie.py:36-46 | The lists stay parallel, and every appended entry is a bite or a kill applied to the entry before, from a state with S > 0 and Z > 0. |
| Gillespie.SimulateTimeOrdered | src/zombie_apocalypse_gillespie.py:35-36 | With non-negative rates and ln(1/r1) ≥ 0, the appended times never decrease. |
| Gillespie.EventsBetween | src/zombie_apocalypse_gillespie.py:39-46 | Between two indices S+Z+R is unchanged, S does not grow, R does not shrink, and 2S+Z falls by the number of events. |
| Gillespie.EventsNonNegative | src/zombie_apocalypse_gillespie.py:27-46 | Counts that start non-negative stay non-negative. |
| Gillespie.RunFromInitialState | src/zombie_apocalypse_gillespie.py:21-47 | From one-element lists the run keeps the lists parallel, S+Z+R constant at every index and S non-increasing. It also keeps R non-decreasing, all counts ≥ 0, the events at most 2·S0+Z0 and the times ordered. With positive rates it ends at t_end or with S = 0 or Z = 0. |
| Gillespie.Populations.constructor | src/zombie_apocalypse_gillespie.py:10-13 | The simulation starts from the one-element lists [S0], [Z0], [R0], [t0]. |
| Gillespie.Populations.Fire | src/zombie_apocalypse_gillespie.py:33-46 | The loop body after the zero test appends t + τ to the times and the chosen event to S, Z and R, and changes nothing else. |
| Gillespie.Populations.RunSimulation | src/zombie_apocalypse_gillespie.py:21-47 | The caller's lists end up as `Simulate` of their old contents, so every `Simulate` lemma above holds of them. |
| ZombieOde.ModelSZR | src/zombie_apocalypse_ode.py:15-22 | The three rates sum to zero, so N is conserved. For S, Z ≥ 0 and N > 0, dS/dt ≤ 0, and also dR/dt ≥ 0 when a ≥ 0. dZ/dt = −(1−a)·dS/dt, and Z = 0 is an equilibrium. |
| ZombieOde.ModelSIR | src/zombie_apocalypse_ode.py:25-32 | The three rates sum to zero. For S, I ≥ 0 and N > 0, dS/dt ≤ 0. dR/dt = mu·I, which is ≥ 0 when I, mu ≥ 0, and I = 0 is an equilibrium. |
| ZombieOde.Autonomous | src/zombie_apocalypse_ode.py:15-32 | Neither right-hand side depends on t. |
| ZombieOde.ResolveInitial | src/zombie_apocalypse_ode.py:113-120 | The re-solve vector [200 − Z, Z, R0] holds 200 individuals, and no entry is negative for 0 ≤ Z ≤ 200. |
| RungeKutta.LogisticSigns | src/exercise_runge_kutta.py:13-15 | n′(0) = n′(K) = 0, n′(n) > 0 for 0 < n < K, and n′(n) < 0 for n > K. |
| RungeKutta.DotOfFour | src/exercise_runge_kutta.py:45-47 | `np.dot` of two 4-vectors is the sum of the four products. |
| RungeKutta.Rk4StepWeights | src/exercise_runge_kutta.py:41-47 | An RK4 step is n + h·(k1/6 + k2/3 + k3/3 + k4/6), with the stages evaluated at (t, n), (t + h/2, n + k1·h/2), (t + h/2, n + k2·h/2) and (t + h, n + k3·h). |
| RungeKutta.WeightsAverageConstant | src/exercise_runge_kutta.py:46-47 | The RK4 weights sum to one. |
| RungeKutta.Rk4ConstantSlope | src/exercise_runge_kutta.py:30-47 | For a constant derivative c, one RK4 step equals one Euler step, n + h·c. |
| RungeKutta.StepsFixEquilibrium | src/exercise_runge_kutta.py:30-47 | If f(t, n*) = 0 for all t, one Euler step and one RK4 step both leave n* where it is. |
| RungeKutta.ApproxFixEquilibrium | src/exercise_runge_kutta.py:24-49 | Started at such an n*, both methods return n* at every grid point. |
| RungeKutta.LogisticEquilibria | src/exercise_runge_kutta.py:13-15 | For the logistic derivative, starting at 0 or at K, both methods stay there. |
| RungeKutta.EulerMethod | src/exercise_runge_kutta.py:24-32 | There is one approximation per grid point, and the first is n0. Each next value is the previous one plus h·f(t_i, previous) and equals `EulerApprox`. One value more than there are grid points is appended, and the last is dropped. |
| RungeKutta.RungeKuttaMethod | src/exercise_runge_kutta.py:35-49 | There is one approximation per grid point, and the first is n0. Each next value is one RK4 step from the previous one and equals `Rk4Approx`. The last appended value is dropped. |

## Left out

- Random numbers are inputs:
  - Ising: `position(i)` for `random.randint(0, len - 1)` and `uniform(i)` for `random.random()`; in `AverageIsing` these are `position(j)(i)` and `uniform(j)(i)` for run j.
  - Gillespie: `expDraw(i)` for ln(1/r1) and `r2(i)`.

  How the generator's stream is consumed, and `random.seed`, are not modelled.
- `r(d, t) = exp(-d/t)` is a parameter `r: (real, real) -> real`, and `np.log` in the sojourn time is folded into `expDraw`, because there are no transcendental functions over `real`.
- `SimulateTimeOrdered` and `RunFromInitialState` assume ln(1/r1) ≥ 0 (that is, r1 ∈ (0, 1]) instead of deriving it.
- Floating point is modelled as exact `real` arithmetic. Truncation error and Euler versus RK4 accuracy are not stated.
- The `np.arange(t_0, t_end + d_h, d_h)` grid is replaced by a number of grid points `steps` (point i is t0 + i·h). Its float-dependent length is not modelled.
- `RungeKutta.Rk4Stages` computes the four stages as a function that the loop calls. The source computes them inline.
- `function_n` (the analytic logistic solution) is not part of this model: it needs `exp`.
- Not part of this model:
  - `scipy.integrate.odeint`;
  - all plotting, sliders, buttons and check boxes;
  - the redraw parts of `sliders_on_changed` and `next_simulation`;
  - module-level driver code.

  None of these is logic of the core.
- `IsingChain.UpdateConfiguration` and `IsingChain.AverageIsing`: the draws are required to lie on the ring (`SitesOnRing`). The source guarantees this with `randint(0, len - 1)`, so out-of-range indices (and Python's negative indexing) are not modelled.
- `IsingChain.AverageIsing` requires at least one −1 or +1 in the initial configuration. The source fails on every other input:
  - with no ±1 spin, it raises ZeroDivisionError at line 59;
  - with an empty configuration and n > 0, `randint(0, -1)` raises ValueError first.
  - These raised errors are not modelled as results. `IsingChain.MeanIsing` returns None for the division by zero, and `IsingChain.SweepKeepsSpinCount` shows that the proposals never change whether that happens.
- `Gillespie.Populations.RunSimulation` requires non-empty lists and non-negative last S and Z (`Valid`). The source reads `S[-1]`, `Z[-1]` and `t[-1]` unguarded, and its script starts from S0 = 199, Z0 = 1.
  - The requirement is also what makes the loop end, through the measure 2S+Z of `Simulate`.
  - The source itself does not end for every input it excludes. From S = −1, Z = 1, with b = 0.1, k = 0.06 and r2 = 0.7 at every pass, each event is a bite and each sojourn time is negative. So `t[-1] < t_end` never fails (`Gillespie.NegativeSusceptiblesNeverStop`).
  - Runs that do not end are not modelled.
- `ZombieOde.ModelSZR` and `ZombieOde.ModelSIR` require N ≠ 0, as the source divides by N.
- Aliasing between the caller's lists and other references is not modelled. The four lists are fields of one `Populations` object.
