# Accelerogram integration and baseline correction

This project models `integrate_module.py`, which turns a ground-acceleration
record into velocity and displacement histories. It has three operations:

- `integrate_wilson`, the linear-acceleration ("Wilson") integrator. It keeps
  four arrays shaped like `t` and fills one entry of each per step. It is
  modelled by `Wilson.Integrate`, a method over fresh `real` arrays.
- `integrate_rk4`, the "Runge-Kutta" integrator. It appends one velocity and
  one displacement to two lists per step. It is modelled by
  `RungeKutta.Integrate`, a method that appends to two sequences.
- `basline`, the drift corrector. It subtracts the straight line through the
  first and last samples and re-anchors the series at its initial value. It
  is modelled by `BaselineCorrection.Baseline`, a pure function.

Each integrator is proved against a recurrence written as a function of the
step count, `Velocity(k)` and `Displacement(k)`. The lemmas about those
recurrences give closed forms under zero and constant acceleration. Under
ramp acceleration they give the code's velocity, which overshoots the exact
one, and both closed forms of the corrected Wilson recurrences
`ExactVelocity` and `ExactDisplacement`.
The time of sample `k` is `Grid.SampleTime(k, dt)`, which is `k * dt`
(`Grid.SampleTimeIsProduct`). Python's negative indexing (`a[i - 1]` at
`i = 0`, `v[-1]`, `t[-1]`) is `Indexing.At`.

The model follows the code where the code departs from what the methods are
meant to do:

- A linear-acceleration recurrence is meant to be exact for constant
  acceleration. The Wilson code's displacement is not: it exceeds
  `y0 + v0*T + c*T^2/2` by `c*T*dt` (`Wilson.ConstantForcing`).
- Under zero acceleration both integrators are meant to give `y0 + v0*t`.
  Wilson gives it. The RK4 code scales every displacement step by
  `1 + dt/2 + dt^2/6 + dt^3/24` (`RungeKutta.ZeroForcing`).
- The code checks none of: a non-positive `dt`, mismatched lengths, or a
  degenerate time grid. The integrators therefore require only what the
  code needs to be defined:
  - Wilson: at least one time sample and, when it steps, `|a| >= |t|` and a
    non-zero `dt` to divide by.
  - RK4: enough samples for the indices it reads, with any `dt`.
- `basline` is modelled for `|s| == |t|`, at least one sample and
  `t[0] != t[-1]`. On a degenerate grid `t[0] == t[-1]` the code still
  returns a result, from `np.polyfit`'s rank-deficient fit; the model
  leaves that case out (see "## Left out").

## Model

| member | source | states |
|---|---|---|
| Wilson.Integrate | integrate_module.py:17-68 | Needs one time sample and, when it steps, `|a| >= |t|` and `dt != 0`. Returns `y`, `v` of length `len(t)` with `y[0] == y0` and `v[0] == v0`. Every later entry is step `k` of the linear-acceleration recurrence. |
| Wilson.StepAccelIsNextSample | integrate_module.py:54-58 | The acceleration the loop stores in `a_0[i + 1]` is the next sample `a[i + 1]`, not the value at `t_i`. |
| Wilson.VelocityStep | integrate_module.py:54-62 | One velocity step adds `dt * a[k + 1] + dt/2 * (a[k + 1] - a[k])`. |
| Wilson.ZeroForcing | integrate_module.py:50-66 | With zero acceleration on the samples `a[0..k]` that the first `k` steps read, `v[k] == v0` and `y[k] == y0 + v0 * T` at `T = k * dt`. |
| Wilson.ZeroForcingOnGrid | integrate_module.py:50-66 | On a uniform time grid, zero acceleration on `a[0..k]` gives `y[k] == y0 + v0 * (t[k] - t[0])`. |
| Wilson.ConstantSamples | integrate_module.py:54-58 | When `a[0..i+1]` all equal `c`, step `i`'s `a_0` is `c` and its `a_1` is 0. |
| Wilson.ConstantVelocity | integrate_module.py:50-62 | When `a[0..k]` all equal `c` the velocity is exact: `v[k] == v0 + c * T`. |
| Wilson.ConstantForcing | integrate_module.py:50-66 | When `a[0..k]` all equal `c`, `y[k] == y0 + v0*T + c*T^2/2 + c*T*dt`. That is the exact displacement plus `c*T*dt`. |
| Wilson.ConstantCounterexample | integrate_module.py:62-66 | On `a = [1, 1]`, `dt = 1`, `y0 = v0 = 0`, the first step gives `y[1] == 1.5`. The recurrence that starts each step from `v[i]` and `a[i]` gives the exact 0.5. |
| Wilson.RampCounterexample | integrate_module.py:54-62 | On `a = [0, 1]`, `dt = 1`, `v0 = 0`, the first step gives `v[1] == 1.5`, against the exact 0.5. |
| Wilson.SlopeOnRamp | integrate_module.py:54 | When the samples lie on `alpha + beta * t`, every step slope `a_1` is `beta`. |
| Wilson.VelocityOvershoot | integrate_module.py:54-62 | On any record, the code's velocity after `k` steps exceeds the corrected recurrence's (each step started from `a[i]`) by exactly `dt * (a[k] - a[0])`. |
| Wilson.CodeVelocityOnRamp | integrate_module.py:50-62 | When the samples lie on `alpha + beta * t`, the code's `v[k]` is the exact `v0 + alpha*T + beta*T^2/2` plus `beta * T * dt`, at `T = k * dt`. |
| Wilson.ExactVelocityOnRamp | integrate_module.py:54-62 | The corrected velocity recurrence, which starts each step from `a[i]`, equals `v0 + alpha*T + beta*T^2/2` on any ramp. |
| Wilson.ExactVelocityTrapezoid | integrate_module.py:54-62 | On any record, each step of the corrected velocity recurrence adds `dt * (a[k] + a[k + 1]) / 2`, the exact integral of that step's own ramp. |
| Wilson.ExactDisplacementOnRamp | integrate_module.py:54-66 | The corrected displacement recurrence, which starts from `v[i]` and `a[i]`, equals `y0 + v0*T + alpha*T^2/2 + beta*T^3/6` on any ramp. |
| RungeKutta.Integrate | integrate_module.py:71-114 | Needs `len(t) <= len(a) + 1`. Returns `y`, `v` of length `max(len(t), 1)` starting at `y0`, `v0`. Every entry is step `k` of the RK4 recurrence. `v[1]` uses the record's last sample `a[-1]` as its previous acceleration. |
| RungeKutta.VelocityIncrementClosedForm | integrate_module.py:97-102 | One velocity step adds `dt * (a[i] + a[i-1] * (5 + 3dt + dt^2 + dt^3/4)) / 6`. |
| RungeKutta.DisplacementIncrementClosedForm | integrate_module.py:106-111 | One displacement step adds `dt * v_n * (1 + dt/2 + dt^2/6 + dt^3/24)`. |
| RungeKutta.ZeroForcing | integrate_module.py:96-112 | With zero acceleration on `a[0..k-1]` and on the last sample `a[-1]` that step 0 reads, `v[k] == v0` and `y[k] == y0 + T * v0 * (1 + dt/2 + dt^2/6 + dt^3/24)`. |
| RungeKutta.ZeroForcingDrift | integrate_module.py:106-111 | With zero acceleration on the samples read, `dt > 0` and `v0 > 0`, every `y[k]` for `k >= 1` exceeds the exact `y0 + v0 * T`. |
| RungeKutta.ConstantForcing | integrate_module.py:96-103 | When `a[0..k-1]` and the wrapped `a[-1]` all equal `c`, `v[k] == v0 + T * c * (1 + dt/2 + dt^2/6 + dt^3/24)`. |
| RungeKutta.GrowthIsOneOnlyAtZero | integrate_module.py:97-111 | The per-step factor `1 + dt/2 + dt^2/6 + dt^3/24` equals 1 exactly when `dt == 0`. |
| RungeKutta.ConstantForcingInexact | integrate_module.py:96-103 | When the samples read all equal `c != 0`, with `dt != 0`, every `v[k]` for `k >= 1` differs from the exact `v0 + c*T`. |
| RungeKutta.WrapAroundCounterexample | integrate_module.py:97-100 | `[0, 0, 1]` and `[0, 0, 0]` agree on their first two samples, yet give `v[1] == 37/24` and `v[1] == 0` (`dt = 1`, `v0 = 0`). |
| RungeKutta.CausalVelocityIsCausal | integrate_module.py:97-102 | With step `i` reading `a[i]` and `a[i + 1]`, `v[k]` depends only on `a[0..k]`. |
| RungeKutta.CausalConstantForcing | integrate_module.py:97-102 | When `a[0..k]` all equal `c`, the corrected indexing gives the same velocity as the code: `v0 + T * c * (1 + dt/2 + dt^2/6 + dt^3/24)`. |
| BaselineCorrection.TrendThroughEndpoints | integrate_module.py:131 | The fitted line `m * t + q` passes through `(t[0], s[0])` and `(t[-1], s[-1])`. |
| BaselineCorrection.Baseline | integrate_module.py:117-136 | Requires `len(s) == len(t)`, at least one sample and `t[0] != t[-1]`. The result has the length of `s`, and both its first and its last entry equal `s0`. |
| BaselineCorrection.AddLineInvariant | integrate_module.py:130-134 | Adding any line `alpha * t + beta` to `s` leaves the corrected series unchanged. |
| BaselineCorrection.AffineToConstant | integrate_module.py:130-134 | A series that is itself a line in `t` corrects to the constant `s0`. |
| BaselineCorrection.Idempotent | integrate_module.py:117-136 | Correcting an already corrected series with the same `t` and `s0` returns it unchanged. |

## Left out

- Floating point: all values are exact reals. IEEE rounding, overflow, `inf` and `NaN` (numpy's result for a division by a zero `dt`) are not modelled. A zero `dt` in the Wilson loop is a precondition instead.
- `np.polyfit` is not part of this model. Its degree-1 fit of two points with distinct abscissae is the line through them, and the model uses that line directly.
- numpy types, dtypes and broadcasting are not modelled. Inputs and outputs are sequences of reals. The `zeros_like` arrays are fresh `real` arrays whose initial zeros are not modelled: no entry is read before it is written.
- The entries of `t` are never read by the integrators (only `len(t)`), so the model reads only its length. The grid spacing is the `dt` argument. `Grid.Uniform` relates the two where a lemma needs it.
- The Wilson method does not return its scratch arrays `a_0` and `a_1`, so the model does not either.
- Parameter validation (non-positive `dt`, mismatched lengths) is absent from the integrators' code. It is not modelled as an error result; each integrator requires only what the code needs.
- BaselineCorrection.Baseline: the degenerate grid `t[0] == t[-1]` is excluded by its precondition. There the code still returns a series, built from `np.polyfit`'s rank-deficient least-squares line, which this model does not define.
- The corrected RK4 indexing is stated for the velocity recurrence only (`CausalVelocity`). The displacement recurrence reads no acceleration.
- The module's imports, its docstrings and any plotting or file I/O around it are not modelled.

## Findings

| source | as written | input that shows it | evidently intended | confidence | as-written member | corrected member |
|---|---|---|---|---|---|---|
| integrate_module.py:58 | `a_0[i + 1] = a[i] + a_1[i + 1] * dt` is the END sample `a[i + 1]`, though the step is labelled as the acceleration at `t_i`. Line 62 then integrates the ramp from its end value, and `v[k]` overshoots by `dt * (a[k] - a[0])` (`Wilson.VelocityOvershoot`). | `a = [0, 1]`, `dt = 1`, `v0 = 0`: `v[1] = 1.5`, exact 0.5 | the start sample `a[i]`, which makes line 62 the exact integral of the ramp | medium, not executed | Wilson.RampCounterexample | Wilson.ExactVelocityTrapezoid |
| integrate_module.py:66 | The displacement step integrates from the NEW velocity `v[i + 1]` and adds the acceleration term on top. Even constant acceleration is off by `c*T*dt`. | `a = [1, 1]`, `dt = 1`, `y0 = v0 = 0`: `y[1] = 1.5`, exact 0.5 | the start velocity `v[i]` and start acceleration `a[i]` | medium, not executed | Wilson.ConstantCounterexample | Wilson.ExactDisplacementOnRamp |
| integrate_module.py:97-100 | Step `i` reads `a[i - 1]`, so step 0 reads `a[-1]`, the LAST sample of the record. | `a = [0, 0, 1]` and `[0, 0, 0]`, `dt = 1`, `v0 = 0`: `v[1] = 37/24` and `0` | step `i` reads `a[i]` and `a[i + 1]`, as the Wilson loop does | low, not executed | RungeKutta.WrapAroundCounterexample | RungeKutta.CausalVelocityIsCausal |
