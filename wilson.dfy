/** The linear-acceleration ("Wilson") integrator `integrate_wilson`:
    a single-step recurrence that assumes the acceleration varies
    linearly between two consecutive samples. */
module Wilson {
  import opened Grid

  /** Slope of the acceleration over step `i`, stored in `a_1[i + 1]`. */
  function Slope(a: seq<real>, dt: real, i: nat): real
    requires i + 1 < |a| && dt != 0.0
  {
    (a[i + 1] - a[i]) / dt
  }

  /** The acceleration stored in `a_0[i + 1]`: the ramp of step `i`
      evaluated one full step after `a[i]`. */
  function StepAccel(a: seq<real>, dt: real, i: nat): real
    requires i + 1 < |a| && dt != 0.0
  {
    a[i] + Slope(a, dt, i) * dt
  }

  /** That value is simply the next sample `a[i + 1]`. */
  lemma StepAccelIsNextSample(a: seq<real>, dt: real, i: nat)
    requires i + 1 < |a| && dt != 0.0
    ensures StepAccel(a, dt, i) == a[i + 1]
  {
  }

  /** Velocity at the end of a step (line 62): the start velocity plus the
      step's acceleration and slope terms. */
  function VelocityUpdate(v: real, accel: real, slope: real, dt: real): real
  {
    v + dt * accel + ((dt * dt) / 2.0) * slope
  }

  /** Displacement at the end of a step (line 66) from the velocity `v` and
      acceleration `accel` the step is integrated from. */
  function DisplacementUpdate(y: real, v: real, accel: real, slope: real, dt: real): real
  {
    y + dt * v + ((dt * dt) / 2.0) * accel + ((dt * dt * dt) / 6.0) * slope
  }

  /** Velocity `v[k]` after `k` steps. */
  function Velocity(a: seq<real>, dt: real, v0: real, k: nat): real
    requires k < |a| && dt != 0.0
  {
    if k == 0 then v0
    else VelocityUpdate(Velocity(a, dt, v0, k - 1), StepAccel(a, dt, k - 1), Slope(a, dt, k - 1), dt)
  }

  /** Displacement `y[k]` after `k` steps; each step is integrated from the
      step's new velocity `v[k]` and end acceleration `a_0[k]`. */
  function Displacement(a: seq<real>, dt: real, y0: real, v0: real, k: nat): real
    requires k < |a| && dt != 0.0
  {
    if k == 0 then y0
    else
      DisplacementUpdate(Displacement(a, dt, y0, v0, k - 1), Velocity(a, dt, v0, k),
                         StepAccel(a, dt, k - 1), Slope(a, dt, k - 1), dt)
  }

  /** `integrate_wilson(a, t, dt, y0, v0)`: preallocates four arrays shaped
      like `t`, seeds the initial conditions and fills one step per
      iteration. No entry is read before it is written, so the zeros of
      `np.zeros_like` are not needed. Only the length of `t` is read. */
  method Integrate(a: seq<real>, t: seq<real>, dt: real, y0: real, v0: real)
    returns (y: seq<real>, v: seq<real>)
    requires 1 <= |t|
    requires |t| >= 2 ==> |t| <= |a| && dt != 0.0
    ensures |y| == |t| && |v| == |t|
    ensures y[0] == y0 && v[0] == v0
    ensures forall k :: 1 <= k < |t| ==>
              v[k] == Velocity(a, dt, v0, k) && y[k] == Displacement(a, dt, y0, v0, k)
  {
    var n := |t|;
    var ys := new real[n];
    var vs := new real[n];
    var a0 := new real[n];
    var a1 := new real[n];
    ys[0] := y0;
    vs[0] := v0;
    for i := 0 to n - 1
      invariant vs[0] == v0 && ys[0] == y0
      invariant forall k {:trigger vs[k]} :: 1 <= k <= i ==> vs[k] == Velocity(a, dt, v0, k)
      invariant forall k {:trigger ys[k]} :: 1 <= k <= i ==> ys[k] == Displacement(a, dt, y0, v0, k)
    {
      ghost var vi, yi := vs[i], ys[i];
      a1[i + 1] := (a[i + 1] - a[i]) / dt;
      a0[i + 1] := a[i] + a1[i + 1] * dt;
      vs[i + 1] := VelocityUpdate(vs[i], a0[i + 1], a1[i + 1], dt);
      ys[i + 1] := DisplacementUpdate(ys[i], vs[i + 1], a0[i + 1], a1[i + 1], dt);
      Step(a, dt, y0, v0, i, vi, yi, a1[i + 1], a0[i + 1]);
    }
    y, v := ys[..], vs[..];
  }

  /** One iteration of the loop of `integrate_wilson`, on values: from
      `v[i]` and `y[i]` the slope `a_1` and acceleration `a_0` it computes
      lead to `v[i + 1]` and `y[i + 1]`. */
  lemma Step(a: seq<real>, dt: real, y0: real, v0: real, i: nat, v: real, y: real, slope: real, accel: real)
    requires i + 1 < |a| && dt != 0.0
    requires v == Velocity(a, dt, v0, i) && y == Displacement(a, dt, y0, v0, i)
    requires slope == Slope(a, dt, i) && accel == StepAccel(a, dt, i)
    ensures VelocityUpdate(v, accel, slope, dt) == Velocity(a, dt, v0, i + 1)
    ensures DisplacementUpdate(y, VelocityUpdate(v, accel, slope, dt), accel, slope, dt)
            == Displacement(a, dt, y0, v0, i + 1)
  {
  }

  /** One velocity step in terms of the samples alone. */
  lemma VelocityStep(a: seq<real>, dt: real, v0: real, k: nat)
    requires k + 1 < |a| && dt != 0.0
    ensures Velocity(a, dt, v0, k + 1)
            == Velocity(a, dt, v0, k) + dt * a[k + 1] + (dt / 2.0) * (a[k + 1] - a[k])
  {
    assert ((dt * dt) / 2.0) * Slope(a, dt, k) == (dt / 2.0) * (a[k + 1] - a[k]);
  }

  /** With no acceleration the velocity stays at `v0` and the displacement
      is `y0 + v0 * T` at the sample time `T = SampleTime(k, dt)`, which is
      `k * dt` by `Grid.SampleTimeIsProduct`. */
  lemma {:induction false} ZeroForcing(a: seq<real>, dt: real, y0: real, v0: real, k: nat)
    requires k < |a| && dt != 0.0
    requires forall j :: 0 <= j <= k ==> a[j] == 0.0
    ensures Velocity(a, dt, v0, k) == v0
    ensures Displacement(a, dt, y0, v0, k) == y0 + SampleTime(k, dt) * v0
  {
    if k > 0 {
      ZeroForcing(a, dt, y0, v0, k - 1);
      assert Slope(a, dt, k - 1) == 0.0;
    }
  }

  /** On a uniform grid, zero forcing gives `y[k] == y0 + v0 * (t[k] - t[0])`. */
  lemma ZeroForcingOnGrid(a: seq<real>, t: seq<real>, dt: real, y0: real, v0: real, k: nat)
    requires k < |t| <= |a| && dt != 0.0
    requires forall j :: 0 <= j <= k ==> a[j] == 0.0
    requires Uniform(t, dt)
    ensures Displacement(a, dt, y0, v0, k) == y0 + v0 * (t[k] - t[0])
  {
    ZeroForcing(a, dt, y0, v0, k);
  }

  /** Displacement at time `T` that the recurrence produces under constant
      acceleration `c`: the textbook `y0 + v0*T + c*T^2/2` plus `c*T*dt`. */
  function ConstantDisplacement(y0: real, v0: real, c: real, dt: real, T: real): real
  {
    y0 + v0 * T + c * T * T / 2.0 + c * T * dt
  }

  /** Under constant acceleration each step starts from `c` with zero slope. */
  lemma ConstantSamples(a: seq<real>, dt: real, c: real, i: nat)
    requires i + 1 < |a| && dt != 0.0
    requires forall j :: 0 <= j <= i + 1 ==> a[j] == c
    ensures StepAccel(a, dt, i) == c && Slope(a, dt, i) == 0.0
  {
    StepAccelIsNextSample(a, dt, i);
  }

  /** One displacement step under constant acceleration `c`, from time `T`
      to `T + dt`. */
  lemma ConstantDisplacementStep(y0: real, v0: real, c: real, dt: real, T: real)
    ensures DisplacementUpdate(ConstantDisplacement(y0, v0, c, dt, T), v0 + (T + dt) * c, c, 0.0, dt)
            == ConstantDisplacement(y0, v0, c, dt, T + dt)
  {
  }

  /** Under constant acceleration `c` the velocity is exact: `v0 + c * T` at
      `T = SampleTime(k, dt)`, which is `k * dt` by `Grid.SampleTimeIsProduct`. */
  lemma {:induction false} ConstantVelocity(a: seq<real>, dt: real, v0: real, c: real, k: nat)
    requires k < |a| && dt != 0.0
    requires forall j :: 0 <= j <= k ==> a[j] == c
    ensures Velocity(a, dt, v0, k) == v0 + SampleTime(k, dt) * c
  {
    if k > 0 {
      ConstantVelocity(a, dt, v0, c, k - 1);
      ConstantSamples(a, dt, c, k - 1);
    }
  }

  /** Under constant acceleration `c` the displacement exceeds the exact
      `y0 + v0*T + c*T^2/2` by `c * T * dt`, because each step adds the
      `dt^2/2` acceleration term on top of the END-of-step velocity. */
  lemma {:induction false} ConstantForcing(a: seq<real>, dt: real, y0: real, v0: real, c: real, k: nat)
    requires k < |a| && dt != 0.0
    requires forall j :: 0 <= j <= k ==> a[j] == c
    ensures Displacement(a, dt, y0, v0, k) == ConstantDisplacement(y0, v0, c, dt, SampleTime(k, dt))
  {
    if k > 0 {
      var T := SampleTime(k - 1, dt);
      var y := Displacement(a, dt, y0, v0, k - 1);
      assert y == ConstantDisplacement(y0, v0, c, dt, T) by {
        ConstantForcing(a, dt, y0, v0, c, k - 1);
      }
      assert Velocity(a, dt, v0, k) == v0 + (T + dt) * c by {
        ConstantVelocity(a, dt, v0, c, k);
      }
      ConstantSamples(a, dt, c, k - 1);
      ConstantDisplacementStep(y0, v0, c, dt, T);
    }
  }

  /** On `a = [0, 1]` with `dt = 1` and `v0 = 0` the first velocity step gives
      1.5, while the ramp from 0 to 1 over one second integrates to 0.5. */
  lemma RampCounterexample()
    ensures Velocity([0.0, 1.0], 1.0, 0.0, 1) == 1.5
    ensures ExactVelocity([0.0, 1.0], 1.0, 0.0, 1) == 0.5
  {
  }

  /** On the constant record `a = [1, 1]` with `dt = 1` and `y0 = v0 = 0`
      the first displacement step gives 1.5, while constant unit
      acceleration moves the body 0.5 in one second. */
  lemma ConstantCounterexample()
    ensures Displacement([1.0, 1.0], 1.0, 0.0, 0.0, 1) == 1.5
    ensures ExactDisplacement([1.0, 1.0], 1.0, 0.0, 0.0, 1) == 0.5
  {
  }

  /** The closed-form recurrence for piecewise-linear acceleration: each step
      starts from the sample `a[k - 1]` at the start of the step and the
      velocity `v[k - 1]` there. */
  function ExactVelocity(a: seq<real>, dt: real, v0: real, k: nat): real
    requires k < |a| && dt != 0.0
  {
    if k == 0 then v0
    else VelocityUpdate(ExactVelocity(a, dt, v0, k - 1), a[k - 1], Slope(a, dt, k - 1), dt)
  }

  /** Displacement of the closed-form recurrence. */
  function ExactDisplacement(a: seq<real>, dt: real, y0: real, v0: real, k: nat): real
    requires k < |a| && dt != 0.0
  {
    if k == 0 then y0
    else
      DisplacementUpdate(ExactDisplacement(a, dt, y0, v0, k - 1), ExactVelocity(a, dt, v0, k - 1),
                         a[k - 1], Slope(a, dt, k - 1), dt)
  }

  /** Each step of the corrected velocity recurrence is the trapezoid rule
      over its own step, on any record: the exact integral of the line
      through `a[k]` and `a[k + 1]`. */
  lemma ExactVelocityTrapezoid(a: seq<real>, dt: real, v0: real, k: nat)
    requires k + 1 < |a| && dt != 0.0
    ensures ExactVelocity(a, dt, v0, k + 1) == ExactVelocity(a, dt, v0, k) + dt * (a[k] + a[k + 1]) / 2.0
  {
    assert ((dt * dt) / 2.0) * Slope(a, dt, k) == (dt / 2.0) * (a[k + 1] - a[k]);
  }

  /** The samples lie on the ramp `alpha + beta * t`, sample `j` being taken
      at `t = j * dt`. Constant acceleration is `beta == 0`. */
  ghost predicate OnRamp(a: seq<real>, dt: real, alpha: real, beta: real)
  {
    forall j :: 0 <= j < |a| ==> a[j] == alpha + beta * SampleTime(j, dt)
  }

  /** On a ramp every step's slope is `beta`. */
  lemma SlopeOnRamp(a: seq<real>, dt: real, alpha: real, beta: real, i: nat)
    requires i + 1 < |a| && dt != 0.0 && OnRamp(a, dt, alpha, beta)
    ensures Slope(a, dt, i) == beta
  {
    assert a[i + 1] - a[i] == beta * dt;
  }

  /** The code's velocity after `k` steps exceeds the corrected one by
      `dt * (a[k] - a[0])`. */
  ghost predicate Overshoots(a: seq<real>, dt: real, v0: real, k: nat)
    requires k < |a| && dt != 0.0
  {
    Velocity(a, dt, v0, k) == ExactVelocity(a, dt, v0, k) + dt * (a[k] - a[0])
  }

  /** On any record the code's velocity exceeds the corrected one by
      `dt * (a[k] - a[0])`: each code step starts from `a[i + 1]` where the
      corrected step starts from `a[i]`, and these differences telescope. */
  lemma {:induction false} VelocityOvershoot(a: seq<real>, dt: real, v0: real, k: nat)
    requires k < |a| && dt != 0.0
    ensures Overshoots(a, dt, v0, k)
  {
    if k > 0 {
      VelocityOvershoot(a, dt, v0, k - 1);
      OvershootFromPrevious(a, dt, v0, k - 1);
    }
  }

  /** The overshoot after step `k + 1` from the overshoot after step `k`. */
  lemma OvershootFromPrevious(a: seq<real>, dt: real, v0: real, k: nat)
    requires k + 1 < |a| && dt != 0.0 && Overshoots(a, dt, v0, k)
    ensures Overshoots(a, dt, v0, k + 1)
  {
    var v, e := Velocity(a, dt, v0, k), ExactVelocity(a, dt, v0, k);
    assert Velocity(a, dt, v0, k + 1) == v + dt * a[k + 1] + (dt / 2.0) * (a[k + 1] - a[k]) by {
      VelocityStep(a, dt, v0, k);
    }
    assert ExactVelocity(a, dt, v0, k + 1) == e + dt * (a[k] + a[k + 1]) / 2.0 by {
      ExactVelocityTrapezoid(a, dt, v0, k);
    }
    OvershootStep(Velocity(a, dt, v0, k + 1), ExactVelocity(a, dt, v0, k + 1), v, e, a[0], a[k], a[k + 1], dt);
  }

  /** One step of the code (`next`) and of the corrected recurrence
      (`exact`), in their sample forms: an overshoot of
      `dt * (aPrev - aFirst)` becomes `dt * (aNext - aFirst)`. */
  lemma OvershootStep(next: real, exact: real, v: real, e: real, aFirst: real, aPrev: real, aNext: real, dt: real)
    requires v == e + dt * (aPrev - aFirst)
    requires next == v + dt * aNext + (dt / 2.0) * (aNext - aPrev)
    requires exact == e + dt * (aPrev + aNext) / 2.0
    ensures next == exact + dt * (aNext - aFirst)
  {
  }

  /** On a ramp the code's own velocity overshoots the exact
      `v0 + alpha*T + beta*T^2/2` by `beta * T * dt`. */
  lemma CodeVelocityOnRamp(a: seq<real>, dt: real, v0: real, alpha: real, beta: real, k: nat)
    requires k < |a| && dt != 0.0 && OnRamp(a, dt, alpha, beta)
    ensures Velocity(a, dt, v0, k) == RampVelocity(v0, alpha, beta, SampleTime(k, dt)) + beta * SampleTime(k, dt) * dt
  {
    RampOvershoot(a, dt, v0, alpha, beta, k);
  }

  /** The ramp overshoot of `CodeVelocityOnRamp`, named so that the proof
      in `RampOvershoot` works on it without unfolding `Velocity`. */
  ghost predicate OvershootsRamp(a: seq<real>, dt: real, v0: real, alpha: real, beta: real, k: nat)
    requires k < |a| && dt != 0.0
  {
    Velocity(a, dt, v0, k) == RampVelocity(v0, alpha, beta, SampleTime(k, dt)) + beta * SampleTime(k, dt) * dt
  }

  /** `VelocityOvershoot` on a ramp, where `a[k] - a[0]` is `beta * T`. */
  lemma RampOvershoot(a: seq<real>, dt: real, v0: real, alpha: real, beta: real, k: nat)
    requires k < |a| && dt != 0.0 && OnRamp(a, dt, alpha, beta)
    ensures OvershootsRamp(a, dt, v0, alpha, beta, k)
  {
    var T, e := SampleTime(k, dt), ExactVelocity(a, dt, v0, k);
    assert Velocity(a, dt, v0, k) == e + dt * (a[k] - a[0]) by {
      VelocityOvershoot(a, dt, v0, k);
    }
    assert e == RampVelocity(v0, alpha, beta, T) by {
      ExactVelocityOnRamp(a, dt, v0, alpha, beta, k);
    }
    assert a[k] - a[0] == beta * T;
    OvershootOnRamp(Velocity(a, dt, v0, k), e, RampVelocity(v0, alpha, beta, T), a[k] - a[0], beta, T, dt);
  }

  /** An overshoot of `dt * d` with `d == beta * T` over the exact value. */
  lemma OvershootOnRamp(v: real, e: real, exact: real, d: real, beta: real, T: real, dt: real)
    requires v == e + dt * d && e == exact && d == beta * T
    ensures v == exact + beta * T * dt
  {
  }

  /** Velocity at time `T` under the acceleration `alpha + beta * t`. */
  function RampVelocity(v0: real, alpha: real, beta: real, T: real): real
  {
    v0 + alpha * T + beta * T * T / 2.0
  }

  /** Displacement at time `T` under the acceleration `alpha + beta * t`. */
  function RampDisplacement(y0: real, v0: real, alpha: real, beta: real, T: real): real
  {
    y0 + v0 * T + alpha * T * T / 2.0 + beta * T * T * T / 6.0
  }

  /** One closed-form step carries the ramp velocity from `T` to `T + dt`. */
  lemma RampVelocityStep(v0: real, alpha: real, beta: real, T: real, dt: real, v: real, accel: real, slope: real)
    requires v == RampVelocity(v0, alpha, beta, T) && accel == alpha + beta * T && slope == beta
    ensures VelocityUpdate(v, accel, slope, dt) == RampVelocity(v0, alpha, beta, T + dt)
  {
  }

  /** One closed-form step carries the ramp displacement from `T` to `T + dt`. */
  lemma RampDisplacementStep(y0: real, v0: real, alpha: real, beta: real, T: real, dt: real,
                             y: real, v: real, accel: real, slope: real)
    requires y == RampDisplacement(y0, v0, alpha, beta, T) && v == RampVelocity(v0, alpha, beta, T)
    requires accel == alpha + beta * T && slope == beta
    ensures DisplacementUpdate(y, v, accel, slope, dt) == RampDisplacement(y0, v0, alpha, beta, T + dt)
  {
  }

  /** The velocity of the closed-form recurrence is exact on a ramp: after
      `k` steps, at `T = k * dt`, it is `v0 + alpha*T + beta*T^2/2`. */
  lemma {:induction false} ExactVelocityOnRamp(a: seq<real>, dt: real, v0: real, alpha: real, beta: real, k: nat)
    requires k < |a| && dt != 0.0 && OnRamp(a, dt, alpha, beta)
    ensures ExactVelocity(a, dt, v0, k) == RampVelocity(v0, alpha, beta, SampleTime(k, dt))
  {
    if k > 0 {
      var T := SampleTime(k - 1, dt);
      assert ExactVelocity(a, dt, v0, k - 1) == RampVelocity(v0, alpha, beta, T) by {
        ExactVelocityOnRamp(a, dt, v0, alpha, beta, k - 1);
      }
      assert Slope(a, dt, k - 1) == beta by {
        SlopeOnRamp(a, dt, alpha, beta, k - 1);
      }
      RampVelocityStep(v0, alpha, beta, T, dt, ExactVelocity(a, dt, v0, k - 1), a[k - 1], Slope(a, dt, k - 1));
    }
  }

  /** The displacement of the closed-form recurrence is exact on a ramp:
      after `k` steps, at `T = k * dt`, it is
      `y0 + v0*T + alpha*T^2/2 + beta*T^3/6`. */
  lemma {:induction false} ExactDisplacementOnRamp(a: seq<real>, dt: real, y0: real, v0: real, alpha: real, beta: real, k: nat)
    requires k < |a| && dt != 0.0 && OnRamp(a, dt, alpha, beta)
    ensures ExactDisplacement(a, dt, y0, v0, k) == RampDisplacement(y0, v0, alpha, beta, SampleTime(k, dt))
  {
    if k > 0 {
      var T := SampleTime(k - 1, dt);
      assert ExactDisplacement(a, dt, y0, v0, k - 1) == RampDisplacement(y0, v0, alpha, beta, T) by {
        ExactDisplacementOnRamp(a, dt, y0, v0, alpha, beta, k - 1);
      }
      assert ExactVelocity(a, dt, v0, k - 1) == RampVelocity(v0, alpha, beta, T) by {
        ExactVelocityOnRamp(a, dt, v0, alpha, beta, k - 1);
      }
      assert Slope(a, dt, k - 1) == beta by {
        SlopeOnRamp(a, dt, alpha, beta, k - 1);
      }
      RampDisplacementStep(y0, v0, alpha, beta, T, dt, ExactDisplacement(a, dt, y0, v0, k - 1),
                           ExactVelocity(a, dt, v0, k - 1), a[k - 1], Slope(a, dt, k - 1));
    }
  }
}
