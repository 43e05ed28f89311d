/** The "Runge-Kutta" integrator `integrate_rk4`: a four-stage update of the
    velocity driven by two acceleration samples, followed by a four-stage
    update of the displacement driven only by the new velocity. */
module RungeKutta {
  import opened Indexing
  import opened Grid

  /** Velocity gained in one step (lines 97-102): stages `k1`..`k3` are built
      from the previous sample `aPrev` and `k4` from the current one `aCur`. */
  function VelocityIncrement(aPrev: real, aCur: real, dt: real): real
  {
    var k1 := aPrev;
    var k2 := aPrev + 0.5 * k1 * dt;
    var k3 := aPrev + 0.5 * k2 * dt;
    var k4 := aCur + k3 * dt;
    (1.0 / 6.0) * (k1 + 2.0 * k2 + 2.0 * k3 + k4) * dt
  }

  /** The factor `1 + dt/2 + dt^2/6 + dt^3/24` by which every displacement
      step scales `dt * v_n`. */
  function Growth(dt: real): real
  {
    1.0 + dt / 2.0 + dt * dt / 6.0 + dt * dt * dt / 24.0
  }

  /** Displacement gained in one step (lines 106-111); all four stages are
      driven by the new velocity `vNext`. */
  function DisplacementIncrement(vNext: real, dt: real): real
  {
    var k1 := vNext;
    var k2 := vNext + 0.5 * k1 * dt;
    var k3 := vNext + 0.5 * k2 * dt;
    var k4 := vNext + k3 * dt;
    (1.0 / 6.0) * (k1 + 2.0 * k2 + 2.0 * k3 + k4) * dt
  }

  /** In closed form the velocity increment weighs the current sample once
      and the previous sample by `5 + 3*dt + dt^2 + dt^3/4`, over 6. */
  lemma VelocityIncrementClosedForm(aPrev: real, aCur: real, dt: real)
    ensures VelocityIncrement(aPrev, aCur, dt)
            == dt * (aCur + aPrev * (5.0 + 3.0 * dt + dt * dt + dt * dt * dt / 4.0)) / 6.0
  {
  }

  /** In closed form the displacement increment is `dt * vNext * Growth(dt)`. */
  lemma DisplacementIncrementClosedForm(vNext: real, dt: real)
    ensures DisplacementIncrement(vNext, dt) == dt * vNext * Growth(dt)
  {
  }

  /** Stage values computed one by one give the velocity increment. */
  lemma VelocityStagesMatch(aPrev: real, aCur: real, dt: real, k1: real, k2: real, k3: real, k4: real)
    requires k1 == aPrev && k2 == aPrev + 0.5 * k1 * dt
    requires k3 == aPrev + 0.5 * k2 * dt && k4 == aCur + k3 * dt
    ensures (1.0 / 6.0) * (k1 + 2.0 * k2 + 2.0 * k3 + k4) * dt == VelocityIncrement(aPrev, aCur, dt)
  {
  }

  /** Stage values computed one by one give the displacement increment. */
  lemma DisplacementStagesMatch(vNext: real, dt: real, k1: real, k2: real, k3: real, k4: real)
    requires k1 == vNext && k2 == vNext + 0.5 * k1 * dt
    requires k3 == vNext + 0.5 * k2 * dt && k4 == vNext + k3 * dt
    ensures (1.0 / 6.0) * (k1 + 2.0 * k2 + 2.0 * k3 + k4) * dt == DisplacementIncrement(vNext, dt)
  {
  }

  /** Velocity `v[k]` after `k` steps. Step `i` reads `a[i - 1]` with Python
      indexing, so the first step reads the last sample of `a`. */
  function Velocity(a: seq<real>, dt: real, v0: real, k: nat): real
    requires k <= |a|
  {
    if k == 0 then v0
    else Velocity(a, dt, v0, k - 1) + VelocityIncrement(At(a, k - 2), a[k - 1], dt)
  }

  /** Displacement `y[k]` after `k` steps. */
  function Displacement(a: seq<real>, dt: real, y0: real, v0: real, k: nat): real
    requires k <= |a|
  {
    if k == 0 then y0
    else Displacement(a, dt, y0, v0, k - 1) + DisplacementIncrement(Velocity(a, dt, v0, k), dt)
  }

  /** `integrate_rk4(a, t, dt, y0, v0)`: starts both lists with the initial
      conditions and appends one value to each per iteration of
      `range(len(t) - 1)`. Only the length of `t` is read; an empty `t` still
      yields the one-element lists `[y0]` and `[v0]`. */
  method Integrate(a: seq<real>, t: seq<real>, dt: real, y0: real, v0: real)
    returns (y: seq<real>, v: seq<real>)
    requires |t| <= |a| + 1
    ensures |y| == |v| == if |t| == 0 then 1 else |t|
    ensures y[0] == y0 && v[0] == v0
    ensures |t| >= 2 ==> v[1] == v0 + VelocityIncrement(a[|a| - 1], a[0], dt)
    ensures forall k :: 0 <= k < |v| ==>
              v[k] == Velocity(a, dt, v0, k) && y[k] == Displacement(a, dt, y0, v0, k)
  {
    y := [y0];
    v := [v0];
    var i := 0;
    while i < |t| - 1
      invariant i == 0 || i < |t|
      invariant |y| == |v| == i + 1
      invariant forall k {:trigger v[k]} :: 0 <= k <= i ==> v[k] == Velocity(a, dt, v0, k)
      invariant forall k {:trigger y[k]} :: 0 <= k <= i ==> y[k] == Displacement(a, dt, y0, v0, k)
    {
      var k1 := At(a, i - 1);
      var k2 := At(a, i - 1) + 0.5 * k1 * dt;
      var k3 := At(a, i - 1) + 0.5 * k2 * dt;
      var k4 := a[i] + k3 * dt;

      var vn := At(v, -1) + (1.0 / 6.0) * (k1 + 2.0 * k2 + 2.0 * k3 + k4) * dt;
      VelocityStagesMatch(At(a, i - 1), a[i], dt, k1, k2, k3, k4);
      assert vn == Velocity(a, dt, v0, i + 1);
      v := v + [vn];

      k1 := vn;
      k2 := vn + 0.5 * k1 * dt;
      k3 := vn + 0.5 * k2 * dt;
      k4 := vn + k3 * dt;

      var yn := At(y, -1) + (1.0 / 6.0) * (k1 + 2.0 * k2 + 2.0 * k3 + k4) * dt;
      DisplacementStagesMatch(vn, dt, k1, k2, k3, k4);
      assert yn == Displacement(a, dt, y0, v0, i + 1);
      y := y + [yn];
      i := i + 1;
    }
  }

  /** With no acceleration the velocity stays at `v0`, and every
      displacement step adds `dt * v0 * Growth(dt)`, so at
      `T = SampleTime(k, dt)`, which is `k * dt` by `Grid.SampleTimeIsProduct`,
      the displacement is `y0 + T * v0 * Growth(dt)` rather than `y0 + T * v0`. */
  lemma {:induction false} ZeroForcing(a: seq<real>, dt: real, y0: real, v0: real, k: nat)
    requires k <= |a|
    requires forall j :: 0 <= j < k ==> a[j] == 0.0
    requires k >= 1 ==> a[|a| - 1] == 0.0
    ensures Velocity(a, dt, v0, k) == v0
    ensures Displacement(a, dt, y0, v0, k) == y0 + SampleTime(k, dt) * v0 * Growth(dt)
  {
    if k > 0 {
      ZeroForcing(a, dt, y0, v0, k - 1);
      DisplacementIncrementClosedForm(v0, dt);
    }
  }

  /** So for `dt > 0` and `v0 > 0` the displacement runs ahead of the exact
      `y0 + v0 * T` from the first step on. */
  lemma ZeroForcingDrift(a: seq<real>, dt: real, y0: real, v0: real, k: nat)
    requires 1 <= k <= |a| && dt > 0.0 && v0 > 0.0
    requires forall j :: 0 <= j < k ==> a[j] == 0.0
    requires a[|a| - 1] == 0.0
    ensures Displacement(a, dt, y0, v0, k) > y0 + SampleTime(k, dt) * v0
  {
    ZeroForcing(a, dt, y0, v0, k);
    SampleTimePositive(k, dt);
    var base := SampleTime(k, dt) * v0;
    assert base > 0.0;
    assert base * Growth(dt) - base == base * (dt / 2.0 + dt * dt / 6.0 + dt * dt * dt / 24.0);
  }

  /** One velocity step under constant acceleration `c`, from time `T` to
      `T + dt`. */
  lemma ConstantVelocityStep(v0: real, c: real, dt: real, T: real)
    ensures v0 + T * c * Growth(dt) + VelocityIncrement(c, c, dt) == v0 + (T + dt) * c * Growth(dt)
  {
    VelocityIncrementClosedForm(c, c, dt);
  }

  /** Under constant acceleration `c` the velocity grows by `dt * c * Growth(dt)`
      per step, not the exact `dt * c`: at `T = k * dt` it is
      `v0 + T * c * Growth(dt)`. */
  lemma {:induction false} ConstantForcing(a: seq<real>, dt: real, v0: real, c: real, k: nat)
    requires k <= |a|
    requires forall j :: 0 <= j < k ==> a[j] == c
    requires k >= 1 ==> a[|a| - 1] == c
    ensures Velocity(a, dt, v0, k) == v0 + SampleTime(k, dt) * c * Growth(dt)
  {
    if k > 0 {
      var T := SampleTime(k - 1, dt);
      assert Velocity(a, dt, v0, k - 1) == v0 + T * c * Growth(dt) by {
        ConstantForcing(a, dt, v0, c, k - 1);
      }
      assert At(a, k - 2) == c && a[k - 1] == c;
      ConstantVelocityStep(v0, c, dt, T);
    }
  }

  /** The factor `Growth(dt)` is 1 only for `dt == 0`: `Growth(dt) - 1` is
      `dt * ((dt + 2)^2 + 8) / 24`. */
  lemma GrowthIsOneOnlyAtZero(dt: real)
    ensures Growth(dt) == 1.0 <==> dt == 0.0
  {
    var q := (dt + 2.0) * (dt + 2.0) + 8.0;
    assert q > 0.0;
    assert Growth(dt) - 1.0 == dt * q / 24.0;
    if dt != 0.0 {
      assert dt * q != 0.0;
    }
  }

  /** So under a non-zero constant acceleration and a non-zero step, every
      velocity after the first sample misses the exact `v0 + c * T`. */
  lemma ConstantForcingInexact(a: seq<real>, dt: real, v0: real, c: real, k: nat)
    requires 1 <= k <= |a| && dt != 0.0 && c != 0.0
    requires forall j :: 0 <= j < k ==> a[j] == c
    requires a[|a| - 1] == c
    ensures Velocity(a, dt, v0, k) != v0 + SampleTime(k, dt) * c
  {
    ConstantForcing(a, dt, v0, c, k);
    GrowthIsOneOnlyAtZero(dt);
    SampleTimeIsProduct(k, dt);
    assert SampleTime(k, dt) != 0.0 by {
      assert (k as real) != 0.0;
    }
    var Tc := SampleTime(k, dt) * c;
    assert Tc != 0.0;
    assert Tc * Growth(dt) - Tc == Tc * (Growth(dt) - 1.0);
    assert Tc * (Growth(dt) - 1.0) != 0.0;
  }

  /** The first step reads the LAST sample of the record as its previous
      acceleration: two records that agree on their first two samples but
      differ at the end already give different `v[1]`. */
  lemma WrapAroundCounterexample()
    ensures Velocity([0.0, 0.0, 1.0], 1.0, 0.0, 1) == 37.0 / 24.0
    ensures Velocity([0.0, 0.0, 0.0], 1.0, 0.0, 1) == 0.0
  {
  }

  /** The velocity recurrence with step `i` reading the samples `a[i]` and
      `a[i + 1]` at its start and end, as `integrate_wilson` does. */
  function CausalVelocity(a: seq<real>, dt: real, v0: real, k: nat): real
    requires k < |a|
  {
    if k == 0 then v0
    else CausalVelocity(a, dt, v0, k - 1) + VelocityIncrement(a[k - 1], a[k], dt)
  }

  /** `CausalVelocity` after `k` steps depends only on the samples up to
      `a[k]`. */
  lemma {:induction false} CausalVelocityIsCausal(a: seq<real>, b: seq<real>, dt: real, v0: real, k: nat)
    requires k < |a| && k < |b| && a[..k + 1] == b[..k + 1]
    ensures CausalVelocity(a, dt, v0, k) == CausalVelocity(b, dt, v0, k)
  {
    if k > 0 {
      assert a[..k] == b[..k] by {
        assert a[..k] == a[..k + 1][..k] && b[..k] == b[..k + 1][..k];
      }
      CausalVelocityIsCausal(a, b, dt, v0, k - 1);
      assert a[k - 1] == a[..k + 1][k - 1] && b[k - 1] == b[..k + 1][k - 1];
      assert a[k] == a[..k + 1][k] && b[k] == b[..k + 1][k];
    }
  }

  /** Under constant acceleration `c` the corrected recurrence agrees with
      the code, `v0 + T * c * Growth(dt)` at `T = k * dt`. */
  lemma {:induction false} CausalConstantForcing(a: seq<real>, dt: real, v0: real, c: real, k: nat)
    requires k < |a|
    requires forall j :: 0 <= j <= k ==> a[j] == c
    ensures CausalVelocity(a, dt, v0, k) == v0 + SampleTime(k, dt) * c * Growth(dt)
  {
    if k > 0 {
      var T := SampleTime(k - 1, dt);
      assert CausalVelocity(a, dt, v0, k - 1) == v0 + T * c * Growth(dt) by {
        CausalConstantForcing(a, dt, v0, c, k - 1);
      }
      assert a[k - 1] == c && a[k] == c;
      ConstantVelocityStep(v0, c, dt, T);
    }
  }
}
