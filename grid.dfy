/** The uniform time grid the integrators step along. */
module Grid {

  /** Time of sample `k` measured from the first sample: `k` steps of `dt`. */
  function SampleTime(k: nat, dt: real): real
  {
    if k == 0 then 0.0 else SampleTime(k - 1, dt) + dt
  }

  /** `SampleTime(k, dt)` is `k * dt`. */
  lemma {:induction false} SampleTimeIsProduct(k: nat, dt: real)
    ensures SampleTime(k, dt) == (k as real) * dt
  {
    if k > 0 {
      SampleTimeIsProduct(k - 1, dt);
    }
  }

  /** With a positive step every sample after the first lies strictly later. */
  lemma {:induction false} SampleTimePositive(k: nat, dt: real)
    requires k >= 1 && dt > 0.0
    ensures SampleTime(k, dt) > 0.0
  {
    if k > 1 {
      SampleTimePositive(k - 1, dt);
    }
  }

  /** A time vector `t` is uniform with step `dt`. */
  ghost predicate Uniform(t: seq<real>, dt: real)
  {
    forall j :: 0 <= j < |t| ==> t[j] == t[0] + SampleTime(j, dt)
  }
}
