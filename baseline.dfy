/** The drift corrector `basline`: subtracts the straight line through the
    first and last samples and re-anchors the series at the initial value. */
module BaselineCorrection {
  import opened Indexing

  /** What `basline` needs to be defined: one time per sample and distinct
      first and last times, so that the two-point line exists. */
  predicate Fittable(s: seq<real>, t: seq<real>)
  {
    |s| == |t| && |t| >= 1 && t[0] != At(t, -1)
  }

  /** Slope `m` of the line through `(t[0], s[0])` and `(t[-1], s[-1])`. */
  function TrendSlope(s: seq<real>, t: seq<real>): real
    requires Fittable(s, t)
  {
    (At(s, -1) - s[0]) / (At(t, -1) - t[0])
  }

  /** Intercept `q` of that line. */
  function TrendIntercept(s: seq<real>, t: seq<real>): real
    requires Fittable(s, t)
  {
    s[0] - TrendSlope(s, t) * t[0]
  }

  /** The degree-1 fit of the two end points passes through both of them. */
  lemma TrendThroughEndpoints(s: seq<real>, t: seq<real>)
    requires Fittable(s, t)
    ensures TrendSlope(s, t) * t[0] + TrendIntercept(s, t) == s[0]
    ensures TrendSlope(s, t) * At(t, -1) + TrendIntercept(s, t) == At(s, -1)
  {
    var m, d := TrendSlope(s, t), At(t, -1) - t[0];
    assert m * d == At(s, -1) - s[0];
  }

  /** `basline(s, t, s0)`: `s - (m * t + q) + s0`, element by element. The
      result keeps the length of `s` and starts and ends at `s0`. */
  function Baseline(s: seq<real>, t: seq<real>, s0: real): (r: seq<real>)
    requires Fittable(s, t)
    ensures |r| == |s|
    ensures r[0] == s0 && At(r, -1) == s0
  {
    TrendThroughEndpoints(s, t);
    seq(|s|, i requires 0 <= i < |s| => s[i] - (TrendSlope(s, t) * t[i] + TrendIntercept(s, t)) + s0)
  }

  /** `s` plus the line `alpha * t + beta`, sample by sample. */
  function AddLine(s: seq<real>, t: seq<real>, alpha: real, beta: real): seq<real>
    requires |s| == |t|
  {
    seq(|s|, i requires 0 <= i < |s| => s[i] + alpha * t[i] + beta)
  }

  /** Any linear drift added to `s` is removed completely: the result does
      not change. */
  lemma AddLineInvariant(s: seq<real>, t: seq<real>, s0: real, alpha: real, beta: real)
    requires Fittable(s, t)
    ensures Fittable(AddLine(s, t, alpha, beta), t)
    ensures Baseline(AddLine(s, t, alpha, beta), t, s0) == Baseline(s, t, s0)
  {
    var s' := AddLine(s, t, alpha, beta);
    var d := At(t, -1) - t[0];
    var m, m' := TrendSlope(s, t), TrendSlope(s', t);
    assert At(s', -1) - s'[0] == (At(s, -1) - s[0]) + alpha * d;
    assert m' == m + alpha by {
      assert m' * d == (At(s, -1) - s[0]) + alpha * d;
      assert m * d == At(s, -1) - s[0];
    }
    assert TrendIntercept(s', t) == TrendIntercept(s, t) + beta;
    var r, r' := Baseline(s, t, s0), Baseline(s', t, s0);
    forall i | 0 <= i < |s| ensures r'[i] == r[i] {
    }
  }

  /** A series that is itself a straight line in `t` corrects to the
      constant `s0`. */
  lemma AffineToConstant(s: seq<real>, t: seq<real>, s0: real, alpha: real, beta: real)
    requires Fittable(s, t)
    requires forall i :: 0 <= i < |s| ==> s[i] == alpha * t[i] + beta
    ensures forall i :: 0 <= i < |s| ==> Baseline(s, t, s0)[i] == s0
  {
    var zero := AddLine(s, t, -alpha, -beta);
    assert s == AddLine(zero, t, alpha, beta);
    AddLineInvariant(zero, t, s0, alpha, beta);
    assert TrendSlope(zero, t) == 0.0 && TrendIntercept(zero, t) == 0.0;
  }

  /** Correcting an already corrected series with the same `t` and `s0`
      changes nothing. */
  lemma Idempotent(s: seq<real>, t: seq<real>, s0: real)
    requires Fittable(s, t)
    ensures Baseline(Baseline(s, t, s0), t, s0) == Baseline(s, t, s0)
  {
    var r := Baseline(s, t, s0);
    assert TrendSlope(r, t) == 0.0;
    assert TrendIntercept(r, t) == s0;
  }
}
