/** The central finite difference of `jacobian` (fitter/fit.py:161-192), for
    an arbitrary objective over parameter vectors. */
module FiniteDifference {
  import opened Losses

  /** `v` with its i-th entry moved by `h` and every other entry unchanged. */
  function Shifted(v: seq<real>, i: nat, h: real): seq<real>
    requires i < |v|
  {
    v[i := v[i] + h]
  }

  /** `(f(v + dh e_i) - f(v - dh e_i)) / (2 dh)`. */
  function CentralDifference(f: seq<real> -> Float, v: seq<real>, i: nat, dh: real): (g: Float)
    requires i < |v| && dh != 0.0
    ensures g.Num? <==> f(Shifted(v, i, dh)).Num? && f(Shifted(v, i, -dh)).Num?
    ensures g.Num? ==> g.value * (2.0 * dh) == f(Shifted(v, i, dh)).value - f(Shifted(v, i, -dh)).value
  {
    Quotient(Minus(f(Shifted(v, i, dh)), f(Shifted(v, i, -dh))), 2.0 * dh)
  }

  /** The central difference in every dimension. */
  function Gradient(f: seq<real> -> Float, v: seq<real>, dh: real): (g: seq<Float>)
    requires dh != 0.0
    ensures |g| == |v|
    ensures forall i :: 0 <= i < |v| ==> (g[i].NaN? <==> f(Shifted(v, i, dh)).NaN? || f(Shifted(v, i, -dh)).NaN?)
  {
    seq(|v|, i requires 0 <= i < |v| => CentralDifference(f, v, i, dh))
  }

  /** The two points of dimension i differ from `v` in dimension i only, by
      `+dh` and `-dh`; the point reached by `dparams[i] += dh` followed by
      `dparams[i] -= 2 * dh` is the backward point. */
  lemma PerturbedPoints(v: seq<real>, i: nat, dh: real)
    requires i < |v|
    ensures |Shifted(v, i, dh)| == |Shifted(v, i, -dh)| == |v|
    ensures forall j :: 0 <= j < |v| && j != i ==> Shifted(v, i, dh)[j] == Shifted(v, i, -dh)[j] == v[j]
    ensures Shifted(v, i, dh)[i] - Shifted(v, i, -dh)[i] == 2.0 * dh
    ensures Shifted(Shifted(v, i, dh), i, -2.0 * dh) == Shifted(v, i, -dh)
  {
  }

  /** If the objective is affine in dimension i with slope m, the i-th
      component of the gradient is m, whatever the step. */
  lemma AffineSlope(f: seq<real> -> Float, v: seq<real>, i: nat, dh: real, m: real, c: real)
    requires i < |v| && dh != 0.0
    requires forall h :: f(Shifted(v, i, h)) == Num(m * (v[i] + h) + c)
    ensures CentralDifference(f, v, i, dh) == Num(m)
  {
    var forward, backward := f(Shifted(v, i, dh)), f(Shifted(v, i, -dh));
    SlopeArithmetic(m, v[i], c, dh);
  }

  lemma SlopeArithmetic(m: real, p: real, c: real, dh: real)
    requires dh != 0.0
    ensures ((m * (p + dh) + c) - (m * (p + -dh) + c)) / (2.0 * dh) == m
  {
    assert m * (p + dh) == m * p + m * dh;
    assert m * (p + -dh) == m * p - m * dh;
    assert (m * (p + dh) + c) - (m * (p + -dh) + c) == 2.0 * dh * m;
  }
}
