/** Loss assembly of `penalty` (fitter/fit.py:145-154) and of the module-level
    signed `penalty` (fitter/fit.py:312-318), over reals with an explicit NaN. */
module Losses {

  /** A floating-point value: a real number or NaN (infinities are not modelled). */
  datatype Float = Num(value: real) | NaN

  /** The value that replaces a NaN difference: `diff[idxs] = 700`. */
  const NaNPenalty: real := 700.0

  function Abs(x: real): real {
    if x < 0.0 then -x else x
  }

  /** `a - b`: NaN when either operand is NaN. */
  function Minus(a: Float, b: Float): Float {
    if a.Num? && b.Num? then Num(a.value - b.value) else NaN
  }

  /** `a / c` for a non-zero real `c`: NaN stays NaN. */
  function Quotient(a: Float, c: real): Float
    requires c != 0.0
  {
    if a.Num? then Num(a.value / c) else NaN
  }

  /** `reference_properties - calc_energies`, molecule by molecule. */
  function Differences(reference: seq<Float>, computed: seq<Float>): (d: seq<Float>)
    requires |reference| == |computed|
    ensures |d| == |reference|
    ensures forall i :: 0 <= i < |d| ==> (d[i].NaN? <==> reference[i].NaN? || computed[i].NaN?)
  {
    seq(|reference|, i requires 0 <= i < |reference| => Minus(reference[i], computed[i]))
  }

  /** The differences after every NaN entry has been set to `NaNPenalty`. */
  function Clamped(diff: seq<Float>): (c: seq<Float>)
    ensures |c| == |diff| && NaN !in c
    ensures forall i :: 0 <= i < |diff| && diff[i].Num? ==> c[i] == diff[i]
  {
    seq(|diff|, i requires 0 <= i < |diff| => if diff[i].NaN? then Num(NaNPenalty) else diff[i])
  }

  /** `idxs = np.argwhere(np.isnan(diff)); diff[idxs] = 700`, in place. */
  method ReplaceNaN(diff: array<Float>)
    modifies diff
    ensures diff[..] == Clamped(old(diff[..]))
  {
    for i := 0 to diff.Length
      invariant forall k :: 0 <= k < i ==> diff[k] == Clamped(old(diff[..]))[k]
      invariant forall k :: i <= k < diff.Length ==> diff[k] == old(diff[k])
    {
      if diff[i].NaN? {
        diff[i] := Num(NaNPenalty);
      }
    }
  }

  /** `np.abs`, element by element. */
  function Magnitudes(xs: seq<Float>): (m: seq<Float>)
    ensures |m| == |xs|
    ensures forall i :: 0 <= i < |xs| ==> (m[i].NaN? <==> xs[i].NaN?)
  {
    seq(|xs|, i requires 0 <= i < |xs| => if xs[i].Num? then Num(Abs(xs[i].value)) else NaN)
  }

  /** The sum of the numeric entries. */
  function SumOf(xs: seq<Float>): real
    decreases |xs|
  {
    if xs == [] then 0.0
    else SumOf(xs[..|xs| - 1]) + (if xs[|xs| - 1].Num? then xs[|xs| - 1].value else 0.0)
  }

  /** `xs.mean()`: NaN for an empty array or when any entry is NaN. */
  function Mean(xs: seq<Float>): (r: Float)
    ensures r.Num? <==> |xs| > 0 && forall i :: 0 <= i < |xs| ==> xs[i].Num?
    ensures r.Num? ==> r.value * |xs| as real == SumOf(xs)
  {
    if |xs| == 0 || NaN in xs then NaN else Num(SumOf(xs) / |xs| as real)
  }

  /** The loss of `minimize_parameters`' `penalty`: `np.abs(diff).mean()`. */
  function AbsLoss(reference: seq<Float>, computed: seq<Float>): (r: Float)
    requires |reference| == |computed|
    ensures r.NaN? <==> |reference| == 0
  {
    Mean(Magnitudes(Clamped(Differences(reference, computed))))
  }

  /** The loss of the module-level `penalty`: `diff.mean()`, without `abs`. */
  function SignedLoss(reference: seq<Float>, computed: seq<Float>): (r: Float)
    requires |reference| == |computed|
    ensures r.NaN? <==> |reference| == 0
  {
    Mean(Clamped(Differences(reference, computed)))
  }

  // An independent statement of the two losses, molecule by molecule.

  /** One molecule's contribution to the absolute loss. */
  function Term(r: Float, c: Float): real {
    if r.NaN? || c.NaN? then NaNPenalty else Abs(r.value - c.value)
  }

  /** One molecule's contribution to the signed loss. */
  function SignedTerm(r: Float, c: Float): real {
    if r.NaN? || c.NaN? then NaNPenalty else r.value - c.value
  }

  function Total(reference: seq<Float>, computed: seq<Float>): (t: real)
    requires |reference| == |computed|
    ensures t >= 0.0
    decreases |reference|
  {
    if reference == [] then 0.0
    else
      var n := |reference| - 1;
      Total(reference[..n], computed[..n]) + Term(reference[n], computed[n])
  }

  function SignedTotal(reference: seq<Float>, computed: seq<Float>): real
    requires |reference| == |computed|
    decreases |reference|
  {
    if reference == [] then 0.0
    else
      var n := |reference| - 1;
      SignedTotal(reference[..n], computed[..n]) + SignedTerm(reference[n], computed[n])
  }

  lemma {:induction false} AbsSumOf(reference: seq<Float>, computed: seq<Float>)
    requires |reference| == |computed|
    ensures NaN !in Magnitudes(Clamped(Differences(reference, computed)))
    ensures SumOf(Magnitudes(Clamped(Differences(reference, computed)))) == Total(reference, computed)
    decreases |reference|
  {
    var xs := Magnitudes(Clamped(Differences(reference, computed)));
    assert forall i :: 0 <= i < |xs| ==> xs[i] == Num(Term(reference[i], computed[i]));
    if reference != [] {
      var n := |reference| - 1;
      AbsSumOf(reference[..n], computed[..n]);
      assert xs[..n] == Magnitudes(Clamped(Differences(reference[..n], computed[..n])));
    }
  }

  lemma {:induction false} SignedSumOf(reference: seq<Float>, computed: seq<Float>)
    requires |reference| == |computed|
    ensures NaN !in Clamped(Differences(reference, computed))
    ensures SumOf(Clamped(Differences(reference, computed))) == SignedTotal(reference, computed)
    decreases |reference|
  {
    var xs := Clamped(Differences(reference, computed));
    assert forall i :: 0 <= i < |xs| ==> xs[i] == Num(SignedTerm(reference[i], computed[i]));
    if reference != [] {
      var n := |reference| - 1;
      SignedSumOf(reference[..n], computed[..n]);
      assert xs[..n] == Clamped(Differences(reference[..n], computed[..n]));
    }
  }

  /** The penalty clamp: the loss is the mean over the molecules of
      `|reference - computed|`, with 700 for every molecule whose difference is
      NaN; it is NaN only for an empty batch. */
  lemma AbsLossIsMeanOfTerms(reference: seq<Float>, computed: seq<Float>)
    requires |reference| == |computed|
    ensures |reference| == 0 ==> AbsLoss(reference, computed) == NaN
    ensures |reference| > 0 ==> AbsLoss(reference, computed) == Num(Total(reference, computed) / |reference| as real)
  {
    AbsSumOf(reference, computed);
  }

  /** The signed variant is the plain mean of the differences, NaN -> 700. */
  lemma SignedLossIsMeanOfTerms(reference: seq<Float>, computed: seq<Float>)
    requires |reference| == |computed|
    ensures |reference| == 0 ==> SignedLoss(reference, computed) == NaN
    ensures |reference| > 0 ==> SignedLoss(reference, computed) == Num(SignedTotal(reference, computed) / |reference| as real)
  {
    SignedSumOf(reference, computed);
  }

  /** On a non-empty batch the loss is a number, never NaN, and never negative. */
  lemma AbsLossNonNegative(reference: seq<Float>, computed: seq<Float>)
    requires |reference| == |computed| && |reference| > 0
    ensures AbsLoss(reference, computed).Num? && AbsLoss(reference, computed).value >= 0.0
  {
    AbsLossIsMeanOfTerms(reference, computed);
  }

  lemma {:induction false} TotalAllFailed(reference: seq<Float>, computed: seq<Float>)
    requires |reference| == |computed|
    requires forall i :: 0 <= i < |reference| ==> Minus(reference[i], computed[i]).NaN?
    ensures Total(reference, computed) == NaNPenalty * |reference| as real
    decreases |reference|
  {
    if reference != [] {
      var n := |reference| - 1;
      TotalAllFailed(reference[..n], computed[..n]);
    }
  }

  /** When every molecule fails, the loss is exactly the penalty. */
  lemma AbsLossAllFailed(reference: seq<Float>, computed: seq<Float>)
    requires |reference| == |computed| && |reference| > 0
    requires forall i :: 0 <= i < |reference| ==> Minus(reference[i], computed[i]).NaN?
    ensures AbsLoss(reference, computed) == Num(NaNPenalty)
  {
    AbsLossIsMeanOfTerms(reference, computed);
    TotalAllFailed(reference, computed);
    var n := |reference| as real;
    assert NaNPenalty * n / n == NaNPenalty;
  }

  lemma {:induction false} TotalAllMatch(reference: seq<Float>, computed: seq<Float>)
    requires |reference| == |computed|
    requires forall i :: 0 <= i < |reference| ==> reference[i].Num? && reference[i] == computed[i]
    ensures Total(reference, computed) == 0.0
    decreases |reference|
  {
    if reference != [] {
      var n := |reference| - 1;
      TotalAllMatch(reference[..n], computed[..n]);
    }
  }

  /** When every computed energy equals its reference, the loss is zero. */
  lemma AbsLossAllMatch(reference: seq<Float>, computed: seq<Float>)
    requires |reference| == |computed| && |reference| > 0
    requires forall i :: 0 <= i < |reference| ==> reference[i].Num? && reference[i] == computed[i]
    ensures AbsLoss(reference, computed) == Num(0.0)
  {
    AbsLossIsMeanOfTerms(reference, computed);
    TotalAllMatch(reference, computed);
  }

  /** Three molecules with reference energies -10, -20, -15 and computed
      energies -9.5, NaN, -15.2: the loss is (0.5 + 700 + 0.2) / 3. */
  lemma AbsLossThreeMolecules()
    ensures AbsLoss([Num(-10.0), Num(-20.0), Num(-15.0)], [Num(-9.5), NaN, Num(-15.2)]) == Num(700.7 / 3.0)
  {
    var r, c := [Num(-10.0), Num(-20.0), Num(-15.0)], [Num(-9.5), NaN, Num(-15.2)];
    AbsLossIsMeanOfTerms(r, c);
    assert r[..2][..1] == r[..1] && c[..2][..1] == c[..1];
    assert Total(r[..1], c[..1]) == 0.5;
  }

  lemma {:induction false} SignedTotalWithinTotal(reference: seq<Float>, computed: seq<Float>)
    requires |reference| == |computed|
    ensures Abs(SignedTotal(reference, computed)) <= Total(reference, computed)
    decreases |reference|
  {
    if reference != [] {
      var n := |reference| - 1;
      SignedTotalWithinTotal(reference[..n], computed[..n]);
    }
  }

  /** The signed mean never exceeds the absolute one in magnitude. */
  lemma SignedLossWithinAbsLoss(reference: seq<Float>, computed: seq<Float>)
    requires |reference| == |computed| && |reference| > 0
    ensures SignedLoss(reference, computed).Num? && AbsLoss(reference, computed).Num?
    ensures Abs(SignedLoss(reference, computed).value) <= AbsLoss(reference, computed).value
  {
    AbsLossIsMeanOfTerms(reference, computed);
    SignedLossIsMeanOfTerms(reference, computed);
    SignedTotalWithinTotal(reference, computed);
    ScaledBound(SignedTotal(reference, computed), Total(reference, computed), |reference| as real);
  }

  lemma ScaledBound(s: real, t: real, n: real)
    requires n > 0.0 && Abs(s) <= t
    ensures Abs(s / n) <= t / n
  {
    if s < 0.0 {
      assert s / n < 0.0;
      assert -(s / n) == (-s) / n;
    }
  }

  /** Unlike the absolute loss, the signed one lets errors cancel and can be
      negative. */
  lemma SignedLossCancels()
    ensures SignedLoss([Num(0.0), Num(0.0)], [Num(1.0), Num(-1.0)]) == Num(0.0)
    ensures AbsLoss([Num(0.0), Num(0.0)], [Num(1.0), Num(-1.0)]) == Num(1.0)
    ensures SignedLoss([Num(0.0)], [Num(1.0)]) == Num(-1.0)
  {
    var r, c := [Num(0.0), Num(0.0)], [Num(1.0), Num(-1.0)];
    SignedLossIsMeanOfTerms(r, c);
    AbsLossIsMeanOfTerms(r, c);
    assert r[..1] == [Num(0.0)] && c[..1] == [Num(1.0)];
    SignedLossIsMeanOfTerms([Num(0.0)], [Num(1.0)]);
  }
}
