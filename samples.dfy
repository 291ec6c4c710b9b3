/**
 * Floating-point samples as numpy holds them: a finite value or one of the
 * IEEE 754 special values. Rounding and overflow of finite values are not modelled.
 */
module Samples {

  datatype Sample = Finite(x: real) | NaN | PosInf | NegInf

  /** `np.isfinite`. */
  predicate IsFinite(v: Sample) {
    v.Finite?
  }

  /** `v <= 0` as numpy evaluates it: false for NaN, true for -inf. */
  predicate AtMostZero(v: Sample) {
    match v
    case Finite(x) => x <= 0.0
    case NegInf => true
    case _ => false
  }

  /** The epsilon substituted for non-positive intensities, 1e-10. */
  const Epsilon: real := 0.0000000001

  /** `np.where(band <= 0, epsilon, band)` on one sample. */
  function Guard(v: Sample): (r: Sample)
    ensures !AtMostZero(r)
    ensures !AtMostZero(v) ==> r == v
  {
    if AtMostZero(v) then Finite(Epsilon) else v
  }

  /**
   * `np.log10` with IEEE 754 special cases; `lg` is the logarithm of a positive
   * finite value, left uninterpreted.
   */
  function Log10(lg: real -> real, v: Sample): Sample {
    match v
    case Finite(x) => if x > 0.0 then Finite(lg(x)) else if x == 0.0 then NegInf else NaN
    case PosInf => PosInf
    case NegInf => NaN
    case NaN => NaN
  }

  /** `10 * v`. */
  function Times10(v: Sample): Sample {
    match v
    case Finite(x) => Finite(10.0 * x)
    case _ => v
  }

  /** `a - b` with IEEE 754 special cases. */
  function Minus(a: Sample, b: Sample): Sample {
    match (a, b)
    case (NaN, _) => NaN
    case (_, NaN) => NaN
    case (PosInf, PosInf) => NaN
    case (NegInf, NegInf) => NaN
    case (PosInf, _) => PosInf
    case (NegInf, _) => NegInf
    case (Finite(_), PosInf) => NegInf
    case (Finite(_), NegInf) => PosInf
    case (Finite(x), Finite(y)) => Finite(x - y)
  }

  /** `10*log10(b3) - 10*log10(b1)` on one pair of samples. */
  function LogRatio(lg: real -> real, b1: Sample, b3: Sample): Sample {
    Minus(Times10(Log10(lg, b3)), Times10(Log10(lg, b1)))
  }

  /** `np.where(np.isfinite(change), change, 0)` on one sample. */
  function Clamp(v: Sample): real {
    if v.Finite? then v.x else 0.0
  }

  /** After the guard a sample is positive (finite or +inf) or NaN: never zero, negative or -inf. */
  lemma GuardedIsPositiveOrNaN(v: Sample)
    ensures Guard(v).Finite? ==> Guard(v).x > 0.0
    ensures !Guard(v).NegInf?
    ensures Guard(v) == NaN <==> v == NaN
  {
  }

  /**
   * The guarded log-ratio is finite exactly when neither input sample is NaN or +inf:
   * every finite or -inf intensity, including zero and negative ones, is rescued by the guard.
   */
  lemma GuardedRatioFiniteIff(lg: real -> real, b1: Sample, b3: Sample)
    ensures IsFinite(LogRatio(lg, Guard(b1), Guard(b3))) <==>
            (b1 != NaN && b1 != PosInf && b3 != NaN && b3 != PosInf)
  {
  }

  /**
   * The clamp is a retraction onto the finite samples: a nonzero output is the computed
   * value itself, a zero output is nodata or a true 0, and clamping again changes nothing.
   */
  lemma ClampRetracts(v: Sample)
    ensures Clamp(v) != 0.0 ==> v == Finite(Clamp(v))
    ensures Clamp(v) == 0.0 <==> !IsFinite(v) || v == Finite(0.0)
    ensures Clamp(Finite(Clamp(v))) == Clamp(v)
  {
  }

  /**
   * When the post-event intensity is ten times the pre-event one and `lg` maps 10x to
   * lg(x) + 1, the change value is 10*log10(10) = 10.
   */
  lemma TenfoldRatioIsTen(lg: real -> real, x: real)
    requires x > 0.0
    requires lg(10.0 * x) == lg(x) + 1.0
    ensures Clamp(LogRatio(lg, Guard(Finite(x)), Guard(Finite(10.0 * x)))) == 10.0
  {
  }
}
