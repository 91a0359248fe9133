/**
 * Entries of the feature matrices. The C++ code stores IEEE doubles; the model
 * keeps exact reals and tags the two kinds of non-finite value the extractor
 * can produce: the NaN it writes for a statistic that was never recorded, and
 * the infinities or NaN that come out of a division by a zero row norm.
 */
module Features {
  import opened Scip

  datatype Feature = Num(value: real) | NaN | Inf(negative: bool)

  /** A boolean cast to the floating-point type: one for true, zero for false. */
  function Flag(b: bool): (r: Feature)
    ensures r.Num?
    ensures r == Num(1.0) <==> b
    ensures r == Num(0.0) <==> !b
  {
    Num(if b then 1.0 else 0.0)
  }

  /** `opt.value_or(nan)`. */
  function ValueOr(opt: Option<real>): (r: Feature)
    ensures r.Num? <==> opt.Some?
    ensures opt.Some? ==> r.value == opt.value
    ensures opt.None? ==> r == NaN
  {
    match opt
    case Some(v) => Num(v)
    case None => NaN
  }

  /**
   * Floating-point `x / y` for a divisor that is a norm or a product of norms,
   * so never a negative zero: the exact quotient when `y` is nonzero, and as in
   * IEEE 754 an infinity of the numerator's sign or, for `0 / 0`, NaN.
   */
  function Quot(x: real, y: real): (r: Feature)
    ensures r.Num? <==> y != 0.0
    ensures r == NaN <==> y == 0.0 && x == 0.0
  {
    if y != 0.0 then Num(x / y)
    else if x > 0.0 then Inf(false)
    else if x < 0.0 then Inf(true)
    else NaN
  }

  /**
   * The quotient is finite exactly when the divisor is nonzero, and then it
   * times the divisor gives back the dividend; a zero divisor gives NaN for a
   * zero dividend and otherwise an infinity of the dividend's sign.
   */
  lemma QuotMeaning(x: real, y: real)
    ensures Quot(x, y).Num? <==> y != 0.0
    ensures Quot(x, y).Num? ==> Quot(x, y).value * y == x
    ensures Quot(x, y) == NaN <==> y == 0.0 && x == 0.0
    ensures Quot(x, y).Inf? ==> (Quot(x, y).negative <==> x < 0.0)
  {
  }

  /** A block of `n` entries, all zero except a one at offset `k`. */
  function OneHot(n: nat, k: nat): (r: seq<Feature>)
    requires k < n
    ensures |r| == n && r[k] == Num(1.0)
    ensures forall i :: 0 <= i < n && i != k ==> r[i] == Num(0.0)
  {
    seq(n, i => if i == k then Num(1.0) else Num(0.0))
  }

  /**
   * Sum of the finite entries of a block, non-finite entries counting as zero;
   * it is the floating-point sum only of a block shown to be all finite.
   */
  function SumOfFiniteEntries(s: seq<Feature>): real
  {
    if s == [] then 0.0
    else SumOfFiniteEntries(s[..|s| - 1]) + (if s[|s| - 1].Num? then s[|s| - 1].value else 0.0)
  }

  /** A one-hot block is finite everywhere and sums to exactly one. */
  lemma {:induction false} OneHotSumsToOne(n: nat, k: nat)
    requires k < n
    ensures forall i :: 0 <= i < n ==> OneHot(n, k)[i].Num?
    ensures SumOfFiniteEntries(OneHot(n, k)) == 1.0
  {
    OneHotPrefixSum(n, k, n);
    assert OneHot(n, k)[..n] == OneHot(n, k);
  }

  lemma {:induction false} OneHotPrefixSum(n: nat, k: nat, m: nat)
    requires k < n && m <= n
    ensures SumOfFiniteEntries(OneHot(n, k)[..m]) == if k < m then 1.0 else 0.0
  {
    var s := OneHot(n, k);
    if m > 0 {
      OneHotPrefixSum(n, k, m - 1);
      assert s[..m][..m - 1] == s[..m - 1];
    }
  }
}
