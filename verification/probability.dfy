/** LLVM's `BranchProbability`: a fixed-point fraction N / 2^31, as consumed by the hot-successor test. */
module Probability {

  /** The fixed denominator of every probability (1 << 31). */
  const Denominator: nat := 0x8000_0000

  /** A probability N / Denominator; meaningful when N <= Denominator. */
  datatype BranchProbability = BranchProbability(n: nat)

  predicate Valid(p: BranchProbability) {
    p.n <= Denominator
  }

  /**
   * The probability `num / den`, normalised to the fixed denominator by rounding to the
   * nearest numerator (halves round up), as the constructor `BranchProbability(num, den)` does.
   */
  function FromFraction(num: nat, den: nat): (p: BranchProbability)
    requires 0 < den && num <= den
    ensures Valid(p)
    ensures p.n * den <= num * 0x8000_0000 + den / 2 < (p.n + 1) * den
  {
    if den == 0x8000_0000 then BranchProbability(num)
    else
      var x := num * 0x8000_0000 + den / 2;
      DivBounds(x, den);
      DivMonotone(x, 0x8000_0000 * den + den / 2, den);
      assert (0x8000_0000 * den + den / 2) / den == 0x8000_0000 by {
        DivAddSmall(0x8000_0000, den, den / 2);
      }
      BranchProbability(x / den)
  }

  /** Saturating addition, as `BranchProbability::operator+=` does. */
  function Add(a: BranchProbability, b: BranchProbability): (r: BranchProbability)
    ensures Valid(r)
    ensures r.n == if a.n + b.n > Denominator then Denominator else a.n + b.n
  {
    if a.n + b.n > Denominator then BranchProbability(Denominator) else BranchProbability(a.n + b.n)
  }

  /** The threshold `BranchProbability(4, 5)` of the hot-successor test. */
  function HotThreshold(): (t: BranchProbability)
    ensures t.n == 1717986918
    ensures 5 * t.n + 2 == 4 * Denominator
  {
    FromFraction(4, 5)
  }

  /** An edge is hot when its probability is at least the threshold (`prob >= BranchProbability(4, 5)`). */
  predicate IsHot(p: BranchProbability) {
    p.n >= HotThreshold().n
  }

  /**
   * In rational terms: a probability N / 2^31 is hot exactly when it is at least
   * 4/5 - 2/(5 * 2^31), the nearest representable value below 4/5.
   */
  lemma HotIffAtLeastFourFifths(p: BranchProbability)
    ensures IsHot(p) <==> 5 * p.n + 2 >= 4 * Denominator
    ensures 5 * p.n >= 4 * Denominator ==> IsHot(p)
  {
  }

  /** Exactly 4/5 counts as hot; an even split does not; certainty does. */
  lemma ThresholdExamples()
    ensures IsHot(FromFraction(4, 5))
    ensures !IsHot(FromFraction(1, 2))
    ensures IsHot(FromFraction(1, 1))
    ensures FromFraction(1, 2).n == Denominator / 2
  {
    assert (1 * 0x8000_0000 + 1) / 2 == 0x4000_0000;
  }

  /**
   * A fraction `num / den` normalised by `FromFraction` is hot exactly when
   * `num * 2^31 + den/2 >= 1717986918 * den`; every fraction of at least 4/5 passes,
   * and every fraction that passes is at least 4/5 - 9/(10 * 2^31).
   */
  lemma {:induction false} FractionHotIff(num: nat, den: nat)
    requires 0 < den && num <= den
    ensures IsHot(FromFraction(num, den)) <==> num * 0x8000_0000 + den / 2 >= 1717986918 * den
    ensures 5 * num >= 4 * den ==> IsHot(FromFraction(num, den))
    ensures IsHot(FromFraction(num, den)) ==> 10 * num * 0x8000_0000 + 9 * den >= 8 * 0x8000_0000 * den
  {
    var p := FromFraction(num, den);
    var x := num * 0x8000_0000 + den / 2;
    assert p.n * den <= x < (p.n + 1) * den;
    if p.n >= 1717986918 {
      MulMonotone(1717986918, p.n, den);
    } else {
      MulMonotone(p.n + 1, 1717986918, den);
    }
    if 5 * num >= 4 * den {
      assert 5 * (num * 0x8000_0000) >= 4 * den * 0x8000_0000 by {
        MulMonotone(4 * den, 5 * num, 0x8000_0000);
      }
    }
  }

  lemma MulMonotone(a: nat, b: nat, c: nat)
    requires a <= b
    ensures a * c <= b * c
  {
  }

  lemma DivBounds(x: nat, d: nat)
    requires 0 < d
    ensures (x / d) * d <= x < (x / d + 1) * d
  {
  }

  lemma DivMonotone(x: nat, y: nat, d: nat)
    requires 0 < d && x <= y
    ensures x / d <= y / d
  {
    DivBounds(x, d);
    DivBounds(y, d);
    if x / d > y / d {
      MulMonotone(y / d + 1, x / d, d);
    }
  }

  lemma DivAddSmall(q: nat, d: nat, r: nat)
    requires 0 < d && r < d
    ensures (q * d + r) / d == q
  {
    var x := q * d + r;
    DivBounds(x, d);
    var k := x / d;
    if k < q {
      MulMonotone(k + 1, q, d);
    } else if k > q {
      MulMonotone(q + 1, k, d);
    }
  }
}
