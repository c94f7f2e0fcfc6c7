/** Exact smoothed probabilities. The source wraps every ratio in `np.log`;
    the logarithm is strictly increasing, so the model keeps the ratio itself
    and compares two ratios by cross-multiplication. */
module Ratios {

  /** The value num / den, kept as a pair of naturals. */
  datatype Ratio = Ratio(num: nat, den: nat)

  /** A ratio the source can actually compute (no division by zero). */
  predicate WellFormed(r: Ratio) {
    r.den > 0
  }

  /** a < b, for well-formed ratios. */
  predicate Less(a: Ratio, b: Ratio) {
    a.num * b.den < b.num * a.den
  }

  /** a <= b, for well-formed ratios. */
  predicate LessEq(a: Ratio, b: Ratio) {
    a.num * b.den <= b.num * a.den
  }

  /** The exact rational value of a well-formed ratio. */
  function Value(r: Ratio): real
    requires WellFormed(r)
  {
    r.num as real / r.den as real
  }

  lemma MulMonotone(x: int, y: int, k: nat)
    requires x <= y
    ensures x * k <= y * k
  {
  }

  lemma MulStrictMonotone(x: int, y: int, k: nat)
    requires x < y && k > 0
    ensures x * k < y * k
  {
  }

  lemma MulCancelStrict(x: int, y: int, k: nat)
    requires k > 0 && x * k < y * k
    ensures x < y
  {
    if x >= y {
      MulMonotone(y, x, k);
    }
  }

  lemma RealScale(x: real, y: real, k: real)
    requires k > 0.0
    ensures x < y <==> x * k < y * k
    ensures x <= y <==> x * k <= y * k
  {
  }

  /** Cross-multiplication orders ratios exactly as their values are ordered. */
  lemma {:induction false} LessMatchesValue(a: Ratio, b: Ratio)
    requires WellFormed(a) && WellFormed(b)
    ensures Less(a, b) <==> Value(a) < Value(b)
    ensures LessEq(a, b) <==> Value(a) <= Value(b)
  {
    var da, db := a.den as real, b.den as real;
    var va, vb := Value(a), Value(b);
    assert va * da == a.num as real;
    assert vb * db == b.num as real;
    assert (a.num * b.den) as real == va * (da * db) by {
      assert (a.num * b.den) as real == a.num as real * db;
    }
    assert (b.num * a.den) as real == vb * (da * db) by {
      assert (b.num * a.den) as real == b.num as real * da;
    }
    RealScale(va, vb, da * db);
  }

  /** Two different ratios compare one way or the other. */
  lemma NotLess(a: Ratio, b: Ratio)
    ensures !Less(a, b) <==> LessEq(b, a)
  {
  }

  lemma {:induction false} LessEqLessTransitive(a: Ratio, b: Ratio, c: Ratio)
    requires WellFormed(a) && WellFormed(b) && WellFormed(c)
    requires LessEq(a, b) && Less(b, c)
    ensures Less(a, c)
  {
    MulMonotone(a.num * b.den, b.num * a.den, c.den);
    MulStrictMonotone(b.num * c.den, c.num * b.den, a.den);
    assert a.num * b.den * c.den == (a.num * c.den) * b.den;
    assert b.num * a.den * c.den == b.num * c.den * a.den;
    assert c.num * b.den * a.den == (c.num * a.den) * b.den;
    MulCancelStrict(a.num * c.den, c.num * a.den, b.den);
  }

  /** With a common positive denominator, the order is that of the numerators. */
  lemma {:induction false} SameDenominator(a: Ratio, b: Ratio)
    requires WellFormed(a) && a.den == b.den
    ensures Less(a, b) <==> a.num < b.num
    ensures LessEq(a, b) <==> a.num <= b.num
  {
    if a.num < b.num {
      MulStrictMonotone(a.num, b.num, a.den);
    } else {
      MulMonotone(b.num, a.num, a.den);
    }
    if a.num <= b.num {
      MulMonotone(a.num, b.num, a.den);
    } else {
      MulStrictMonotone(b.num, a.num, a.den);
    }
  }
}
