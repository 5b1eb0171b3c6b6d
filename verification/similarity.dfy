/**
 * `calc_string_similarity`: the edit distance divided by the length of the
 * longer operand. Despite its name the score is distance-like: 0 means the
 * two strings are equal and larger means more different. The quotient is kept
 * exact, as a pair of naturals compared by cross-multiplication.
 */
module Similarity {
  import opened Levenshtein

  /** The non-negative rational `num / den`. */
  datatype Ratio = Ratio(num: nat, den: nat)

  function Max(a: nat, b: nat): nat
  {
    if a >= b then a else b
  }

  /** The score's denominator is non-zero: at least one operand is non-empty. */
  predicate Scorable(s1: string, s2: string)
  {
    |s1| > 0 || |s2| > 0
  }

  /** The score of `s1` against `s2`, as a fraction of the longer length. */
  function StringSimilarity(s1: string, s2: string): (r: Ratio)
    requires Scorable(s1, s2)
    ensures r.den == Max(|s1|, |s2|) && r.den > 0
    ensures r.num <= r.den
    ensures r.num == 0 <==> s1 == s2
  {
    EditDistBounds(s1, s2);
    EditDistZeroIff(s1, s2);
    Ratio(EditDist(s1, s2), Max(|s1|, |s2|))
  }

  /** As the real quotient the runner computes, the score lies in [0, 1]. */
  lemma ScoreInUnitInterval(s1: string, s2: string)
    requires Scorable(s1, s2)
    ensures var r := StringSimilarity(s1, s2);
            0.0 <= (r.num as real) / (r.den as real) <= 1.0
  {
    var r := StringSimilarity(s1, s2);
    QuotientInUnitInterval(r.num, r.den);
  }

  lemma QuotientInUnitInterval(n: nat, d: nat)
    requires 0 < d && n <= d
    ensures 0.0 <= (n as real) / (d as real) <= 1.0
  {
    var q := (n as real) / (d as real);
    assert q * (d as real) == n as real;
  }

  /** The score as the runner computes it, from the row-by-row distance. */
  method CalcStringSimilarity(s1: string, s2: string) returns (score: Ratio)
    requires Scorable(s1, s2)
    ensures score == StringSimilarity(s1, s2)
  {
    var n := Max(|s1|, |s2|);
    var d := CalcLevenshteinDistance(s1, s2);
    score := Ratio(d, n);
  }

  /** `a` ranks no later than `b`: `a.num / a.den <= b.num / b.den`, cross-multiplied. */
  predicate ScoreLe(a: Ratio, b: Ratio)
  {
    a.num * b.den <= b.num * a.den
  }

  /** For positive denominators the cross-multiplied order is the order of the quotients. */
  lemma ScoreLeIsQuotientOrder(a: Ratio, b: Ratio)
    requires a.den > 0 && b.den > 0
    ensures ScoreLe(a, b) <==> (a.num as real) / (a.den as real) <= (b.num as real) / (b.den as real)
  {
    var x, y := (a.num as real) / (a.den as real), (b.num as real) / (b.den as real);
    var ad, bd := a.den as real, b.den as real;
    assert x * ad == a.num as real;
    assert y * bd == b.num as real;
    assert (a.num * b.den) as real == x * (ad * bd);
    assert (b.num * a.den) as real == y * (ad * bd);
    assert ad * bd > 0.0;
  }

  /** The order is total ... */
  lemma ScoreLeTotal(a: Ratio, b: Ratio)
    ensures ScoreLe(a, b) || ScoreLe(b, a)
  {
  }

  /** ... and transitive through any middle score with a positive denominator. */
  lemma ScoreLeTransitive(a: Ratio, b: Ratio, c: Ratio)
    requires b.den > 0
    requires ScoreLe(a, b) && ScoreLe(b, c)
    ensures ScoreLe(a, c)
  {
    calc {
      (a.num * c.den) * b.den;
    ==
      (a.num * b.den) * c.den;
    <=  { MulLeRight(a.num * b.den, b.num * a.den, c.den); }
      (b.num * a.den) * c.den;
    ==
      (b.num * c.den) * a.den;
    <=  { MulLeRight(b.num * c.den, c.num * b.den, a.den); }
      (c.num * b.den) * a.den;
    ==
      (c.num * a.den) * b.den;
    }
    MulLeCancel(a.num * c.den, c.num * a.den, b.den);
  }

  lemma MulLeRight(x: nat, y: nat, k: nat)
    requires x <= y
    ensures x * k <= y * k
  {
  }

  lemma MulLeCancel(x: nat, y: nat, k: nat)
    requires k > 0 && x * k <= y * k
    ensures x <= y
  {
    if x > y {
      MulLeRight(y + 1, x, k);
    }
  }
}
