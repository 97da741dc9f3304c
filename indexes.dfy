/** The index calculator: Simpson, Shannon-Wiener, Pielou and Margalef indexes
    of a list of species counts (the values of the species table, in the
    order the table yields them). */
module DiversityIndexes {
  import opened Outcomes

  /** The natural logarithm, supplied by the caller and otherwise unknown. */
  type Log = real -> real

  datatype IndexSet = IndexSet(simpson: real, shannon: Num, pielou: Num, margalef: Num)

  function Sum(s: seq<real>): real
  {
    if s == [] then 0.0 else s[0] + Sum(s[1..])
  }

  /** The product of two reals, with the sign facts the proofs below use.
      They are stated for two factors: Z3 does not derive them reliably for
      a square written as p * p. */
  function Mul(a: real, b: real): (r: real)
    ensures 0.0 < a && 0.0 < b ==> 0.0 < r
    ensures 0.0 <= a && 0.0 <= b ==> 0.0 <= r
    ensures 0.0 <= a && b <= 1.0 ==> r <= a
  {
    a * b
  }

  function SumOfSquares(s: seq<real>): real
  {
    if s == [] then 0.0 else Mul(s[0], s[0]) + SumOfSquares(s[1..])
  }

  /** Sum of p * ln(p) over the proportions. */
  function EntropySum(ps: seq<real>, ln: Log): real
  {
    if ps == [] then 0.0 else ps[0] * ln(ps[0]) + EntropySum(ps[1..], ln)
  }

  predicate NonNegative(counts: seq<real>)
  {
    forall i :: 0 <= i < |counts| ==> 0.0 <= counts[i]
  }

  predicate AllPositive(ps: seq<real>)
  {
    forall i :: 0 <= i < |ps| ==> 0.0 < ps[i]
  }

  /** Each count divided by the total; a division only happens for an
      element, so the empty list needs no non-zero total. */
  function Proportions(counts: seq<real>, total: real): (ps: seq<real>)
    requires counts != [] ==> total != 0.0
    ensures |ps| == |counts|
    ensures forall i :: 0 <= i < |ps| ==> ps[i] == counts[i] / total
  {
    if counts == [] then [] else [counts[0] / total] + Proportions(counts[1..], total)
  }

  /** Shannon-Wiener index. A proportion that is not positive makes its term
      p * log(p) nan (0 * -inf, or the log of a negative), and nan spreads
      through the sum. */
  function Shannon(ps: seq<real>, ln: Log): Num
  {
    if AllPositive(ps) then Finite(-EntropySum(ps, ln)) else NonFinite
  }

  /** Pielou's evenness: H / ln S for more than one species, else 0. */
  function Pielou(h: Num, speciesCount: nat, ln: Log): Num
  {
    if speciesCount > 1 then
      var lnS := ln(speciesCount as real);
      if h.NonFinite? || lnS == 0.0 then NonFinite else Finite(h.v / lnS)
    else
      Finite(0.0)
  }

  /** Margalef's index: (S - 1) / ln N for a positive total, else 0. A zero
      logarithm gives numpy's infinity or nan. */
  function Margalef(speciesCount: nat, total: real, ln: Log): Num
  {
    if total > 0.0 then
      var lnN := ln(total);
      if lnN == 0.0 then NonFinite else Finite((speciesCount as real - 1.0) / lnN)
    else
      Finite(0.0)
  }

  /** The four indexes of a list of counts. The proportions are computed
      before any guard, so a non-empty list with a zero total stops with a
      division by zero; an empty list divides nothing. */
  function CalculateIndexes(counts: seq<real>, ln: Log): (r: Result<IndexSet>)
    ensures r.Err? <==> counts != [] && Sum(counts) == 0.0
    ensures r.Err? ==> r.fault == DivisionByZero
  {
    var total := Sum(counts);
    if counts != [] && total == 0.0 then
      Err(DivisionByZero)
    else
      var ps := Proportions(counts, total);
      var h := Shannon(ps, ln);
      Ok(IndexSet(1.0 - SumOfSquares(ps), h, Pielou(h, |counts|, ln), Margalef(|counts|, total, ln)))
  }

  // ---------------------------------------------------------------------
  // Sums

  lemma {:induction false} SumScaled(counts: seq<real>, total: real)
    requires total != 0.0
    ensures Sum(Proportions(counts, total)) == Sum(counts) / total
  {
    if counts != [] {
      SumScaled(counts[1..], total);
      assert Proportions(counts, total) == [counts[0] / total] + Proportions(counts[1..], total);
    }
  }

  lemma {:induction false} ElementAtMostSum(counts: seq<real>, i: nat)
    requires NonNegative(counts)
    requires i < |counts|
    ensures 0.0 <= counts[i] <= Sum(counts)
    ensures 0.0 <= Sum(counts)
  {
    if i == 0 {
      SumNonNegative(counts[1..]);
    } else {
      ElementAtMostSum(counts[1..], i - 1);
    }
  }

  lemma {:induction false} SumNonNegative(counts: seq<real>)
    requires NonNegative(counts)
    ensures 0.0 <= Sum(counts)
  {
    if counts != [] {
      SumNonNegative(counts[1..]);
    }
  }

  /** For proportions in [0, 1] each square is at most its value. */
  lemma {:induction false} SquaresAtMostSum(ps: seq<real>)
    requires forall i :: 0 <= i < |ps| ==> 0.0 <= ps[i] <= 1.0
    ensures 0.0 <= SumOfSquares(ps) <= Sum(ps)
  {
    if ps != [] {
      SquaresAtMostSum(ps[1..]);
    }
  }

  /** A positive sum needs a positive element, whose square is positive. */
  lemma {:induction false} SquaresPositive(ps: seq<real>)
    requires forall i :: 0 <= i < |ps| ==> 0.0 <= ps[i] <= 1.0
    requires 0.0 < Sum(ps)
    ensures 0.0 < SumOfSquares(ps)
  {
    SquaresAtMostSum(ps[1..]);
    if ps[0] == 0.0 {
      SquaresPositive(ps[1..]);
    }
  }

  lemma QuotientInUnit(c: real, total: real)
    requires 0.0 <= c <= total
    requires 0.0 < total
    ensures 0.0 <= c / total <= 1.0
  {
    var q := c / total;
    assert q * total == c;
  }

  lemma SelfQuotient(x: real)
    requires x != 0.0
    ensures x / x == 1.0
  {
    assert (x / x) * x == 1.0 * x;
  }

  lemma {:induction false} SumsOfConstant(s: seq<real>, x: real)
    requires forall i :: 0 <= i < |s| ==> s[i] == x
    ensures SumOfSquares(s) == |s| as real * Mul(x, x)
    ensures Sum(s) == |s| as real * x
  {
    if s != [] {
      SumsOfConstant(s[1..], x);
    }
  }

  lemma {:induction false} EntropySumConstant(s: seq<real>, x: real, ln: Log)
    requires forall i :: 0 <= i < |s| ==> s[i] == x
    ensures EntropySum(s, ln) == |s| as real * (x * ln(x))
  {
    if s != [] {
      EntropySumConstant(s[1..], x, ln);
    }
  }

  // ---------------------------------------------------------------------
  // Properties of the calculator

  /** Over a positive total, a share is positive exactly when its count is. */
  lemma PositiveShares(counts: seq<real>, total: real)
    requires 0.0 < total
    ensures AllPositive(Proportions(counts, total)) <==>
      forall i :: 0 <= i < |counts| ==> 0.0 < counts[i]
  {
    var ps := Proportions(counts, total);
    forall i | 0 <= i < |counts|
      ensures 0.0 < ps[i] <==> 0.0 < counts[i]
    {
      assert ps[i] * total == counts[i];
    }
  }

  /** With non-negative counts and a positive total, every proportion lies
      in [0, 1] and the proportions sum to 1. */
  lemma ProportionsSumToOne(counts: seq<real>)
    requires NonNegative(counts)
    requires 0.0 < Sum(counts)
    ensures var ps := Proportions(counts, Sum(counts));
      (forall i :: 0 <= i < |ps| ==> 0.0 <= ps[i] <= 1.0) && Sum(ps) == 1.0
  {
    var total := Sum(counts);
    var ps := Proportions(counts, total);
    forall i | 0 <= i < |ps| ensures 0.0 <= ps[i] <= 1.0 {
      ElementAtMostSum(counts, i);
      QuotientInUnit(counts[i], total);
    }
    SumScaled(counts, total);
    SelfQuotient(total);
  }

  /** Simpson's index of non-negative counts with a positive total lies in
      [0, 1). */
  lemma SimpsonBounds(counts: seq<real>, ln: Log)
    requires NonNegative(counts)
    requires 0.0 < Sum(counts)
    ensures CalculateIndexes(counts, ln).Ok?
    ensures 0.0 <= CalculateIndexes(counts, ln).value.simpson < 1.0
  {
    var ps := Proportions(counts, Sum(counts));
    ProportionsSumToOne(counts);
    SquaresAtMostSum(ps);
    SquaresPositive(ps);
    assert CalculateIndexes(counts, ln).value.simpson == 1.0 - SumOfSquares(ps);
  }

  /** Equal positive counts are maximally even: Simpson's index reaches its
      theoretical maximum 1 - 1/S, and Shannon's index is -ln(1/S), the
      entropy of S equal shares. */
  lemma EvenCountsSimpsonMaximal(counts: seq<real>, c: real, ln: Log)
    requires counts != []
    requires 0.0 < c
    requires forall i :: 0 <= i < |counts| ==> counts[i] == c
    ensures CalculateIndexes(counts, ln).Ok?
    ensures CalculateIndexes(counts, ln).value.simpson == 1.0 - 1.0 / |counts| as real
    ensures CalculateIndexes(counts, ln).value.shannon == Finite(-ln(1.0 / |counts| as real))
  {
    var n := |counts| as real;
    EvenShares(counts, c);
    var ps := Proportions(counts, Sum(counts));
    SumsOfConstant(ps, 1.0 / n);
    InverseSquareScaled(n);
    assert SumOfSquares(ps) == 1.0 / n;
    SimpsonOf(counts, ln);
    EvenCountsShannon(counts, c, ln);
  }

  /** Equal positive counts share the total equally: each proportion is 1/S. */
  lemma EvenShares(counts: seq<real>, c: real)
    requires counts != []
    requires 0.0 < c
    requires forall i :: 0 <= i < |counts| ==> counts[i] == c
    ensures Sum(counts) == |counts| as real * c
    ensures forall i :: 0 <= i < |counts| ==>
      Proportions(counts, Sum(counts))[i] == 1.0 / |counts| as real
  {
    SumsOfConstant(counts, c);
    EqualShare(|counts| as real, c, Sum(counts));
  }

  /** Equal positive counts give S positive shares of 1/S, so Shannon's index
      is finite and equals -ln(1/S). */
  lemma EvenCountsShannon(counts: seq<real>, c: real, ln: Log)
    requires counts != []
    requires 0.0 < c
    requires forall i :: 0 <= i < |counts| ==> counts[i] == c
    ensures CalculateIndexes(counts, ln).Ok?
    ensures CalculateIndexes(counts, ln).value.shannon == Finite(-ln(1.0 / |counts| as real))
  {
    var n := |counts| as real;
    EvenShares(counts, c);
    var ps := Proportions(counts, Sum(counts));
    EntropySumConstant(ps, 1.0 / n, ln);
    InverseScaled(n, ln(1.0 / n));
    assert AllPositive(ps);
  }

  lemma SimpsonOf(counts: seq<real>, ln: Log)
    requires counts == [] || Sum(counts) != 0.0
    ensures CalculateIndexes(counts, ln).Ok?
    ensures CalculateIndexes(counts, ln).value.simpson
         == 1.0 - SumOfSquares(Proportions(counts, Sum(counts)))
  {
  }

  lemma EqualShare(n: real, c: real, total: real)
    requires 0.0 < n && 0.0 < c
    requires total == n * c
    ensures c / total == 1.0 / n
  {
    assert (c / total) * n == 1.0;
  }

  lemma InverseScaled(n: real, y: real)
    requires 0.0 < n
    ensures n * (1.0 / n * y) == y
  {
    assert n * (1.0 / n) == 1.0;
    assert n * (1.0 / n * y) == (n * (1.0 / n)) * y;
  }

  lemma InverseSquareScaled(n: real)
    requires 0.0 < n
    ensures n * Mul(1.0 / n, 1.0 / n) == 1.0 / n
  {
    var y := 1.0 / n;
    assert n * y == 1.0;
    assert n * (y * y) == (n * y) * y;
  }

  /** A square lies above its tangent at c: x² >= 2cx - c², because
      (x - c)² >= 0. */
  lemma SquareAboveTangent(x: real, c: real)
    ensures Mul(x, x) >= 2.0 * c * x - Mul(c, c)
  {
    var d := x - c;
    if d < 0.0 {
      assert (-d) * (-d) == d * d;
      assert 0.0 <= Mul(-d, -d);
    } else {
      assert 0.0 <= Mul(d, d);
    }
    assert d * d == x * x - 2.0 * c * x + c * c;
  }

  /** The tangent bound summed over a sequence. */
  lemma {:induction false} SquaresAboveTangent(s: seq<real>, c: real)
    ensures SumOfSquares(s) >= 2.0 * c * Sum(s) - |s| as real * Mul(c, c)
  {
    if s != [] {
      SquareAboveTangent(s[0], c);
      SquaresAboveTangent(s[1..], c);
      var k := |s[1..]| as real;
      assert |s| as real * Mul(c, c) == k * Mul(c, c) + Mul(c, c);
      assert 2.0 * c * Sum(s) == 2.0 * c * s[0] + 2.0 * c * Sum(s[1..]);
    }
  }

  /** S shares summing to 1 have a sum of squares of at least 1/S. */
  lemma SquaresAtLeastInverse(ps: seq<real>)
    requires ps != []
    requires Sum(ps) == 1.0
    ensures SumOfSquares(ps) >= 1.0 / |ps| as real
  {
    var n := |ps| as real;
    SquaresAboveTangent(ps, 1.0 / n);
    InverseSquareScaled(n);
    assert 2.0 * (1.0 / n) * 1.0 == 2.0 / n;
  }

  /** Simpson's index never exceeds its theoretical maximum 1 - 1/S: for
      non-negative counts with a positive total it lies in [0, 1 - 1/S]. */
  lemma SimpsonAtMostMaximum(counts: seq<real>, ln: Log)
    requires NonNegative(counts)
    requires 0.0 < Sum(counts)
    ensures CalculateIndexes(counts, ln).Ok?
    ensures 0.0 <= CalculateIndexes(counts, ln).value.simpson <= 1.0 - 1.0 / |counts| as real
  {
    var ps := Proportions(counts, Sum(counts));
    ProportionsSumToOne(counts);
    SimpsonBounds(counts, ln);
    SquaresAtLeastInverse(ps);
    SimpsonOf(counts, ln);
  }

  /** Pielou's guard: exactly 0 for at most one species; otherwise H / ln S
      whenever both are finite and ln S is not zero. */
  lemma PielouGuard(counts: seq<real>, ln: Log)
    requires CalculateIndexes(counts, ln).Ok?
    ensures var ix := CalculateIndexes(counts, ln).value;
      (|counts| <= 1 ==> ix.pielou == Finite(0.0)) &&
      (|counts| > 1 && ix.shannon.Finite? && ln(|counts| as real) != 0.0 ==>
         ix.pielou == Finite(ix.shannon.v / ln(|counts| as real))) &&
      (|counts| > 1 && ix.shannon.NonFinite? ==> ix.pielou.NonFinite?)
  {
  }

  /** Margalef's guard: exactly 0 when the total is not positive; otherwise
      (S - 1) / ln N, which has no finite value when ln N is zero (N = 1). */
  lemma MargalefGuard(counts: seq<real>, ln: Log)
    requires CalculateIndexes(counts, ln).Ok?
    ensures var ix, total := CalculateIndexes(counts, ln).value, Sum(counts);
      (total <= 0.0 ==> ix.margalef == Finite(0.0)) &&
      (total > 0.0 && ln(total) != 0.0 ==>
         ix.margalef == Finite((|counts| as real - 1.0) / ln(total))) &&
      (total > 0.0 && ln(total) == 0.0 ==> ix.margalef.NonFinite?)
  {
  }

  /** A species with count zero makes its term 0 * log 0 undefined: Shannon's
      index, and Pielou's with it, has no finite value. */
  lemma {:induction false} ZeroCountShannonNotFinite(counts: seq<real>, i: nat, ln: Log)
    requires i < |counts|
    requires counts[i] == 0.0
    requires CalculateIndexes(counts, ln).Ok?
    ensures CalculateIndexes(counts, ln).value.shannon.NonFinite?
    ensures |counts| > 1 ==> CalculateIndexes(counts, ln).value.pielou.NonFinite?
  {
    var ps := Proportions(counts, Sum(counts));
    assert ps[i] == 0.0;
    assert !AllPositive(ps);
  }

  /** The empty table divides nothing: the indexes are 1, 0, 0 and 0. */
  lemma EmptyTableIndexes(ln: Log)
    ensures CalculateIndexes([], ln) == Ok(IndexSet(1.0, Finite(0.0), Finite(0.0), Finite(0.0)))
  {
    assert AllPositive([]);
  }

  /** Four species of ten individuals each: Simpson's index is 0.75,
      Shannon's is -ln 0.25 and Margalef's is 3 / ln 40. */
  lemma FourEqualSpecies(ln: Log)
    requires ln(40.0) != 0.0
    ensures CalculateIndexes([10.0, 10.0, 10.0, 10.0], ln).Ok?
    ensures CalculateIndexes([10.0, 10.0, 10.0, 10.0], ln).value.simpson == 0.75
    ensures CalculateIndexes([10.0, 10.0, 10.0, 10.0], ln).value.shannon == Finite(-ln(0.25))
    ensures CalculateIndexes([10.0, 10.0, 10.0, 10.0], ln).value.margalef == Finite(3.0 / ln(40.0))
  {
    var counts := [10.0, 10.0, 10.0, 10.0];
    EvenCountsSimpsonMaximal(counts, 10.0, ln);
    assert Sum(counts) == 40.0;
  }
}
