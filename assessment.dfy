/** The scoring run over the current species table: the four indexes, each
    rated against its theoretical maximum, and the final score from the
    Margalef and Pielou ratings. */
module Assessment {
  import opened Outcomes
  import opened DiversityIndexes
  import opened Stars
  import opened Score

  datatype Report = Report(
    indexes: IndexSet,
    simpsonStars: Rating,
    shannonStars: Rating,
    pielouStars: Rating,
    margalefStars: Rating,
    finalStarCount: real,
    finalGlyphs: seq<Glyph>)

  /** Simpson's theoretical maximum for S species, 1 - 1/S. */
  function SimpsonMax(speciesCount: nat): real
    requires 0 < speciesCount
  {
    1.0 - 1.0 / speciesCount as real
  }

  /** The counts of a non-empty table rated in order: Simpson against
      1 - 1/S, Shannon against ln S, Pielou against 1, Margalef against 5 in
      whole stars; the first exception stops the run. An empty table is not
      scored. */
  function Assess(counts: seq<real>, ln: Log): (r: Result<Report>)
    ensures counts == [] ==> r == Err(NoData)
    ensures r.Ok? ==> 2 <= |counts| && Sum(counts) != 0.0
  {
    if counts == [] then Err(NoData)
    else
      var ix :- CalculateIndexes(counts, ln);
      var simpson :- BiodiversityRating(Finite(ix.simpson), SimpsonMax(|counts|), false);
      var shannon :- BiodiversityRating(ix.shannon, ln(|counts| as real), false);
      var pielou :- BiodiversityRating(ix.pielou, 1.0, false);
      var margalef :- BiodiversityRating(ix.margalef, 5.0, true);
      var score := FinalScore(margalef.value, pielou.value);
      Ok(Report(ix, simpson, shannon, pielou, margalef, score, FinalGlyphs(score)))
  }

  /** A table of one species cannot be scored: a zero count leaves nothing
      to divide by, and otherwise its Simpson maximum 1 - 1/1 is zero and the
      Simpson rating divides by it. */
  lemma SingleSpeciesCannotBeScored(c: real, ln: Log)
    ensures Assess([c], ln) == Err(DivisionByZero)
  {
    assert Sum([c]) == c;
    assert SimpsonMax(1) == 0.0;
  }

  /** A table of two or more species with a species counted zero cannot be
      scored: either the total is zero, or Shannon's index is not finite and
      its rating divides by a zero ln S or truncates nan. */
  lemma ZeroCountCannotBeScored(counts: seq<real>, i: nat, ln: Log)
    requires 2 <= |counts|
    requires i < |counts| && counts[i] == 0.0
    ensures Assess(counts, ln).Err?
  {
    if Sum(counts) != 0.0 {
      ZeroCountShannonNotFinite(counts, i, ln);
      SimpsonMaxPositive(|counts|);
    }
  }

  /** Simpson's maximum is positive from two species on, so the Simpson
      rating of such a table never divides by zero. */
  lemma SimpsonMaxPositive(speciesCount: nat)
    requires 2 <= speciesCount
    ensures 0.0 < SimpsonMax(speciesCount)
  {
    var S := speciesCount as real;
    assert 0.0 < 1.0 / S <= 0.5;
  }

  /** Which tables of two or more species with a positive total get scored:
      exactly those where every species has a positive count (so Shannon's
      index is finite), ln S is not zero (Shannon's maximum) and ln N is not
      zero (so Margalef's index is finite). A scored table's final star count
      is the combined score of its Margalef and Pielou star values. */
  lemma ScoredExactly(counts: seq<real>, ln: Log)
    requires 2 <= |counts|
    requires 0.0 < Sum(counts)
    ensures Assess(counts, ln).Ok? <==>
      (forall i :: 0 <= i < |counts| ==> 0.0 < counts[i]) &&
      ln(|counts| as real) != 0.0 && ln(Sum(counts)) != 0.0
    ensures Assess(counts, ln).Ok? ==>
      var a := Assess(counts, ln).value;
      a.finalStarCount == FinalScore(a.margalefStars.value, a.pielouStars.value) &&
      a.finalGlyphs == FinalGlyphs(a.finalStarCount)
  {
    SimpsonMaxPositive(|counts|);
    PositiveShares(counts, Sum(counts));
  }

  /** How a scored table is rated: its indexes are those of the index
      calculator, all finite; Simpson, Shannon and Pielou are rated linearly
      against 1 - 1/S, ln S and 1, and Margalef in whole stars against 5. */
  lemma ScoredRatings(counts: seq<real>, ln: Log)
    requires Assess(counts, ln).Ok?
    ensures CalculateIndexes(counts, ln).Ok?
    ensures var a := Assess(counts, ln).value;
      a.indexes == CalculateIndexes(counts, ln).value &&
      a.indexes.shannon.Finite? && a.indexes.pielou.Finite? && a.indexes.margalef.Finite? &&
      a.simpsonStars.value == 5.0 * a.indexes.simpson / SimpsonMax(|counts|) &&
      a.shannonStars.value == 5.0 * a.indexes.shannon.v / ln(|counts| as real) &&
      a.pielouStars.value == 5.0 * a.indexes.pielou.v &&
      a.margalefStars.value == Ceil(a.indexes.margalef.v) as real
  {
    var a := Assess(counts, ln).value;
    var ix := CalculateIndexes(counts, ln).value;
    LinearStarValue(ix.simpson, SimpsonMax(|counts|));
    LinearStarValue(ix.shannon.v, ln(|counts| as real));
    LinearStarValue(ix.pielou.v, 1.0);
    MargalefStarValue(ix.margalef.v);
  }

  /** A linear rating of a value between 0 and its positive maximum lies
      in [0, 5]. */
  lemma LinearInRange(x: real, m: real)
    requires 0.0 < m
    requires 0.0 <= x <= m
    ensures 0.0 <= 5.0 * x / m <= 5.0
  {
    assert (5.0 * x / m) * m == 5.0 * x;
  }

  /** A scored table of non-negative counts has a Simpson rating in [0, 5]
      stars, drawn with five glyphs, because Simpson's index never exceeds
      the maximum 1 - 1/S it is rated against. */
  lemma SimpsonStarsInRange(counts: seq<real>, ln: Log)
    requires NonNegative(counts)
    requires Assess(counts, ln).Ok?
    ensures 0.0 <= Assess(counts, ln).value.simpsonStars.value <= 5.0
    ensures |Assess(counts, ln).value.simpsonStars.glyphs| == 5
  {
    var a := Assess(counts, ln).value;
    ScoredRatings(counts, ln);
    SimpsonAtMostMaximum(counts, ln);
    SimpsonMaxPositive(|counts|);
    LinearInRange(a.indexes.simpson, SimpsonMax(|counts|));
    assert a.simpsonStars.glyphs == BiodiversityGlyphs(a.simpsonStars.value);
    FiveGlyphsInRange(a.simpsonStars.value);
  }

  /** Two species of one individual each: S and N are both 2, so the table
      is scored whenever ln 2 is not zero. */
  lemma TwoSingletonsScored(ln: Log)
    requires ln(2.0) != 0.0
    ensures Assess([1.0, 1.0], ln).Ok?
  {
    assert Sum([1.0, 1.0]) == 2.0;
    ScoredExactly([1.0, 1.0], ln);
  }

  /** Equal positive counts over two or more species earn five Simpson stars,
      drawn as five gold glyphs. */
  lemma EvenTableFiveSimpsonStars(counts: seq<real>, c: real, ln: Log)
    requires 2 <= |counts|
    requires 0.0 < c
    requires forall i :: 0 <= i < |counts| ==> counts[i] == c
    ensures CalculateIndexes(counts, ln).Ok?
    ensures BiodiversityRating(Finite(CalculateIndexes(counts, ln).value.simpson), SimpsonMax(|counts|), false)
         == Ok(Rating(5.0, [Gold, Gold, Gold, Gold, Gold]))
    ensures Assess(counts, ln).Ok? ==>
      Assess(counts, ln).value.simpsonStars == Rating(5.0, [Gold, Gold, Gold, Gold, Gold])
  {
    EvenCountsSimpsonMaximal(counts, c, ln);
    var m := SimpsonMax(|counts|);
    assert 0.0 < m;
    LinearStarValue(m, m);
    assert 5.0 * m / m == 5.0;
    assert StarValue(m, m, false) == 5.0;
    assert Trunc(5.0) == 5;
    assert Repeat(Gold, 5) == [Gold, Gold, Gold, Gold, Gold];
    assert BiodiversityGlyphs(5.0) == Layout(5, false, 0);
    assert Layout(5, false, 0) == [Gold, Gold, Gold, Gold, Gold];
    assert CalculateIndexes(counts, ln).value.simpson == m;
  }

  /** A scored table whose Margalef and Pielou ratings lie in [0, 5] has a
      final score in [0, 5], drawn with five glyphs. */
  lemma ScoredTableFinalInRange(counts: seq<real>, ln: Log)
    requires Assess(counts, ln).Ok?
    requires 0.0 <= Assess(counts, ln).value.margalefStars.value <= 5.0
    requires 0.0 <= Assess(counts, ln).value.pielouStars.value <= 5.0
    ensures 0.0 <= Assess(counts, ln).value.finalStarCount <= 5.0
    ensures |Assess(counts, ln).value.finalGlyphs| == 5
  {
    var a := Assess(counts, ln).value;
    FinalScoreInRange(a.margalefStars.value, a.pielouStars.value);
    FinalScoreFiveGlyphs(a.margalefStars.value, a.pielouStars.value);
  }
}
