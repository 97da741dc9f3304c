/** The score combiner: the Margalef and Pielou star values weighted 55 to 45,
    rounded to hundredths and drawn as the final row of stars. */
module Score {
  import opened Outcomes
  import opened Stars

  /** round(x, 2): the nearest multiple of 0.01. Exact halves go to the even
      neighbour here; the properties below hold whichever neighbour a tie
      takes. */
  function RoundHundredths(x: real): (r: real)
    ensures (r * 100.0).Floor as real == r * 100.0
    ensures -0.005 <= r - x <= 0.005
  {
    var y := x * 100.0;
    var k := y.Floor;
    var d := y - k as real;
    var n := if d < 0.5 then k else if d > 0.5 then k + 1 else if k % 2 == 0 then k else k + 1;
    assert n as real - 0.5 <= y <= n as real + 0.5;
    assert (n as real / 100.0) * 100.0 == n as real;
    n as real / 100.0
  }

  /** The weighted score before rounding. */
  function Weighted(margalefStars: real, pielouStars: real): real
  {
    0.55 * margalefStars + 0.45 * pielouStars
  }

  /** The final star count of calculate_final_star_score. */
  function FinalScore(margalefStars: real, pielouStars: real): real
  {
    RoundHundredths(Weighted(margalefStars, pielouStars))
  }

  /** calculate_final_star_score: the rounded weighted score and the glyphs
      final_star_rating draws for it against a maximum of 5. */
  method CalculateFinalStarScore(margalefStars: real, pielouStars: real)
    returns (finalStarCount: real, glyphs: seq<Glyph>)
    ensures finalStarCount == FinalScore(margalefStars, pielouStars)
    ensures FinalRating(finalStarCount, 5.0) == Ok(Rating(finalStarCount, glyphs))
  {
    var weightedScore := Weighted(margalefStars, pielouStars);
    finalStarCount := RoundHundredths(weightedScore);
    var r := FinalStarRating(finalStarCount, 5.0);
    FinalStarValueIsScore(finalStarCount);
    glyphs := r.value.glyphs;
  }

  /** Rounding leaves a value that is already a multiple of 0.01 alone. */
  lemma RoundHundredthsExact(x: real)
    requires (x * 100.0).Floor as real == x * 100.0
    ensures RoundHundredths(x) == x
  {
    var y := x * 100.0;
    var k := y.Floor;
    assert y - k as real == 0.0;
    assert (k as real / 100.0) == x;
  }

  /** Rounding keeps a value of [0, 5] in [0, 5]: both ends are multiples of
      0.01, so the nearest multiple never crosses them. */
  lemma RoundHundredthsInRange(x: real)
    requires 0.0 <= x <= 5.0
    ensures 0.0 <= RoundHundredths(x) <= 5.0
  {
    var r := RoundHundredths(x);
    var m := (r * 100.0).Floor;
    assert m as real == r * 100.0;
    assert -0.5 <= m as real - x * 100.0 <= 0.5;
    assert 0 <= m <= 500;
    assert r == m as real / 100.0;
  }

  /** Star values in [0, 5] give a final score in [0, 5], a multiple of
      0.01 within half a hundredth of 0.55 m + 0.45 p. */
  lemma FinalScoreInRange(margalefStars: real, pielouStars: real)
    requires 0.0 <= margalefStars <= 5.0
    requires 0.0 <= pielouStars <= 5.0
    ensures var s := FinalScore(margalefStars, pielouStars);
      0.0 <= s <= 5.0 &&
      -0.005 <= s - (0.55 * margalefStars + 0.45 * pielouStars) <= 0.005
  {
    RoundHundredthsInRange(Weighted(margalefStars, pielouStars));
  }

  /** Against a maximum of 5 the step is one star: the final star value is
      the score itself. */
  lemma FinalStarValueIsScore(x: real)
    ensures FinalRating(x, 5.0) == Ok(Rating(x, FinalGlyphs(x)))
  {
    assert x / (5.0 / 5.0) == x;
  }

  /** Four Margalef stars and 0.6 Pielou stars score 0.55 * 4 + 0.45 * 0.6,
      that is 2.47. */
  lemma FinalScoreExample()
    ensures FinalScore(4.0, 0.6) == 2.47
  {
    assert Weighted(4.0, 0.6) == 2.47;
    RoundHundredthsExact(2.47);
  }

  /** A final score in [0, 5] is drawn with exactly five glyphs. */
  lemma FinalScoreFiveGlyphs(margalefStars: real, pielouStars: real)
    requires 0.0 <= margalefStars <= 5.0
    requires 0.0 <= pielouStars <= 5.0
    ensures |FinalGlyphs(FinalScore(margalefStars, pielouStars))| == 5
  {
    var s := FinalScore(margalefStars, pielouStars);
    FinalScoreInRange(margalefStars, pielouStars);
    GlyphsAgreeOnNonNegative(s);
    FiveGlyphsInRange(s);
  }
}
