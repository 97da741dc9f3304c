/** The star normaliser: an index value becomes a star value on a 0-5 scale
    against a theoretical maximum, and the star value becomes a row of
    gold, partially gold and grey star glyphs. */
module Stars {
  import opened Outcomes

  datatype Glyph = Gold | Partial | Grey

  /** A star value and the glyphs that render it. */
  datatype Rating = Rating(value: real, glyphs: seq<Glyph>)

  /** math.ceil: the least integer not below x. */
  function Ceil(x: real): (c: int)
    ensures x <= c as real < x + 1.0
  {
    -((-x).Floor)
  }

  /** Python's int() on a float: the integer part, rounded toward zero. */
  function Trunc(x: real): (t: int)
    ensures 0.0 <= x ==> 0 <= t && t as real <= x < t as real + 1.0
    ensures x < 0.0 ==> t <= 0 && t as real - 1.0 < x <= t as real
  {
    if 0.0 <= x then x.Floor else Ceil(x)
  }

  /** A string of n copies of one glyph; a negative n gives the empty
      string, as Python's repetition does. */
  function Repeat(g: Glyph, n: int): (r: seq<Glyph>)
    ensures |r| == if n <= 0 then 0 else n
    ensures forall i :: 0 <= i < |r| ==> r[i] == g
  {
    if n <= 0 then [] else Repeat(g, n - 1) + [g]
  }

  /** The star value of an index against a maximum: the index over a fifth
      of the maximum, rounded up to a whole star in Margalef mode. */
  function StarValue(index: real, maxValue: real, margalef: bool): real
    requires maxValue != 0.0
  {
    var step := maxValue / 5.0;
    if margalef then Ceil(index / step) as real else index / step
  }

  /** Gold stars, then an optional partial star, then grey stars. */
  function Layout(full: int, partial: bool, grey: int): seq<Glyph>
  {
    Repeat(Gold, full) + (if partial then [Partial] else []) + Repeat(Grey, grey)
  }

  /** The glyph row of a per-index rating: the partial star is drawn when
      the fractional part is positive, one grey star fewer when it is
      non-zero. */
  function BiodiversityGlyphs(v: real): seq<Glyph>
  {
    var full := Trunc(v);
    var frac := v - full as real;
    Layout(full, frac > 0.0, if frac != 0.0 then 5 - full - 1 else 5 - full)
  }

  /** The glyph row of the final score: the two tests are the other way
      round, the partial star for a non-zero fractional part and one grey
      star fewer for a positive one. */
  function FinalGlyphs(v: real): seq<Glyph>
  {
    var full := Trunc(v);
    var frac := v - full as real;
    Layout(full, frac != 0.0, if frac > 0.0 then 5 - full - 1 else 5 - full)
  }

  /** What biodiversity_star_rating returns or raises. */
  function BiodiversityRating(index: Num, maxValue: real, margalef: bool): Result<Rating>
  {
    if maxValue == 0.0 then Err(DivisionByZero)
    else if index.NonFinite? then Err(NotFinite)
    else
      var v := StarValue(index.v, maxValue, margalef);
      Ok(Rating(v, BiodiversityGlyphs(v)))
  }

  /** What final_star_rating returns or raises. */
  function FinalRating(index: real, maxValue: real): Result<Rating>
  {
    if maxValue == 0.0 then Err(DivisionByZero)
    else
      var v := StarValue(index, maxValue, false);
      Ok(Rating(v, FinalGlyphs(v)))
  }

  /** biodiversity_star_rating: the star value of one index and its glyphs,
      gold stars appended one at a time. */
  method BiodiversityStarRating(index: Num, maxValue: real, margalef: bool) returns (r: Result<Rating>)
    ensures r == BiodiversityRating(index, maxValue, margalef)
  {
    if maxValue == 0.0 {
      return Err(DivisionByZero);
    }
    if index.NonFinite? {
      return Err(NotFinite);
    }
    var step := maxValue / 5.0;
    var starValue: real;
    if margalef {
      starValue := Ceil(index.v / step) as real;
    } else {
      starValue := index.v / step;
    }
    var fullStars := Trunc(starValue);
    var fractionalPart := starValue - fullStars as real;

    var glyphs: seq<Glyph> := [];
    var i := 0;
    while i < fullStars
      invariant 0 <= i && (i <= fullStars || i == 0)
      invariant glyphs == Repeat(Gold, i)
    {
      glyphs := glyphs + [Gold];
      i := i + 1;
    }
    assert glyphs == Repeat(Gold, fullStars);
    if fractionalPart > 0.0 {
      glyphs := glyphs + [Partial];
    }
    if fractionalPart != 0.0 {
      glyphs := glyphs + Repeat(Grey, 5 - fullStars - 1);
    } else {
      glyphs := glyphs + Repeat(Grey, 5 - fullStars);
    }
    assert glyphs == BiodiversityGlyphs(starValue);
    r := Ok(Rating(starValue, glyphs));
  }

  /** final_star_rating: the linear star value of the final score and its
      glyphs. */
  method FinalStarRating(index: real, maxValue: real) returns (r: Result<Rating>)
    ensures r == FinalRating(index, maxValue)
  {
    if maxValue == 0.0 {
      return Err(DivisionByZero);
    }
    var step := maxValue / 5.0;
    var starValue := index / step;
    var fullStars := Trunc(starValue);
    var fractionalPart := starValue - fullStars as real;

    var glyphs: seq<Glyph> := [];
    var i := 0;
    while i < fullStars
      invariant 0 <= i && (i <= fullStars || i == 0)
      invariant glyphs == Repeat(Gold, i)
    {
      glyphs := glyphs + [Gold];
      i := i + 1;
    }
    assert glyphs == Repeat(Gold, fullStars);
    if fractionalPart != 0.0 {
      glyphs := glyphs + [Partial];
    }
    if fractionalPart > 0.0 {
      glyphs := glyphs + Repeat(Grey, 5 - fullStars - 1);
    } else {
      glyphs := glyphs + Repeat(Grey, 5 - fullStars);
    }
    assert glyphs == FinalGlyphs(starValue);
    r := Ok(Rating(starValue, glyphs));
  }

  // ---------------------------------------------------------------------
  // The star value

  /** Linear mode gives five times the index over the maximum, unrounded. */
  lemma LinearStarValue(index: real, maxValue: real)
    requires maxValue != 0.0
    ensures StarValue(index, maxValue, false) == 5.0 * index / maxValue
  {
    var step := maxValue / 5.0;
    assert step * 5.0 == maxValue;
    assert (index / step) * maxValue == 5.0 * index;
  }

  /** Margalef mode gives a whole number of stars, the least one not below
      the index over the step. */
  lemma SteppedStarValue(index: real, maxValue: real)
    requires maxValue != 0.0
    ensures var v, q := StarValue(index, maxValue, true), index / (maxValue / 5.0);
      v == v.Floor as real && q <= v < q + 1.0
  {
  }

  /** With the maximum 5 the step is one star, so the star value is the
      ceiling of the index: 2.3 gives 3 stars and 3.0 gives 3. */
  lemma MargalefStarValue(index: real)
    ensures StarValue(index, 5.0, true) == Ceil(index) as real
    ensures StarValue(2.3, 5.0, true) == 3.0
    ensures StarValue(3.0, 5.0, true) == 3.0
  {
    assert Ceil(2.3) == 3;
    assert Ceil(3.0) == 3;
  }

  /** A non-negative star value splits into its floor and a fractional part
      in [0, 1) that add up to it. */
  lemma DecomposeNonNegative(v: real)
    requires 0.0 <= v
    ensures Trunc(v) == v.Floor
    ensures 0.0 <= v - Trunc(v) as real < 1.0
    ensures Trunc(v) as real + (v - Trunc(v) as real) == v
  {
  }

  // ---------------------------------------------------------------------
  // The glyphs

  lemma LayoutAt(full: int, partial: bool, grey: int, i: int)
    requires 0 <= i < |Layout(full, partial, grey)|
    ensures var n := if full <= 0 then 0 else full;
      var g := Layout(full, partial, grey);
      |g| == n + (if partial then 1 else 0) + (if grey <= 0 then 0 else grey) &&
      (i < n ==> g[i] == Gold) &&
      (partial && i == n ==> g[i] == Partial) &&
      (n + (if partial then 1 else 0) <= i ==> g[i] == Grey)
  {
    var golds := Repeat(Gold, full);
    var mid := if partial then [Partial] else [];
    var greys := Repeat(Grey, grey);
    assert Layout(full, partial, grey) == golds + mid + greys;
  }

  /** A star value in [0, 5] is drawn with exactly five glyphs: the full
      stars in gold, one partial star exactly when the fractional part is
      positive, and grey for the rest. */
  lemma {:induction false} FiveGlyphsInRange(v: real)
    requires 0.0 <= v <= 5.0
    ensures var g, full := BiodiversityGlyphs(v), Trunc(v);
      var partial := v - full as real > 0.0;
      var filled := if partial then full + 1 else full;
      |g| == 5 &&
      (forall i :: 0 <= i < full ==> g[i] == Gold) &&
      (partial <==> Partial in g) &&
      (partial ==> g[full] == Partial) &&
      (forall i :: filled <= i < 5 ==> g[i] == Grey)
  {
    var g, full := BiodiversityGlyphs(v), Trunc(v);
    var frac := v - full as real;
    var partial := frac > 0.0;
    var grey := if frac != 0.0 then 5 - full - 1 else 5 - full;
    assert g == Layout(full, partial, grey);
    assert partial ==> full <= 4;
    assert 0 <= grey;
    forall i | 0 <= i < |g|
      ensures i < full ==> g[i] == Gold
      ensures partial && i == full ==> g[i] == Partial
      ensures (if partial then full + 1 else full) <= i ==> g[i] == Grey
    {
      LayoutAt(full, partial, grey, i);
    }
    if |g| > 0 {
      LayoutAt(full, partial, grey, 0);
    }
    if partial {
      LayoutAt(full, partial, grey, full);
    } else {
      forall i | 0 <= i < |g| ensures g[i] != Partial {
        LayoutAt(full, partial, grey, i);
      }
    }
  }

  /** On a non-negative star value the two renderings agree: the swapped
      tests only differ for a negative fractional part. */
  lemma GlyphsAgreeOnNonNegative(v: real)
    requires 0.0 <= v
    ensures BiodiversityGlyphs(v) == FinalGlyphs(v)
  {
    var full := Trunc(v);
    var frac := v - full as real;
    assert frac > 0.0 <==> frac != 0.0;
  }

  /** Above five stars no grey glyph is drawn: the grey string is repeated a
      negative number of times. Only the full stars and the partial one
      remain. */
  lemma NoGreyAboveFive(v: real)
    requires 5.0 < v
    ensures var full, partial := Trunc(v), v - Trunc(v) as real > 0.0;
      Grey !in BiodiversityGlyphs(v) && Grey !in FinalGlyphs(v) &&
      |BiodiversityGlyphs(v)| == full + (if partial then 1 else 0)
  {
    var full := Trunc(v);
    var frac := v - full as real;
    assert 5 <= full;
    assert frac == 0.0 ==> 5 < full;
    GlyphsAgreeOnNonNegative(v);
    var g := BiodiversityGlyphs(v);
    forall i | 0 <= i < |g| ensures g[i] != Grey {
      LayoutAt(full, frac > 0.0, if frac != 0.0 then 5 - full - 1 else 5 - full, i);
    }
  }

  /** A negative star value is where the swapped tests show: -0.5 draws four
      grey glyphs per index but a partial and five grey for the final score. */
  lemma NegativeValueRenderingsDiffer()
    ensures BiodiversityGlyphs(-0.5) == [Grey, Grey, Grey, Grey]
    ensures FinalGlyphs(-0.5) == [Partial, Grey, Grey, Grey, Grey, Grey]
  {
    assert Trunc(-0.5) == 0;
    assert Repeat(Grey, 4) == [Grey, Grey, Grey, Grey];
    assert Repeat(Grey, 5) == [Grey, Grey, Grey, Grey, Grey];
  }

  /** Margalef mode draws whole stars only. */
  lemma SteppedRatingHasNoPartial(index: Num, maxValue: real)
    requires BiodiversityRating(index, maxValue, true).Ok?
    ensures Partial !in BiodiversityRating(index, maxValue, true).value.glyphs
  {
    var v := StarValue(index.v, maxValue, true);
    SteppedStarValue(index.v, maxValue);
    var full := Trunc(v);
    assert v == full as real;
    var g := BiodiversityGlyphs(v);
    forall i | 0 <= i < |g| ensures g[i] != Partial {
      LayoutAt(full, false, 5 - full, i);
    }
  }
}
