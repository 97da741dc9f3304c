# Biodiversity scoring engine — a Dafny model

This project models the scoring core of a small Streamlit page for assessing
the biodiversity of a water body (`app.py`). The page keeps a table of species with their
counts and taxonomic groups. From the counts it computes four diversity
indexes:

- Simpson `1 - Σp²`
- Shannon-Wiener `-Σ p ln p`
- Pielou `H / ln S`
- Margalef `(S - 1) / ln N`

It rates each index from 0 to 5 stars against a theoretical maximum, and
combines the Margalef and Pielou ratings into one final star score.

The model has six modules:

- `Outcomes` (`outcomes.dfy`) holds the shared values. `Num` is a numpy float:
  either a real or "not finite" (nan/inf). `Result` is a value, or why
  none was produced: `DivisionByZero` for Python's ZeroDivisionError and
  `NotFinite` for `int()`/`math.ceil()` of nan or inf, the exceptions that
  stop the page, and `NoData` when the table is empty and nothing is scored.
- `DiversityIndexes` (`indexes.dfy`) is the index calculator
  `calculate_biodiversity_indexes`. It works on reals, with sums over
  `seq<real>`. The natural logarithm is a parameter `ln: real -> real` about
  which nothing is assumed. So the Simpson part and the guard structure carry
  real proofs, and the Shannon, Pielou and Margalef values are stated in
  terms of `ln`.
- `Stars` (`stars.dfy`) is the star normaliser. `biodiversity_star_rating`
  and `final_star_rating` are methods. Each builds its glyph row with the
  source's loop, and each is proved equal to a specification function
  (`BiodiversityRating`, `FinalRating`). Glyphs are `Gold`, `Partial` and
  `Grey`, not HTML.
- `Score` (`score.dfy`) is the score combiner `calculate_final_star_score`:
  `0.55·m + 0.45·p`, rounded to hundredths.
- `Assessment` (`assessment.dfy`) is the scoring run at app.py:129-140. It rates
  each index against its maximum: `1 - 1/S`, `ln S`, `1` and `5` (Margalef in
  whole stars).
- `SpeciesTable` (`species_table.dfy`) is a class `Table` holding the two
  session dictionaries. They are updated by upload, add, update-count and
  remove, and filtered by group. The invariant `Valid()` says both
  dictionaries have the same key set, which the group filter relies on.

In these cases the code departs from the textbook definitions, and the model
follows the code:

- An empty table divides nothing, so `calculate_biodiversity_indexes` returns
  `(1, 0, 0, 0)` rather than failing. The page never calls it on an empty
  table.
- S counts every entry, including species counted zero.
- No fallback guards Simpson's maximum `1 - 1/S` when S = 1, so a
  single-species table stops the run with a division by zero.
- Star values are never clamped at 5.
- A species counted zero makes `0·log 0` nan. Shannon and Pielou are then not
  finite, and rating them stops the run. The add-species form starts at
  count 0, so this case is easy to hit.

## Model

| member | source | states |
|---|---|---|
| `DiversityIndexes.CalculateIndexes` | app.py:17-36 | the calculation fails, with a division by zero, exactly when the list is non-empty and its total is zero |
| `DiversityIndexes.ProportionsSumToOne` | app.py:20-24 | for non-negative counts with a positive total, every proportion lies in [0, 1] and the proportions sum to 1 |
| `DiversityIndexes.SimpsonBounds` | app.py:24-25 | for non-negative counts with a positive total, the calculation succeeds and Simpson's index lies in [0, 1) |
| `DiversityIndexes.SimpsonAtMostMaximum` | app.py:24-25 | for non-negative counts with a positive total, Simpson's index never exceeds its theoretical maximum 1 - 1/S |
| `DiversityIndexes.EvenCountsSimpsonMaximal` | app.py:24-28 | equal positive counts give Simpson's index its theoretical maximum 1 - 1/S and Shannon's index -ln(1/S) |
| `DiversityIndexes.EvenCountsShannon` | app.py:24-28 | equal positive counts give S shares of 1/S, all positive, so Shannon's index is finite and equals -ln(1/S) |
| `DiversityIndexes.ZeroCountShannonNotFinite` | app.py:28-31 | a species counted zero makes Shannon's index not finite, and Pielou's too when S > 1 |
| `DiversityIndexes.PielouGuard` | app.py:31 | Pielou is exactly 0 when S <= 1; otherwise it is H / ln S when both are finite and ln S != 0, and not finite when H is not finite |
| `DiversityIndexes.MargalefGuard` | app.py:34 | Margalef is exactly 0 when the total is not positive; otherwise it is (S - 1) / ln N, and not finite when ln N = 0 (N = 1) |
| `DiversityIndexes.EmptyTableIndexes` | app.py:17-36 | an empty list gives the indexes 1, 0, 0, 0 without any division |
| `DiversityIndexes.FourEqualSpecies` | app.py:20-34 | four species of ten give Simpson 0.75, Shannon -ln 0.25 and Margalef 3 / ln 40 |
| `Stars.Ceil` | app.py:42 | math.ceil gives the least integer not below its argument |
| `Stars.Trunc` | app.py:45 | int() truncates toward zero: the floor for a non-negative value, the ceiling for a negative one |
| `Stars.Repeat` | app.py:64 | repeating a glyph n times gives max(n, 0) copies of it, so a negative count gives nothing |
| `Stars.BiodiversityStarRating` | app.py:39-68 | the method returns exactly `BiodiversityRating`: a zero maximum or a non-finite index fails; otherwise the star value, then gold glyphs for the integer part, a partial glyph for a positive fraction, then grey glyphs |
| `Stars.FinalStarRating` | app.py:70-97 | the method returns exactly `FinalRating`: the linear star value and its glyphs, with the partial and grey tests the other way round |
| `Stars.LinearStarValue` | app.py:40-44 | in linear mode the star value is 5 · index / max, unrounded |
| `Stars.SteppedStarValue` | app.py:40-42 | in Margalef mode the star value is a whole number q' with q <= q' < q + 1 for q = index / step |
| `Stars.MargalefStarValue` | app.py:40-42 | with maximum 5 the Margalef star value is the ceiling of the index; 2.3 gives 3 and 3.0 gives 3 |
| `Stars.DecomposeNonNegative` | app.py:45-46 | for a non-negative star value, full_stars is its floor, the fractional part lies in [0, 1), and the two add up to the value |
| `Stars.FiveGlyphsInRange` | app.py:49-66 | a star value in [0, 5] draws exactly 5 glyphs: full_stars gold, a partial glyph exactly when the fraction is positive, grey for the rest |
| `Stars.GlyphsAgreeOnNonNegative` | app.py:77-94 | for a non-negative star value, the final-score rendering draws the same glyphs as the per-index one |
| `Stars.NoGreyAboveFive` | app.py:62-66 | above 5 stars no grey glyph is drawn, and only the gold glyphs and the partial one remain |
| `Stars.NegativeValueRenderingsDiffer` | app.py:81-94 | at -0.5 the per-index rendering draws 4 grey glyphs, while the final-score rendering draws a partial glyph and 5 grey |
| `Stars.SteppedRatingHasNoPartial` | app.py:41-46 | a Margalef-mode rating never draws a partial glyph |
| `Score.RoundHundredths` | app.py:102 | the result is a multiple of 0.01 within 0.005 of the argument |
| `Score.RoundHundredthsExact` | app.py:102 | a multiple of 0.01 is left unchanged by rounding |
| `Score.RoundHundredthsInRange` | app.py:102 | rounding keeps a value of [0, 5] in [0, 5] |
| `Score.CalculateFinalStarScore` | app.py:100-103 | returns the rounded weighted score, and the glyphs that final_star_rating draws for it against maximum 5, which never fails |
| `Score.FinalScoreInRange` | app.py:100-102 | Margalef and Pielou star values in [0, 5] give a final score in [0, 5] within 0.005 of 0.55·m + 0.45·p |
| `Score.FinalStarValueIsScore` | app.py:70-72 | against maximum 5 the final star value equals the score itself |
| `Score.FinalScoreExample` | app.py:100-102 | 4 Margalef stars and 0.6 Pielou stars give the final score 2.47 |
| `Score.FinalScoreFiveGlyphs` | app.py:100-103 | star values in [0, 5] give a final row of exactly 5 glyphs |
| `Assessment.Assess` | app.py:129-140 | an empty table gives no data; a table that gets scored has at least two species and a non-zero total |
| `Assessment.ScoredExactly` | app.py:129-140 | a table of two or more species with a positive total is scored if and only if every count is positive, ln S is not zero and ln N is not zero; a scored table's final star count is the combined score of its Margalef and Pielou star values, drawn by the final-score rendering |
| `Assessment.ScoredRatings` | app.py:129-137 | a scored table's indexes are the calculator's, all finite; Simpson, Shannon and Pielou are rated linearly at 5·index over 1 - 1/S, ln S and 1, and Margalef in whole stars as the ceiling of its index |
| `Assessment.SimpsonStarsInRange` | app.py:134 | a scored table of non-negative counts has a Simpson rating in [0, 5] stars drawn with exactly five glyphs |
| `Assessment.TwoSingletonsScored` | app.py:129-140 | two species of one individual each are scored whenever ln 2 is not zero, so scored tables exist |
| `Assessment.SimpsonMaxPositive` | app.py:134 | from two species on, Simpson's maximum 1 - 1/S is positive, so the Simpson rating never divides by zero |
| `DiversityIndexes.PositiveShares` | app.py:24-28 | over a positive total, every proportion is positive exactly when every count is, which decides whether Shannon's index is finite |
| `Assessment.SingleSpeciesCannotBeScored` | app.py:134 | a single species stops the run with a division by zero: a zero count has nothing to divide by, and otherwise Simpson's maximum 1 - 1/1 is 0 |
| `Assessment.ZeroCountCannotBeScored` | app.py:131-135 | two or more species with one of them counted zero can never be scored |
| `Assessment.EvenTableFiveSimpsonStars` | app.py:134 | equal positive counts over two or more species earn exactly 5 gold Simpson stars, and a scored run of such a table reports that rating |
| `Assessment.ScoredTableFinalInRange` | app.py:136-140 | when a scored table's Margalef and Pielou ratings lie in [0, 5], its final score lies in [0, 5] and is drawn with 5 glyphs |
| `SpeciesTable.ColumnsShareKeys` | app.py:119-120 | both columns of an upload are keyed by exactly the species named in its rows |
| `SpeciesTable.LastRowWins` | app.py:119-120 | each species' count and group come from the last row that names it |
| `SpeciesTable.Table.constructor` | app.py:10-14 | a new session starts with two empty tables that satisfy the invariant |
| `SpeciesTable.Table.Upload` | app.py:119-122 | an upload replaces both tables with the file's two columns and keeps their key sets equal |
| `SpeciesTable.Table.AddSpecies` | app.py:162-165 | a non-empty name is set in both tables at the same key; an empty name changes nothing; the key sets stay equal |
| `SpeciesTable.Table.UpdateCount` | app.py:172 | only the edited species' count changes; the groups and the key sets stay as they were |
| `SpeciesTable.Table.Remove` | app.py:173-175 | the species is deleted from both tables; every other entry is kept; the key sets stay equal |
| `SpeciesTable.Table.Filtered` | app.py:153-156 | a non-empty group list keeps exactly the species whose group is in it, with their counts; an empty list gives the whole table |

## Left out

- The Streamlit page is not modelled: page setup, widgets, expanders,
  columns, markdown output and `st.experimental_rerun` (app.py:7, 106-194). Session
  state (app.py:10-14) is modelled as the fields of `SpeciesTable.Table`.
- File reading with pandas and the check for the `Group`, `Specie` and `Count`
  columns (app.py:110-117, 124-126) are I/O. An upload is modelled as a
  sequence of rows.
- The HTML of the stars is not modelled: font sizes, colours, and the
  `int(fractional_part * 100)` width of the partial star. Only the kind and
  order of the glyphs are kept.
- Floats are modelled as reals. numpy's nan and inf are one `NonFinite`
  value. Rounding errors of binary floats are not modelled.
- `np.log` is a parameter with no assumed properties. So the model does not
  prove that Shannon lies in [0, ln S], that Pielou lies in [0, 1], that
  Pielou is 1 for equal counts, or that Margalef grows with richness. Those
  facts need properties of the logarithm.
- `Score.RoundHundredths`: Python's `round(x, 2)` rounds the binary float.
  The model rounds the exact real and breaks ties toward the even hundredth.
  The lemmas about it rely only on the result being a multiple of 0.01 within
  0.005 of the argument.
- `Stars.BiodiversityStarRating`: a zero maximum is always reported as
  `DivisionByZero`. For the Shannon rating the operands are numpy floats, so
  Python's error comes from `int()` of the resulting nan or inf instead.
  Either way the run stops.
- The engine takes the counts as a list. The order in which the dictionary
  yields its values is not modelled. Over the reals, none of the sums depend
  on that order.
- The group selector yields `None` when no group exists yet. The model takes
  the chosen group label as a string.
- Some behaviour of the editing loop (app.py:168-176) is not modelled:
  - With no filter, `filtered_species` is the same dictionary object as the
    table. This aliasing is not modelled.
  - The loop iterates while it edits the table.
  - The rerun after a removal.
- `SpeciesTable.Table.UpdateCount` requires the species to be in the table,
  because the list only shows species of the table.
