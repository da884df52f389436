/**
 * Subject scoring: the floored mean of a row's present grades, or NA when
 * the row misses too many grades, stored as pandas' nullable UInt8.
 */
module Scoring {
  import opened Table
  import opened Imputation

  /** The values of pandas' `UInt8` dtype; NA is `None` around it. */
  newtype UInt8 = x: int | 0 <= x < 256

  /**
   * The row mean rounded down (`mean(axis=1).apply(np.floor)`); a row with
   * no grade has a NaN mean, which stays NA.
   */
  function FlooredMean(g: seq<Option<real>>): (r: Option<int>)
    ensures r.None? <==> MissingCount(g) == |g|
    ensures r.Some? ==> r.value as real <= RowMean(g).value < r.value as real + 1.0
    ensures r.Some? && PresentWithin(g, 0.0, 255.0) ==> 0 <= r.value <= 255
  {
    match RowMean(g)
    case None => None
    case Some(m) =>
      MeanBounds(g, 0.0, 255.0);
      Some(m.Floor)
  }

  /**
   * The score of one row under the threshold `maxNans`. More than `maxNans`
   * missing grades gives NA; so does a row with no grade at all, whose mean
   * is NaN. Otherwise the mean of the present grades, rounded down.
   */
  function Score(g: seq<Option<real>>, maxNans: int): (r: Option<int>)
    ensures r.None? <==> MissingCount(g) > maxNans || MissingCount(g) == |g|
    ensures r.Some? ==> r.value as real <= RowMean(g).value < r.value as real + 1.0
    ensures r.Some? && PresentWithin(g, 0.0, 255.0) ==> 0 <= r.value <= 255
  {
    if MissingCount(g) > maxNans then None else FlooredMean(g)
  }

  /** The cast of a floored score to the nullable UInt8 column. */
  function AsUInt8(s: Option<int>): (b: Option<UInt8>)
    requires s.Some? ==> 0 <= s.value < 256
    ensures b.None? <==> s.None?
    ensures b.Some? ==> b.value as int == s.value
  {
    match s
    case None => None
    case Some(v) => Some(v as UInt8)
  }

  /**
   * Once a row has been imputed, its score under any non-negative threshold
   * is the floored mean of its original present grades.
   */
  lemma ScoreAfterImputation(g: seq<Option<real>>, maxNans: int)
    requires maxNans >= 0 && RowMean(g).Some?
    ensures Score(ImputeRow(g), maxNans) == Score(g, |g|)
  {
    var r := ImputeRow(g);
    ImputeRowMean(g);
    assert MissingCount(r) == 0;
    assert |g| > 0;
    var a, b := Score(r, maxNans), Score(g, |g|);
    assert a.Some? && b.Some?;
    FloorUnique(RowMean(g).value, a.value, b.value);
  }

  /** Only one integer lies in the unit interval ending above a real. */
  lemma FloorUnique(x: real, a: int, b: int)
    requires a as real <= x < a as real + 1.0
    requires b as real <= x < b as real + 1.0
    ensures a == b
  {
  }

  /** [81, 82, 83, 84, 85] scores 83. */
  lemma ScoreCompleteRow()
    ensures Score([Some(81.0), Some(82.0), Some(83.0), Some(84.0), Some(85.0)], 1) == Some(83)
  {
    var g := [Some(81.0), Some(82.0), Some(83.0), Some(84.0), Some(85.0)];
    assert Present(g) == [81.0, 82.0, 83.0, 84.0, 85.0];
    assert MissingCount(g) == 0;
    assert RowMean(g) == Some(83.0);
  }

  /** [80, 90, 100, NA, NA] misses two grades: NA under threshold 1, 90 under threshold 2. */
  lemma ScoreThreshold()
    ensures Score([Some(80.0), Some(90.0), Some(100.0), None, None], 1) == None
    ensures Score([Some(80.0), Some(90.0), Some(100.0), None, None], 2) == Some(90)
  {
    var g := [Some(80.0), Some(90.0), Some(100.0), None, None];
    assert Present(g) == [80.0, 90.0, 100.0];
    assert MissingCount(g) == 2;
    assert RowMean(g) == Some(90.0);
  }

  /** A row with every grade missing is NA whatever the threshold. */
  lemma ScoreAllMissing(g: seq<Option<real>>, maxNans: int)
    requires forall i | 0 <= i < |g| :: g[i].None?
    ensures Score(g, maxNans) == None
  {
  }
}
