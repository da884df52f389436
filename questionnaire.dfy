/**
 * The analysis object of the questionnaire experiment. It owns the table,
 * which two of its operations update in place: mean imputation of missing
 * grades and subject scoring. The read-only queries are functions over the
 * rows (modules AgeDistribution, EmailFilter and GenderAge).
 */
module Questionnaire {
  import opened Table
  import opened Imputation
  import opened Scoring

  /**
   * The ascending positions of the rows that miss more than `limit` grades
   * (`np.where(... > limit)`); with `limit == 0`, the rows that miss any.
   */
  method PositionsMissingMoreThan(rows: seq<Row>, limit: int) returns (positions: seq<nat>)
    ensures forall k, l | 0 <= k < l < |positions| :: positions[k] < positions[l]
    ensures forall p: nat :: p in positions <==> p < |rows| && MissingCount(rows[p].grades) > limit
  {
    positions := [];
    var i := 0;
    while i < |rows|
      invariant 0 <= i <= |rows|
      invariant forall k, l | 0 <= k < l < |positions| :: positions[k] < positions[l]
      invariant forall k | 0 <= k < |positions| :: positions[k] < i
      invariant forall p: nat :: p in positions <==> p < i && MissingCount(rows[p].grades) > limit
    {
      if MissingCount(rows[i].grades) > limit {
        positions := positions + [i];
      }
      i := i + 1;
    }
  }

  class QuestionnaireAnalysis {
    /** The participant table, in its original row order. */
    var data: array<Row>
    /** The `score` column, absent until `ScoreSubjects` first runs. */
    var scoreColumn: Option<seq<Option<UInt8>>>
    /** The threshold of the last `ScoreSubjects` call, absent before one. */
    var maximalNansPerSub: Option<int>

    ghost predicate Valid()
      reads this, data
    {
      && WellFormed(data[..])
      && (scoreColumn.Some? ==> |scoreColumn.value| == data.Length)
    }

    /** An analysis over an already loaded table. */
    constructor (rows: seq<Row>)
      requires WellFormed(rows)
      ensures Valid() && fresh(data)
      ensures data[..] == rows
      ensures scoreColumn == None && maximalNansPerSub == None
    {
      data := new Row[|rows|](i requires 0 <= i < |rows| => rows[i]);
      scoreColumn := None;
      maximalNansPerSub := None;
    }

    /**
     * Replaces each missing grade by the mean of the present grades of its
     * row, in place, and returns the ascending positions of the rows that
     * missed at least one grade before the call (all-missing rows included).
     */
    method FillNaWithMean() returns (naIndex: seq<nat>)
      requires Valid()
      modifies data
      ensures Valid()
      ensures data[..] == Impute(old(data[..]))
      ensures forall k, l | 0 <= k < l < |naIndex| :: naIndex[k] < naIndex[l]
      ensures forall p: nat :: p in naIndex <==> p < data.Length && MissingCount(old(data[p]).grades) > 0
    {
      naIndex := PositionsMissingMoreThan(data[..], 0);
      // the imputed grades are computed for the whole table, then written back
      var imputed := Impute(data[..]);
      WriteRows(data, imputed);
    }

    /**
     * Records `maxNans` and writes the `score` column: per row the floored
     * mean of its present grades, NA where more than `maxNans` grades are
     * missing, cast to nullable UInt8. The grades are left as they are.
     */
    method ScoreSubjects(maxNans: int := 1)
      requires Valid()
      requires forall i | 0 <= i < data.Length ::
        Score(data[i].grades, maxNans).Some? ==> 0 <= Score(data[i].grades, maxNans).value < 256
      modifies this
      ensures Valid()
      ensures data == old(data) && data[..] == old(data[..])
      ensures maximalNansPerSub == Some(maxNans)
      ensures scoreColumn.Some? && |scoreColumn.value| == data.Length
      ensures forall i | 0 <= i < data.Length ::
        scoreColumn.value[i] == AsUInt8(Score(data[i].grades, maxNans))
    {
      maximalNansPerSub := Some(maxNans);
      var column := ScoreColumn(data[..], maxNans);
      scoreColumn := Some(column);
    }
  }

  /** Overwrites the rows of `a`, one at a time, with `rows`. */
  method WriteRows(a: array<Row>, rows: seq<Row>)
    requires |rows| == a.Length
    modifies a
    ensures a[..] == rows
  {
    var i := 0;
    while i < a.Length
      invariant 0 <= i <= a.Length
      invariant forall k | 0 <= k < i :: a[k] == rows[k]
    {
      a[i] := rows[i];
      i := i + 1;
    }
  }

  /**
   * The `score` column of a table: the floored row means, then NA at the
   * rows that miss more than `maxNans` grades, then the cast to UInt8.
   */
  method ScoreColumn(rows: seq<Row>, maxNans: int) returns (column: seq<Option<UInt8>>)
    requires forall i | 0 <= i < |rows| ::
      Score(rows[i].grades, maxNans).Some? ==> 0 <= Score(rows[i].grades, maxNans).value < 256
    ensures |column| == |rows|
    ensures forall i | 0 <= i < |rows| :: column[i] == AsUInt8(Score(rows[i].grades, maxNans))
  {
    var naIndex := PositionsMissingMoreThan(rows, maxNans);
    var score := FlooredMeans(rows);
    assert forall j | 0 <= j < |naIndex| :: naIndex[j] in naIndex;
    SetMissing(score, naIndex);
    assert forall k | 0 <= k < |rows| :: score[k] == Score(rows[k].grades, maxNans);
    column := CastColumn(score[..]);
  }

  /** The cast of a score column to nullable UInt8, entry by entry. */
  method CastColumn(score: seq<Option<int>>) returns (column: seq<Option<UInt8>>)
    requires forall k | 0 <= k < |score| :: score[k].Some? ==> 0 <= score[k].value < 256
    ensures |column| == |score|
    ensures forall k | 0 <= k < |score| :: column[k] == AsUInt8(score[k])
  {
    column := [];
    var i := 0;
    while i < |score|
      invariant 0 <= i <= |score|
      invariant |column| == i
      invariant forall k | 0 <= k < i :: column[k] == AsUInt8(score[k])
    {
      column := column + [AsUInt8(score[i])];
      i := i + 1;
    }
  }

  /** The floored row means (`mean(axis=1).apply(np.floor)`), in a new array. */
  method FlooredMeans(rows: seq<Row>) returns (score: array<Option<int>>)
    ensures fresh(score) && score.Length == |rows|
    ensures forall k | 0 <= k < |rows| :: score[k] == FlooredMean(rows[k].grades)
  {
    score := new Option<int>[|rows|];
    var i := 0;
    while i < |rows|
      invariant 0 <= i <= |rows|
      invariant forall k | 0 <= k < i :: score[k] == FlooredMean(rows[k].grades)
    {
      score[i] := FlooredMean(rows[i].grades);
      i := i + 1;
    }
  }

  /** Sets NA at the given positions and leaves the others alone. */
  method SetMissing(score: array<Option<int>>, positions: seq<nat>)
    requires forall j | 0 <= j < |positions| :: positions[j] < score.Length
    modifies score
    ensures forall k | 0 <= k < score.Length ::
      score[k] == if k in positions then None else old(score[k])
  {
    var j := 0;
    while j < |positions|
      invariant 0 <= j <= |positions|
      invariant forall k | 0 <= k < score.Length ::
        score[k] == if k in positions[..j] then None else old(score[k])
    {
      score[positions[j]] := None;
      assert positions[..j + 1] == positions[..j] + [positions[j]];
      j := j + 1;
    }
    assert positions[..j] == positions;
  }

  /**
   * Scoring twice with the same threshold gives the same column: the column
   * depends only on the grades, which scoring does not touch.
   */
  method RescoreIsIdempotent(q: QuestionnaireAnalysis, maxNans: int)
    returns (first: seq<Option<UInt8>>, second: seq<Option<UInt8>>)
    requires q.Valid()
    requires forall i | 0 <= i < q.data.Length ::
      Score(q.data[i].grades, maxNans).Some? ==> 0 <= Score(q.data[i].grades, maxNans).value < 256
    modifies q
    ensures first == second
    ensures q.data[..] == old(q.data[..])
  {
    q.ScoreSubjects(maxNans);
    first := q.scoreColumn.value;
    q.ScoreSubjects(maxNans);
    second := q.scoreColumn.value;
  }
}
