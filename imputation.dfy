/**
 * Row-wise mean imputation of the grade columns: each missing grade of a row
 * is replaced by the mean of that row's present grades.
 */
module Imputation {
  import opened Table

  /** Replaces every missing grade by `v` and leaves the present ones alone. */
  function FillWith(g: seq<Option<real>>, v: real): (r: seq<Option<real>>)
    ensures |r| == |g|
    ensures forall i | 0 <= i < |g| && g[i].Some? :: r[i] == g[i]
    ensures forall i | 0 <= i < |g| && g[i].None? :: r[i] == Some(v)
  {
    if |g| == 0 then []
    else [if g[0].None? then Some(v) else g[0]] + FillWith(g[1..], v)
  }

  /** Filling `v` into the gaps adds `v` once per missing grade to the sum. */
  lemma {:induction false} FillWithSum(g: seq<Option<real>>, v: real)
    ensures |Present(FillWith(g, v))| == |g|
    ensures Sum(Present(FillWith(g, v))) == Sum(Present(g)) + Times(MissingCount(g), v)
  {
    if |g| > 0 {
      var f := FillWith(g, v);
      FillWithSum(g[1..], v);
      assert f[1..] == FillWith(g[1..], v);
      var rest := Sum(Present(g[1..]));
      var c := Times(MissingCount(g[1..]), v);
      assert Sum(Present(f[1..])) == rest + c;
      SumCons(f[0].value, Present(f[1..]));
      assert Sum(Present(f)) == f[0].value + rest + c;
      if g[0].None? {
        assert Present(g) == Present(g[1..]);
        assert MissingCount(g) == MissingCount(g[1..]) + 1;
      } else {
        assert MissingCount(g) == MissingCount(g[1..]);
        SumCons(g[0].value, Present(g[1..]));
      }
    }
  }

  /** `n` copies of `v` added up. */
  function Times(n: nat, v: real): real {
    if n == 0 then 0.0 else v + Times(n - 1, v)
  }

  lemma SumCons(x: real, xs: seq<real>)
    ensures Sum([x] + xs) == x + Sum(xs)
  {
    assert ([x] + xs)[1..] == xs;
  }

  /**
   * The imputed grades of one row (`fillna` with the row mean). A row whose
   * grades are all missing has no mean and stays all-missing.
   */
  function ImputeRow(g: seq<Option<real>>): (r: seq<Option<real>>)
    ensures |r| == |g|
    ensures forall i | 0 <= i < |g| && g[i].Some? :: r[i] == g[i]
    ensures forall i | 0 <= i < |g| && g[i].None? :: r[i] == RowMean(g)
    ensures MissingCount(g) == 0 ==> r == g
    ensures RowMean(g).None? ==> r == g
  {
    match RowMean(g)
    case None => g
    case Some(m) => FillWith(g, m)
  }

  /**
   * After imputation nothing is missing unless the row had no grade at all,
   * and the row mean has not moved.
   */
  lemma ImputeRowMean(g: seq<Option<real>>)
    ensures RowMean(g).Some? ==> MissingCount(ImputeRow(g)) == 0
    ensures RowMean(ImputeRow(g)) == RowMean(g)
  {
    if RowMean(g).Some? {
      MeanPreserved(g, RowMean(g).value);
    }
  }

  /** Filling the gaps with the row mean does not move the row mean. */
  lemma MeanPreserved(g: seq<Option<real>>, m: real)
    requires RowMean(g) == Some(m)
    ensures RowMean(FillWith(g, m)) == Some(m)
  {
    var vs := Present(g);
    assert Mean(vs) == Some(m);
    FillWithSum(g, m);
    PaddedMeanOf(Present(FillWith(g, m)), Sum(vs), m, |vs|, MissingCount(g));
  }

  /** Values made of `p` values with mean `m` and `k` copies of `m` have mean `m`. */
  lemma PaddedMeanOf(xs: seq<real>, s: real, m: real, p: nat, k: nat)
    requires p > 0 && m == s / p as real
    requires |xs| == p + k && Sum(xs) == s + Times(k, m)
    ensures Mean(xs) == Some(m)
  {
    PaddedMean(s, m, p, k);
  }

  lemma {:induction false} TimesIsProduct(n: nat, v: real)
    ensures Times(n, v) == n as real * v
  {
    if n > 0 {
      TimesIsProduct(n - 1, v);
    }
  }

  /** Adding `k` copies of the mean `m` of `p` values keeps the mean at `m`. */
  lemma PaddedMean(s: real, m: real, p: nat, k: nat)
    requires p > 0 && m == s / p as real
    ensures (s + Times(k, m)) / (p + k) as real == m
  {
    TimesIsProduct(k, m);
    assert s == m * p as real;
    assert s + k as real * m == m * (p + k) as real;
  }

  /** The table after `fill_na_with_mean`: every row imputed, nothing else changed. */
  function Impute(rows: seq<Row>): (r: seq<Row>)
    ensures |r| == |rows|
    ensures forall i | 0 <= i < |rows| ::
      r[i] == rows[i].(grades := ImputeRow(rows[i].grades))
  {
    seq(|rows|, i requires 0 <= i < |rows| => rows[i].(grades := ImputeRow(rows[i].grades)))
  }

  /** Imputing a second time changes nothing. */
  lemma ImputeIdempotent(rows: seq<Row>)
    ensures Impute(Impute(rows)) == Impute(rows)
  {
    forall i | 0 <= i < |rows|
      ensures ImputeRow(ImputeRow(rows[i].grades)) == ImputeRow(rows[i].grades)
    {
      var g := rows[i].grades;
      ImputeRowMean(g);
    }
  }

  /** After imputation the only rows with a missing grade are the all-missing ones. */
  lemma MissingAfterImpute(rows: seq<Row>, i: nat)
    requires i < |rows|
    ensures MissingCount(Impute(rows)[i].grades) > 0 <==>
      (|rows[i].grades| > 0 && forall q | 0 <= q < |rows[i].grades| :: rows[i].grades[q].None?)
  {
    var g := rows[i].grades;
    ImputeRowMean(g);
    if RowMean(g).None? && |g| > 0 {
      assert g[0].None?;
    }
  }

  /** The row of the experiment's example: [80, NA, 90, NA, 100] becomes [80, 90, 90, 90, 100]. */
  lemma ImputeExample()
    ensures ImputeRow([Some(80.0), None, Some(90.0), None, Some(100.0)])
         == [Some(80.0), Some(90.0), Some(90.0), Some(90.0), Some(100.0)]
  {
    var g := [Some(80.0), None, Some(90.0), None, Some(100.0)];
    ExampleRowMean();
    var r := ImputeRow(g);
    var expected := [Some(80.0), Some(90.0), Some(90.0), Some(90.0), Some(100.0)];
    assert forall i | 0 <= i < 5 :: r[i] == expected[i];
  }

  lemma ExampleRowMean()
    ensures RowMean([Some(80.0), None, Some(90.0), None, Some(100.0)]) == Some(90.0)
  {
    var g := [Some(80.0), None, Some(90.0), None, Some(100.0)];
    assert Present(g) == [80.0, 90.0, 100.0];
    var vs := [80.0, 90.0, 100.0];
    assert Sum(vs) == 270.0;
  }
}
