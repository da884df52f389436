/**
 * The participant table of the questionnaire experiment: one row per subject
 * with an age, a gender, an email address and the five grades q1..q5. Any of
 * age, gender and the grades may be missing (NaN in the table), which is
 * written `None` here. Grades and ages are exact reals.
 */
module Table {

  datatype Option<+T> = None | Some(value: T)

  /** The grade columns q1..q5. */
  const NumQuestions: nat := 5

  datatype Row = Row(age: Option<real>, gender: Option<string>, email: string, grades: seq<Option<real>>)

  /** Every row carries exactly the five grade columns. */
  predicate WellFormed(rows: seq<Row>) {
    forall i | 0 <= i < |rows| :: |rows[i].grades| == NumQuestions
  }

  /** The present (non-missing) values of a row of grades, in column order. */
  function Present(g: seq<Option<real>>): (vs: seq<real>)
    ensures |vs| <= |g|
    ensures |vs| == 0 <==> forall i | 0 <= i < |g| :: g[i].None?
  {
    if |g| == 0 then []
    else (if g[0].Some? then [g[0].value] else []) + Present(g[1..])
  }

  /** How many grades of a row are missing (`isnull().sum(axis=1)`). */
  function MissingCount(g: seq<Option<real>>): (n: nat)
    ensures n + |Present(g)| == |g|
    ensures n == 0 <==> forall i | 0 <= i < |g| :: g[i].Some?
  {
    if |g| == 0 then 0
    else (if g[0].None? then 1 else 0) + MissingCount(g[1..])
  }

  function Sum(xs: seq<real>): real {
    if |xs| == 0 then 0.0 else xs[0] + Sum(xs[1..])
  }

  /** The arithmetic mean, which does not exist for no values. */
  function Mean(xs: seq<real>): (m: Option<real>)
    ensures m.Some? <==> |xs| > 0
  {
    if |xs| == 0 then None else Some(Sum(xs) / |xs| as real)
  }

  /** The row-wise mean that skips missing grades (`mean(axis=1)`). */
  function RowMean(g: seq<Option<real>>): (m: Option<real>)
    ensures m.None? <==> forall i | 0 <= i < |g| :: g[i].None?
  {
    Mean(Present(g))
  }

  /** Every present value lies in [lo, hi]. */
  predicate PresentWithin(g: seq<Option<real>>, lo: real, hi: real) {
    forall i | 0 <= i < |g| && g[i].Some? :: lo <= g[i].value <= hi
  }

  lemma {:induction false} SumBounds(xs: seq<real>, lo: real, hi: real)
    requires forall i | 0 <= i < |xs| :: lo <= xs[i] <= hi
    ensures lo * |xs| as real <= Sum(xs) <= hi * |xs| as real
  {
    if |xs| > 0 {
      var n := |xs[1..]| as real;
      SumBounds(xs[1..], lo, hi);
      StepBounds(xs[0], Sum(xs[1..]), n, lo, hi);
      assert |xs| as real == n + 1.0;
    }
  }

  lemma StepBounds(x: real, s: real, n: real, lo: real, hi: real)
    requires lo <= x <= hi && lo * n <= s <= hi * n
    ensures lo * (n + 1.0) <= x + s <= hi * (n + 1.0)
  {
    assert lo * (n + 1.0) == lo * n + lo && hi * (n + 1.0) == hi * n + hi;
  }

  /** The mean of values taken from [lo, hi] lies in [lo, hi]. */
  lemma MeanBounds(g: seq<Option<real>>, lo: real, hi: real)
    ensures PresentWithin(g, lo, hi) && RowMean(g).Some? ==> lo <= RowMean(g).value <= hi
  {
    var vs := Present(g);
    if PresentWithin(g, lo, hi) && |vs| > 0 {
      PresentWithinBounds(g, lo, hi);
      SumBounds(vs, lo, hi);
      QuotientBounds(Sum(vs), |vs| as real, lo, hi);
    }
  }

  lemma {:induction false} PresentWithinBounds(g: seq<Option<real>>, lo: real, hi: real)
    requires PresentWithin(g, lo, hi)
    ensures forall i | 0 <= i < |Present(g)| :: lo <= Present(g)[i] <= hi
  {
    if |g| > 0 {
      assert PresentWithin(g[1..], lo, hi) by {
        forall i | 0 <= i < |g| - 1 && g[1..][i].Some? ensures lo <= g[1..][i].value <= hi {
          assert g[1..][i] == g[i + 1];
        }
      }
      PresentWithinBounds(g[1..], lo, hi);
      var head := if g[0].Some? then [g[0].value] else [];
      assert Present(g) == head + Present(g[1..]);
    }
  }

  lemma QuotientBounds(s: real, n: real, lo: real, hi: real)
    requires n > 0.0 && lo * n <= s <= hi * n
    ensures lo <= s / n <= hi
  {
    var q := s / n;
    assert q * n == s;
  }
}
