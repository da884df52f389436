/**
 * The age distribution: a histogram of the `age` column over ten equal bins
 * spanning [0, 100]. Bins are half-open [e, e + 10) except the last, which is
 * closed; ages outside [0, 100] and missing ages fall in no bin.
 */
module AgeDistribution {
  import opened Table

  const NumBins: nat := 10

  /** The bin edges 0, 10, ..., 100 (`np.linspace(0, 100, 11)`). */
  const BinEdges: seq<real> := [0.0, 10.0, 20.0, 30.0, 40.0, 50.0, 60.0, 70.0, 80.0, 90.0, 100.0]

  /**
   * Whether an age lies below the edge `j` as the histogram counts it: the
   * rows strictly below each edge, except at the last edge, where the ones
   * equal to it are counted too (the closed last bin).
   */
  predicate BelowEdge(a: real, j: nat)
    requires j < |BinEdges|
  {
    if j < NumBins then a < BinEdges[j] else a <= BinEdges[j]
  }

  /** The number of rows whose age is present and below the edge `j`. */
  function CountBelowEdge(rows: seq<Row>, j: nat): (c: nat)
    requires j < |BinEdges|
    ensures c <= |rows|
  {
    if |rows| == 0 then 0
    else (if rows[0].age.Some? && BelowEdge(rows[0].age.value, j) then 1 else 0)
         + CountBelowEdge(rows[1..], j)
  }

  /** The number of rows with an age counted at each of the eleven edges. */
  function Cumulative(rows: seq<Row>): (c: seq<int>)
    ensures |c| == |BinEdges|
  {
    seq(|BinEdges|, j requires 0 <= j < |BinEdges| => CountBelowEdge(rows, j))
  }

  /** Successive differences of a sequence. */
  function Diffs(c: seq<int>): (d: seq<int>)
    requires |c| > 0
    ensures |d| == |c| - 1
  {
    seq(|c| - 1, i requires 0 <= i < |c| - 1 => c[i + 1] - c[i])
  }

  /** The cumulative count never falls from one edge to the next. */
  lemma {:induction false} CountBelowEdgeMonotone(rows: seq<Row>, j: nat)
    requires j + 1 < |BinEdges|
    ensures CountBelowEdge(rows, j) <= CountBelowEdge(rows, j + 1)
  {
    if |rows| > 0 {
      CountBelowEdgeMonotone(rows[1..], j);
      assert BinEdges[j] < BinEdges[j + 1];
    }
  }

  /**
   * The histogram counts, as the differences of the cumulative counts at the
   * edges; none is negative.
   */
  function Histogram(rows: seq<Row>): (counts: seq<int>)
    ensures |counts| == NumBins
    ensures forall i | 0 <= i < NumBins :: counts[i] >= 0
  {
    var c := Cumulative(rows);
    assert forall i | 0 <= i < NumBins :: c[i] <= c[i + 1] by {
      forall i | 0 <= i < NumBins ensures c[i] <= c[i + 1] {
        CountBelowEdgeMonotone(rows, i);
      }
    }
    Diffs(c)
  }

  /**
   * The bin of a single age: ⌊a / 10⌋ on [0, 100), the last bin for 100,
   * and none outside [0, 100].
   */
  function BinOf(a: real): (b: Option<nat>)
    ensures b.Some? <==> 0.0 <= a <= 100.0
    ensures b.Some? ==> b.value < NumBins
  {
    if 0.0 <= a < 100.0 then Some((a / 10.0).Floor)
    else if a == 100.0 then Some(NumBins - 1)
    else None
  }

  /** The number of rows whose age falls in bin `i`. */
  function BinCount(rows: seq<Row>, i: nat): nat {
    if |rows| == 0 then 0
    else (if rows[0].age.Some? && BinOf(rows[0].age.value) == Some(i) then 1 else 0)
         + BinCount(rows[1..], i)
  }

  /** The number of rows whose age is present and within [0, 100]. */
  function InRangeCount(rows: seq<Row>): nat {
    if |rows| == 0 then 0
    else (if rows[0].age.Some? && 0.0 <= rows[0].age.value <= 100.0 then 1 else 0)
         + InRangeCount(rows[1..])
  }

  function SumInts(xs: seq<int>): int {
    if |xs| == 0 then 0 else xs[0] + SumInts(xs[1..])
  }

  /** One age moves the cumulative count at edge i + 1 but not at edge i exactly when it lies in bin i. */
  lemma BinOfEdges(a: real, i: nat)
    requires i < NumBins
    ensures (if BelowEdge(a, i + 1) then 1 else 0) - (if BelowEdge(a, i) then 1 else 0)
         == (if BinOf(a) == Some(i) then 1 else 0)
  {
    assert BinEdges[i] == 10.0 * i as real;
    assert BinEdges[i + 1] == 10.0 * (i + 1) as real;
  }

  /** Each histogram count is the number of ages that fall in that bin. */
  lemma {:induction false} HistogramCountsBins(rows: seq<Row>, i: nat)
    requires i < NumBins
    ensures Histogram(rows)[i] == BinCount(rows, i)
  {
    if |rows| > 0 {
      HistogramCountsBins(rows[1..], i);
      if rows[0].age.Some? {
        BinOfEdges(rows[0].age.value, i);
      }
    }
  }

  /** The differences of a sequence add up to its last element minus its first. */
  lemma {:induction false} Telescope(c: seq<int>)
    requires |c| > 0
    ensures SumInts(Diffs(c)) == c[|c| - 1] - c[0]
  {
    if |c| > 1 {
      assert Diffs(c)[1..] == Diffs(c[1..]);
      Telescope(c[1..]);
    }
  }

  /** The ages counted at the last edge but not the first are exactly those in [0, 100]. */
  lemma {:induction false} OuterEdges(rows: seq<Row>)
    ensures CountBelowEdge(rows, NumBins) - CountBelowEdge(rows, 0) == InRangeCount(rows)
  {
    if |rows| > 0 {
      OuterEdges(rows[1..]);
    }
  }

  /** The counts add up to the number of ages in [0, 100]: nothing outside is counted. */
  lemma HistogramTotal(rows: seq<Row>)
    ensures SumInts(Histogram(rows)) == InRangeCount(rows)
  {
    Telescope(Cumulative(rows));
    OuterEdges(rows);
  }

  /**
   * `show_age_distrib`: the ten counts and the eleven edges. Count `i` is the
   * number of ages in bin `i`, and the counts add up to the number of ages
   * within [0, 100].
   */
  function ShowAgeDistrib(rows: seq<Row>): (r: (seq<int>, seq<real>))
    ensures |r.0| == NumBins && |r.1| == NumBins + 1
    ensures forall j | 0 <= j < |r.1| :: r.1[j] == 10.0 * j as real
    ensures forall i | 0 <= i < NumBins :: r.0[i] == BinCount(rows, i)
    ensures SumInts(r.0) == InRangeCount(rows)
  {
    forall i | 0 <= i < NumBins ensures Histogram(rows)[i] == BinCount(rows, i) {
      HistogramCountsBins(rows, i);
    }
    HistogramTotal(rows);
    (Histogram(rows), BinEdges)
  }

  /** Where single ages land: both ends of a bin, the closed last bin, and ages outside. */
  lemma BinExamples()
    ensures BinOf(0.0) == Some(0) && BinOf(9.5) == Some(0) && BinOf(10.0) == Some(1)
    ensures BinOf(99.0) == Some(9) && BinOf(100.0) == Some(9)
    ensures BinOf(100.5) == None && BinOf(-1.0) == None
  {
  }
}
