/**
 * The grade means per group of subjects, where a group is a gender together
 * with whether the age is above 40. Subjects without a gender belong to no
 * group; a missing age is not above 40. Groups are listed by gender, in
 * lexicographic order, and within a gender the group "not above 40" first.
 */
module GenderAge {
  import opened Table

  /** A group: a gender and whether the age is strictly greater than 40. */
  datatype GroupKey = GroupKey(gender: string, olderThan40: bool)

  /** One output row: the group and the mean of each of the five questions over it. */
  datatype GroupMeans = GroupMeans(key: GroupKey, means: seq<Option<real>>)

  /** The group of a row; rows without a gender fall in none. */
  function KeyOf(r: Row): (k: Option<GroupKey>)
    ensures k.Some? <==> r.gender.Some?
    ensures k.Some? ==> k.value.gender == r.gender.value
    ensures k.Some? ==> (k.value.olderThan40 <==> r.age.Some? && r.age.value > 40.0)
  {
    match r.gender
    case None => None
    case Some(gender) => Some(GroupKey(gender, r.age.Some? && r.age.value > 40.0))
  }

  /** Lexicographic order on strings by character code. */
  predicate StrLess(a: string, b: string) {
    if |a| == 0 then |b| > 0
    else |b| > 0 && (a[0] < b[0] || (a[0] == b[0] && StrLess(a[1..], b[1..])))
  }

  lemma {:induction false} StrLessIrreflexive(a: string)
    ensures !StrLess(a, a)
  {
    if |a| > 0 {
      StrLessIrreflexive(a[1..]);
    }
  }

  lemma {:induction false} StrLessTransitive(a: string, b: string, c: string)
    requires StrLess(a, b) && StrLess(b, c)
    ensures StrLess(a, c)
  {
    if |a| > 0 && a[0] == b[0] && b[0] == c[0] {
      StrLessTransitive(a[1..], b[1..], c[1..]);
    }
  }

  /** Two different strings are ordered one way or the other. */
  lemma {:induction false} StrLessTotal(a: string, b: string)
    requires a != b
    ensures StrLess(a, b) || StrLess(b, a)
  {
    if |a| > 0 && |b| > 0 && a[0] == b[0] {
      assert a == [a[0]] + a[1..] && b == [b[0]] + b[1..];
      StrLessTotal(a[1..], b[1..]);
    }
  }

  /** Groups by gender, then "not above 40" before "above 40". */
  predicate KeyLess(a: GroupKey, b: GroupKey) {
    || StrLess(a.gender, b.gender)
    || (a.gender == b.gender && !a.olderThan40 && b.olderThan40)
  }

  /** `KeyLess` is a strict total order. */
  lemma KeyOrder(a: GroupKey, b: GroupKey, c: GroupKey)
    ensures !KeyLess(a, a)
    ensures KeyLess(a, b) && KeyLess(b, c) ==> KeyLess(a, c)
    ensures a != b ==> KeyLess(a, b) || KeyLess(b, a)
  {
    StrLessIrreflexive(a.gender);
    if KeyLess(a, b) && KeyLess(b, c) {
      if StrLess(a.gender, b.gender) && StrLess(b.gender, c.gender) {
        StrLessTransitive(a.gender, b.gender, c.gender);
      }
    }
    if a != b && a.gender != b.gender {
      StrLessTotal(a.gender, b.gender);
    }
  }

  predicate Ascending(keys: seq<GroupKey>) {
    forall i, j | 0 <= i < j < |keys| :: KeyLess(keys[i], keys[j])
  }

  /** Adds a group to an ascending list of groups, keeping it ascending and without repeats. */
  function InsertKey(keys: seq<GroupKey>, k: GroupKey): (r: seq<GroupKey>)
    requires Ascending(keys)
    ensures Ascending(r)
    ensures forall x :: x in r <==> x in keys || x == k
  {
    if |keys| == 0 then [k]
    else if k == keys[0] then keys
    else if KeyLess(k, keys[0]) then
      assert forall j | 0 <= j < |keys| :: KeyLess(k, keys[j]) by {
        forall j | 0 <= j < |keys| ensures KeyLess(k, keys[j]) {
          KeyOrder(k, keys[0], keys[j]);
        }
      }
      [k] + keys
    else
      KeyOrder(k, keys[0], k);
      var rest := InsertKey(keys[1..], k);
      assert forall j | 0 <= j < |rest| :: rest[j] in keys[1..] || rest[j] == k;
      [keys[0]] + rest
  }

  /** The groups that occur among `rows`, ascending. */
  function GroupKeys(rows: seq<Row>): (keys: seq<GroupKey>)
    ensures Ascending(keys)
  {
    if |rows| == 0 then []
    else
      var keys := GroupKeys(rows[..|rows| - 1]);
      match KeyOf(rows[|rows| - 1])
      case None => keys
      case Some(k) => InsertKey(keys, k)
  }

  /** A group is listed exactly when some row belongs to it. */
  lemma {:induction false} GroupKeysExact(rows: seq<Row>, k: GroupKey)
    ensures k in GroupKeys(rows) <==> exists i | 0 <= i < |rows| :: KeyOf(rows[i]) == Some(k)
  {
    if |rows| > 0 {
      var init := rows[..|rows| - 1];
      GroupKeysExact(init, k);
      assert forall i | 0 <= i < |init| :: init[i] == rows[i];
      if k in GroupKeys(init) {
        var i :| 0 <= i < |init| && KeyOf(init[i]) == Some(k);
        assert KeyOf(rows[i]) == Some(k);
      }
    }
  }

  /** The present values of question `q` over the rows of group `k`, in row order. */
  function GroupValues(rows: seq<Row>, k: GroupKey, q: nat): (vs: seq<real>)
    ensures |vs| <= |rows|
  {
    if |rows| == 0 then []
    else
      var r := rows[0];
      (if KeyOf(r) == Some(k) && q < |r.grades| && r.grades[q].Some? then [r.grades[q].value] else [])
      + GroupValues(rows[1..], k, q)
  }

  /** Every collected value is a present answer to question `q` of a row of the group, and conversely. */
  lemma {:induction false} GroupValuesExact(rows: seq<Row>, k: GroupKey, q: nat, v: real)
    ensures v in GroupValues(rows, k, q) <==>
      exists i | 0 <= i < |rows| :: KeyOf(rows[i]) == Some(k) && q < |rows[i].grades| && rows[i].grades[q] == Some(v)
  {
    if |rows| > 0 {
      GroupValuesExact(rows[1..], k, q, v);
      assert forall i | 1 <= i < |rows| :: rows[1..][i - 1] == rows[i];
      if v in GroupValues(rows[1..], k, q) {
        var i :| 0 <= i < |rows[1..]| && KeyOf(rows[1..][i]) == Some(k) && q < |rows[1..][i].grades|
          && rows[1..][i].grades[q] == Some(v);
        assert KeyOf(rows[i + 1]) == Some(k);
      }
    }
  }

  /** Row `r` belongs to group `k` and gave the answer `v` to question `q`. */
  predicate AnsweredWith(r: Row, k: GroupKey, q: nat, v: real) {
    KeyOf(r) == Some(k) && q < |r.grades| && r.grades[q] == Some(v)
  }

  lemma {:induction false} GroupValuesAppend(rows: seq<Row>, r: Row, k: GroupKey, q: nat)
    ensures GroupValues(rows + [r], k, q) == GroupValues(rows, k, q) + GroupValues([r], k, q)
  {
    if |rows| > 0 {
      assert (rows + [r])[1..] == rows[1..] + [r];
      GroupValuesAppend(rows[1..], r, k, q);
    } else {
      assert [] + [r] == [r];
    }
  }

  /** The rows of group `k` that gave the answer `v` to question `q`, by position. */
  function AnsweredRows(rows: seq<Row>, k: GroupKey, q: nat, v: real): set<nat> {
    set i: nat | i < |rows| && AnsweredWith(rows[i], k, q, v)
  }

  lemma AnsweredRowsAppend(rows: seq<Row>, r: Row, k: GroupKey, q: nat, v: real)
    ensures |AnsweredRows(rows + [r], k, q, v)| ==
      |AnsweredRows(rows, k, q, v)| + (if AnsweredWith(r, k, q, v) then 1 else 0)
  {
    var before := AnsweredRows(rows, k, q, v);
    var after := AnsweredRows(rows + [r], k, q, v);
    forall i: nat ensures i in after <==> i in before || (i == |rows| && AnsweredWith(r, k, q, v)) {
      if i < |rows| {
        assert (rows + [r])[i] == rows[i];
      } else if i == |rows| {
        assert (rows + [r])[i] == r;
      }
    }
    if AnsweredWith(r, k, q, v) {
      assert after == before + {|rows|};
    } else {
      assert after == before;
    }
  }

  lemma SingleRowValues(r: Row, k: GroupKey, q: nat, v: real)
    ensures multiset(GroupValues([r], k, q))[v] == if AnsweredWith(r, k, q, v) then 1 else 0
  {
    assert [r][1..] == [];
  }

  /**
   * A value is collected once for every row of the group that gave it, so
   * the mean weighs each row's answer once.
   */
  lemma {:induction false} GroupValuesMultiplicity(rows: seq<Row>, k: GroupKey, q: nat, v: real)
    ensures multiset(GroupValues(rows, k, q))[v] == |AnsweredRows(rows, k, q, v)|
  {
    if |rows| > 0 {
      var init := rows[..|rows| - 1];
      var last := rows[|rows| - 1];
      assert rows == init + [last];
      GroupValuesMultiplicity(init, k, q, v);
      GroupValuesAppend(init, last, k, q);
      SingleRowValues(last, k, q, v);
      AnsweredRowsAppend(init, last, k, q, v);
      var vs := GroupValues(init, k, q);
      var ws := GroupValues([last], k, q);
      assert multiset(vs + ws) == multiset(vs) + multiset(ws);
    }
  }

  /** Every present answer to question `q` lies in [lo, hi]. */
  predicate AnswersWithin(rows: seq<Row>, q: nat, lo: real, hi: real) {
    forall i | 0 <= i < |rows| && q < |rows[i].grades| && rows[i].grades[q].Some? ::
      lo <= rows[i].grades[q].value <= hi
  }

  /**
   * `correlate_gender_age`: for each group that occurs, in ascending order,
   * the mean of each question over the group's present answers (missing
   * when the group answered none).
   */
  function CorrelateGenderAge(rows: seq<Row>): (r: seq<GroupMeans>)
    ensures |r| == |GroupKeys(rows)|
    ensures forall g | 0 <= g < |r| :: r[g].key == GroupKeys(rows)[g] && |r[g].means| == NumQuestions
    ensures forall g, q | 0 <= g < |r| && 0 <= q < NumQuestions ::
      r[g].means[q] == Mean(GroupValues(rows, r[g].key, q))
  {
    var keys := GroupKeys(rows);
    seq(|keys|, g requires 0 <= g < |keys| => MeansOf(rows, keys[g]))
  }

  /**
   * The output has one row per group that occurs among the rows with a
   * gender, and no other, in ascending order of group.
   */
  lemma CorrelateGroups(rows: seq<Row>)
    ensures forall g, h | 0 <= g < h < |CorrelateGenderAge(rows)| ::
      KeyLess(CorrelateGenderAge(rows)[g].key, CorrelateGenderAge(rows)[h].key)
    ensures forall g | 0 <= g < |CorrelateGenderAge(rows)| ::
      exists i | 0 <= i < |rows| :: KeyOf(rows[i]) == Some(CorrelateGenderAge(rows)[g].key)
    ensures forall i | 0 <= i < |rows| && rows[i].gender.Some? ::
      exists g | 0 <= g < |CorrelateGenderAge(rows)| :: KeyOf(rows[i]) == Some(CorrelateGenderAge(rows)[g].key)
  {
    var r := CorrelateGenderAge(rows);
    var keys := GroupKeys(rows);
    GroupKeysCover(rows);
    forall g | 0 <= g < |r|
      ensures exists i | 0 <= i < |rows| :: KeyOf(rows[i]) == Some(r[g].key)
    {
      assert r[g].key == keys[g];
    }
  }

  /** The output row of group `k`. */
  function MeansOf(rows: seq<Row>, k: GroupKey): (m: GroupMeans)
    ensures m.key == k && |m.means| == NumQuestions
    ensures forall q | 0 <= q < NumQuestions :: m.means[q] == Mean(GroupValues(rows, k, q))
  {
    GroupMeans(k, seq(NumQuestions, q requires 0 <= q < NumQuestions => Mean(GroupValues(rows, k, q))))
  }

  /** The listed groups are exactly those of the rows that have a gender. */
  lemma GroupKeysCover(rows: seq<Row>)
    ensures forall g | 0 <= g < |GroupKeys(rows)| ::
      exists i | 0 <= i < |rows| :: KeyOf(rows[i]) == Some(GroupKeys(rows)[g])
    ensures forall i | 0 <= i < |rows| && rows[i].gender.Some? ::
      exists g | 0 <= g < |GroupKeys(rows)| :: KeyOf(rows[i]) == Some(GroupKeys(rows)[g])
  {
    var keys := GroupKeys(rows);
    forall g | 0 <= g < |keys|
      ensures exists i | 0 <= i < |rows| :: KeyOf(rows[i]) == Some(keys[g])
    {
      GroupKeysExact(rows, keys[g]);
    }
    forall i | 0 <= i < |rows| && rows[i].gender.Some?
      ensures exists g | 0 <= g < |keys| :: KeyOf(rows[i]) == Some(keys[g])
    {
      GroupKeysExact(rows, KeyOf(rows[i]).value);
    }
  }

  /** A group's mean of a question lies between the smallest and largest answers it could have. */
  lemma GroupMeanBounds(rows: seq<Row>, k: GroupKey, q: nat, lo: real, hi: real)
    requires AnswersWithin(rows, q, lo, hi)
    ensures Mean(GroupValues(rows, k, q)).Some? ==> lo <= Mean(GroupValues(rows, k, q)).value <= hi
  {
    var vs := GroupValues(rows, k, q);
    forall i | 0 <= i < |vs| ensures lo <= vs[i] <= hi {
      assert vs[i] in vs;
      GroupValuesExact(rows, k, q, vs[i]);
    }
    if |vs| > 0 {
      SumBounds(vs, lo, hi);
      QuotientBounds(Sum(vs), |vs| as real, lo, hi);
    }
  }

  /** A row without a gender changes no group and no mean. */
  lemma {:induction false} NoGenderIgnored(rows: seq<Row>, r: Row)
    requires r.gender.None?
    ensures GroupKeys(rows + [r]) == GroupKeys(rows)
    ensures forall k, q :: GroupValues(rows + [r], k, q) == GroupValues(rows, k, q)
  {
    assert (rows + [r])[..|rows|] == rows;
    forall k, q ensures GroupValues(rows + [r], k, q) == GroupValues(rows, k, q) {
      GroupValuesAppendNone(rows, r, k, q);
    }
  }

  lemma {:induction false} GroupValuesAppendNone(rows: seq<Row>, r: Row, k: GroupKey, q: nat)
    requires r.gender.None?
    ensures GroupValues(rows + [r], k, q) == GroupValues(rows, k, q)
  {
    if |rows| > 0 {
      assert (rows + [r])[1..] == rows[1..] + [r];
      GroupValuesAppendNone(rows[1..], r, k, q);
    } else {
      assert ([] + [r])[1..] == [];
    }
  }

  /** Two men aged 40 and 45, each answering only the first question. */
  const AgeFortyRows: seq<Row> := [
    Row(Some(40.0), Some("Male"), "ab@b.c", [Some(1.0), None, None, None, None]),
    Row(Some(45.0), Some("Male"), "cd@b.c", [Some(3.0), None, None, None, None])]

  lemma AgeFortyKeys()
    ensures GroupKeys(AgeFortyRows) == [GroupKey("Male", false), GroupKey("Male", true)]
  {
    var rows := AgeFortyRows;
    var young := GroupKey("Male", false);
    var older := GroupKey("Male", true);
    assert KeyOf(rows[0]) == Some(young);
    assert KeyOf(rows[1]) == Some(older);
    assert rows[..1] == [rows[0]];
    assert GroupKeys(rows[..1]) == [young];
    StrLessIrreflexive("Male");
    assert InsertKey([young], older) == [young, older];
  }

  lemma AgeFortyValues()
    ensures GroupValues(AgeFortyRows, GroupKey("Male", false), 0) == [1.0]
    ensures GroupValues(AgeFortyRows, GroupKey("Male", false), 1) == []
    ensures GroupValues(AgeFortyRows, GroupKey("Male", true), 0) == [3.0]
  {
    var rows := AgeFortyRows;
    assert KeyOf(rows[0]) == Some(GroupKey("Male", false));
    assert KeyOf(rows[1]) == Some(GroupKey("Male", true));
    assert rows[1..][1..] == [];
  }

  lemma MeanSingle(x: real)
    ensures Mean([x]) == Some(x)
  {
    var xs := [x];
    assert xs[1..] == [];
    assert Sum(xs) == x;
    assert |xs| == 1;
  }

  /**
   * Age 40 is not above 40: the two men form two groups, the one aged 40
   * listed first, each with the mean of its own answers.
   */
  lemma AgeFortyExample()
    ensures var r := CorrelateGenderAge(AgeFortyRows);
      && |r| == 2
      && r[0].key == GroupKey("Male", false) && r[0].means[0] == Some(1.0) && r[0].means[1] == None
      && r[1].key == GroupKey("Male", true) && r[1].means[0] == Some(3.0)
  {
    var r := CorrelateGenderAge(AgeFortyRows);
    AgeFortyKeys();
    AgeFortyValues();
    MeanSingle(1.0);
    MeanSingle(3.0);
    assert r[0].means[0] == Mean(GroupValues(AgeFortyRows, GroupKey("Male", false), 0));
    assert r[0].means[1] == Mean(GroupValues(AgeFortyRows, GroupKey("Male", false), 1));
    assert r[1].means[0] == Mean(GroupValues(AgeFortyRows, GroupKey("Male", true), 0));
    assert |r| == 2 && r[0].key == GroupKey("Male", false) && r[1].key == GroupKey("Male", true);
  }
}
