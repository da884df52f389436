/**
 * Removal of the rows whose email does not match the pattern
 * `^[a-z0-9]+[\._]?[a-z0-9]+[@]\w+[.]\w{1,6}$`. The pattern is modelled as a
 * small regular expression over character classes, whose meaning is
 * declarative: a concatenation matches a string when some split of it
 * matches the two parts. `\w` is taken as the ASCII class [A-Za-z0-9_].
 */
module EmailFilter {
  import opened Table

  /** The character classes of the pattern. */
  datatype CharClass =
    | LowerAlnum  // [a-z0-9]
    | Separator   // [\._]
    | AtSign      // [@]
    | Dot         // [.]
    | Word        // \w, taken as ASCII [A-Za-z0-9_]

  predicate InClass(c: char, cls: CharClass) {
    match cls
    case LowerAlnum => IsLowerAlnum(c)
    case Separator => IsSeparator(c)
    case AtSign => c == '@'
    case Dot => c == '.'
    case Word => IsWordChar(c)
  }

  /** The regular expressions the pattern needs: bounded repetitions of a class, and concatenation. */
  datatype Regex =
    | Repeat(cls: CharClass, min: nat, max: Option<nat>)  // cls{min,max}; max None is unbounded
    | Concat(left: Regex, right: Regex)

  /** Whether the whole of `s` matches `re` (some split for every concatenation). */
  predicate Matches(re: Regex, s: string) {
    match re
    case Repeat(cls, lo, hi) =>
      && lo <= |s|
      && (hi.None? || |s| <= hi.value)
      && forall i | 0 <= i < |s| :: InClass(s[i], cls)
    case Concat(left, right) =>
      exists k | 0 <= k <= |s| :: Matches(left, s[..k]) && Matches(right, s[k..])
  }

  /** `[a-z0-9]+[\._]?[a-z0-9]+` */
  const LocalPattern: Regex :=
    Concat(Repeat(LowerAlnum, 1, None),
      Concat(Repeat(Separator, 0, Some(1)), Repeat(LowerAlnum, 1, None)))

  /** `\w+[.]\w{1,6}` */
  const DomainPattern: Regex :=
    Concat(Repeat(Word, 1, None),
      Concat(Repeat(Dot, 1, Some(1)), Repeat(Word, 1, Some(6))))

  /** `[a-z0-9]+[\._]?[a-z0-9]+[@]\w+[.]\w{1,6}` */
  const EmailPattern: Regex :=
    Concat(LocalPattern, Concat(Repeat(AtSign, 1, Some(1)), DomainPattern))

  /**
   * `str.contains` with the anchored pattern: `^` pins the match to the
   * start, and `$` matches at the end or before one final newline. So a row
   * is kept exactly when its email, less at most one final newline, is a
   * local part, `@` and a domain.
   */
  predicate EmailMatches(s: string): (b: bool)
    ensures b <==> ValidEmail(s) || (|s| > 0 && s[|s| - 1] == '\n' && ValidEmail(s[..|s| - 1]))
  {
    EmailPatternIff(s);
    if |s| > 0 && s[|s| - 1] == '\n' then
      EmailPatternIff(s[..|s| - 1]);
      Matches(EmailPattern, s) || Matches(EmailPattern, s[..|s| - 1])
    else
      Matches(EmailPattern, s)
  }

  // The shape of a kept address, stated without regular expressions.

  predicate IsLowerAlnum(c: char) { 'a' <= c <= 'z' || '0' <= c <= '9' }

  predicate IsSeparator(c: char) { c == '.' || c == '_' }

  predicate IsWordChar(c: char) { 'a' <= c <= 'z' || 'A' <= c <= 'Z' || '0' <= c <= '9' || c == '_' }

  predicate AllWordChars(w: string) {
    forall i | 0 <= i < |w| :: IsWordChar(w[i])
  }

  /**
   * A local part: lowercase letters and digits, at least two of them, with
   * at most one `.` or `_`, which is neither first nor last.
   */
  predicate ValidLocal(l: string) {
    && |l| >= 2
    && IsLowerAlnum(l[0])
    && IsLowerAlnum(l[|l| - 1])
    && (forall i | 0 <= i < |l| :: IsLowerAlnum(l[i]) || IsSeparator(l[i]))
    && (forall i, j | 0 <= i < j < |l| && IsSeparator(l[i]) :: !IsSeparator(l[j]))
  }

  /** A domain: one or more word characters, one `.`, then one to six word characters. */
  predicate ValidDomain(d: string) {
    exists j | 0 <= j < |d| ::
      && d[j] == '.'
      && j >= 1 && AllWordChars(d[..j])
      && 1 <= |d| - j - 1 <= 6 && AllWordChars(d[j + 1..])
  }

  /** An address of the form local `@` domain. */
  predicate ValidEmail(s: string) {
    exists i | 0 <= i < |s| :: s[i] == '@' && ValidLocal(s[..i]) && ValidDomain(s[i + 1..])
  }

  /** A run of one class followed by the rest: the split at `k` matches. */
  lemma ConcatAt(left: Regex, right: Regex, s: string, k: nat)
    requires k <= |s| && Matches(left, s[..k]) && Matches(right, s[k..])
    ensures Matches(Concat(left, right), s)
  {
  }

  lemma LocalPatternSound(l: string)
    requires Matches(LocalPattern, l)
    ensures ValidLocal(l)
  {
    var first := Repeat(LowerAlnum, 1, None);
    var sep := Repeat(Separator, 0, Some(1));
    var last := Repeat(LowerAlnum, 1, None);
    var k1 :| 0 <= k1 <= |l| && Matches(first, l[..k1]) && Matches(Concat(sep, last), l[k1..]);
    var t := l[k1..];
    var k2 :| 0 <= k2 <= |t| && Matches(sep, t[..k2]) && Matches(last, t[k2..]);
    assert forall i | 0 <= i < k1 :: l[i] == l[..k1][i];
    assert forall i | k1 <= i < k1 + k2 :: l[i] == t[..k2][i - k1];
    assert forall i | k1 + k2 <= i < |l| :: l[i] == t[k2..][i - k1 - k2];
    LocalParts(l, k1, k2);
  }

  /** Letters or digits, at most one separator, then letters or digits, each run non-empty: a valid local part. */
  lemma LocalParts(l: string, k1: nat, k2: nat)
    requires 1 <= k1 && k2 <= 1 && k1 + k2 < |l|
    requires forall i | 0 <= i < k1 :: IsLowerAlnum(l[i])
    requires forall i | k1 <= i < k1 + k2 :: IsSeparator(l[i])
    requires forall i | k1 + k2 <= i < |l| :: IsLowerAlnum(l[i])
    ensures ValidLocal(l)
  {
    assert forall i | 0 <= i < |l| && IsSeparator(l[i]) :: i == k1;
  }

  lemma LocalPatternComplete(l: string)
    requires ValidLocal(l)
    ensures Matches(LocalPattern, l)
  {
    var first := Repeat(LowerAlnum, 1, None);
    var sep := Repeat(Separator, 0, Some(1));
    var last := Repeat(LowerAlnum, 1, None);
    if i :| 0 <= i < |l| && IsSeparator(l[i]) {
      assert forall j | 0 <= j < |l| && j != i :: IsLowerAlnum(l[j]);
      var t := l[i..];
      assert Matches(first, l[..i]);
      assert Matches(sep, t[..1]);
      assert Matches(last, t[1..]);
      ConcatAt(sep, last, t, 1);
      ConcatAt(first, Concat(sep, last), l, i);
    } else {
      var t := l[1..];
      assert Matches(first, l[..1]);
      assert Matches(sep, t[..0]);
      assert Matches(last, t[0..]);
      ConcatAt(sep, last, t, 0);
      ConcatAt(first, Concat(sep, last), l, 1);
    }
  }

  lemma DomainPatternSound(d: string)
    requires Matches(DomainPattern, d)
    ensures ValidDomain(d)
  {
    var name := Repeat(Word, 1, None);
    var dot := Repeat(Dot, 1, Some(1));
    var tld := Repeat(Word, 1, Some(6));
    var k1 :| 0 <= k1 <= |d| && Matches(name, d[..k1]) && Matches(Concat(dot, tld), d[k1..]);
    var t := d[k1..];
    var k2 :| 0 <= k2 <= |t| && Matches(dot, t[..k2]) && Matches(tld, t[k2..]);
    assert k2 == 1 && d[k1] == t[..k2][0];
    assert d[k1 + 1..] == t[k2..];
    assert d[k1] == '.' && k1 >= 1 && AllWordChars(d[..k1])
      && 1 <= |d| - k1 - 1 <= 6 && AllWordChars(d[k1 + 1..]);
  }

  lemma DomainPatternComplete(d: string)
    requires ValidDomain(d)
    ensures Matches(DomainPattern, d)
  {
    var name := Repeat(Word, 1, None);
    var dot := Repeat(Dot, 1, Some(1));
    var tld := Repeat(Word, 1, Some(6));
    var j :| 0 <= j < |d| && d[j] == '.' && j >= 1 && AllWordChars(d[..j])
      && 1 <= |d| - j - 1 <= 6 && AllWordChars(d[j + 1..]);
    var t := d[j..];
    assert t[..1] == ['.'];
    assert t[1..] == d[j + 1..];
    assert Matches(dot, t[..1]);
    assert Matches(tld, t[1..]);
    ConcatAt(dot, tld, t, 1);
    assert Matches(name, d[..j]);
    ConcatAt(name, Concat(dot, tld), d, j);
  }

  lemma EmailPatternSound(s: string)
    requires Matches(EmailPattern, s)
    ensures ValidEmail(s)
  {
    var at := Repeat(AtSign, 1, Some(1));
    var k :| 0 <= k <= |s| && Matches(LocalPattern, s[..k]) && Matches(Concat(at, DomainPattern), s[k..]);
    var t := s[k..];
    var k2 :| 0 <= k2 <= |t| && Matches(at, t[..k2]) && Matches(DomainPattern, t[k2..]);
    assert k2 == 1 && s[k] == t[..k2][0];
    assert t[k2..] == s[k + 1..];
    LocalPatternSound(s[..k]);
    DomainPatternSound(s[k + 1..]);
    assert s[k] == '@' && ValidLocal(s[..k]) && ValidDomain(s[k + 1..]);
  }

  lemma EmailPatternComplete(s: string)
    requires ValidEmail(s)
    ensures Matches(EmailPattern, s)
  {
    var at := Repeat(AtSign, 1, Some(1));
    var i :| 0 <= i < |s| && s[i] == '@' && ValidLocal(s[..i]) && ValidDomain(s[i + 1..]);
    LocalPatternComplete(s[..i]);
    DomainPatternComplete(s[i + 1..]);
    var t := s[i..];
    assert t[..1] == ['@'];
    assert t[1..] == s[i + 1..];
    assert Matches(at, t[..1]);
    ConcatAt(at, DomainPattern, t, 1);
    ConcatAt(LocalPattern, Concat(at, DomainPattern), s, i);
  }

  /** The email pattern matches exactly the addresses of the form local `@` domain. */
  lemma EmailPatternIff(s: string)
    ensures Matches(EmailPattern, s) <==> ValidEmail(s)
  {
    if Matches(EmailPattern, s) {
      EmailPatternSound(s);
    }
    if ValidEmail(s) {
      EmailPatternComplete(s);
    }
  }

  /**
   * A kept row and its position in the original table. `reset_index` adds the
   * old index label as the `index` column; under the default index 0..n-1
   * that label is the position.
   */
  datatype IndexedRow = IndexedRow(index: nat, row: Row)

  /** The rows of `rows` that satisfy `keep`, where the first row sits at position `offset` of the table. */
  function KeepFrom(rows: seq<Row>, offset: nat, keep: Row -> bool): (kept: seq<IndexedRow>)
    ensures |kept| <= |rows|
    decreases |rows|
  {
    if |rows| == 0 then []
    else
      var rest := KeepFrom(rows[1..], offset + 1, keep);
      if keep(rows[0]) then [IndexedRow(offset, rows[0])] + rest else rest
  }

  /** Every kept row is the row at its recorded position and satisfies `keep`. */
  predicate KeptFrom(kept: seq<IndexedRow>, rows: seq<Row>, offset: nat, keep: Row -> bool) {
    forall k | 0 <= k < |kept| ::
      && offset <= kept[k].index < offset + |rows|
      && kept[k].row == rows[kept[k].index - offset]
      && keep(kept[k].row)
  }

  /** `KeepFrom` keeps only rows that satisfy `keep`, each with its own position. */
  lemma {:induction false} KeepFromSound(rows: seq<Row>, offset: nat, keep: Row -> bool)
    ensures KeptFrom(KeepFrom(rows, offset, keep), rows, offset, keep)
    decreases |rows|
  {
    if |rows| > 0 {
      var rest := KeepFrom(rows[1..], offset + 1, keep);
      KeepFromSound(rows[1..], offset + 1, keep);
      var kept := KeepFrom(rows, offset, keep);
      forall k | 0 <= k < |kept|
        ensures offset <= kept[k].index < offset + |rows|
        ensures kept[k].row == rows[kept[k].index - offset]
        ensures keep(kept[k].row)
      {
        if keep(rows[0]) && k == 0 {
        } else {
          var k' := if keep(rows[0]) then k - 1 else k;
          assert kept[k] == rest[k'];
          var j := rest[k'].index - offset - 1;
          assert rows[1..][j] == rows[j + 1];
        }
      }
    }
  }

  /** The recorded positions strictly increase: the original order is kept. */
  predicate Ascending(kept: seq<IndexedRow>) {
    forall k, l | 0 <= k < l < |kept| :: kept[k].index < kept[l].index
  }

  /** No recorded position lies before `offset`. */
  predicate IndexedFrom(kept: seq<IndexedRow>, offset: nat) {
    forall k | 0 <= k < |kept| :: offset <= kept[k].index
  }

  /** `KeepFrom` keeps the rows in their original order. */
  lemma {:induction false} KeepFromAscending(rows: seq<Row>, offset: nat, keep: Row -> bool)
    ensures IndexedFrom(KeepFrom(rows, offset, keep), offset)
    ensures Ascending(KeepFrom(rows, offset, keep))
    decreases |rows|
  {
    if |rows| > 0 {
      var rest := KeepFrom(rows[1..], offset + 1, keep);
      KeepFromAscending(rows[1..], offset + 1, keep);
      var kept := KeepFrom(rows, offset, keep);
      if keep(rows[0]) {
        assert kept == [IndexedRow(offset, rows[0])] + rest;
        assert forall k | 1 <= k < |kept| :: kept[k] == rest[k - 1];
      }
    }
  }

  /** Every row that satisfies `keep` is kept. */
  predicate Covers(kept: seq<IndexedRow>, rows: seq<Row>, offset: nat, keep: Row -> bool) {
    forall i | 0 <= i < |rows| && keep(rows[i]) ::
      exists k | 0 <= k < |kept| :: kept[k].index == offset + i
  }

  /** `KeepFrom` drops no row that satisfies `keep`. */
  lemma {:induction false} KeepFromComplete(rows: seq<Row>, offset: nat, keep: Row -> bool)
    ensures Covers(KeepFrom(rows, offset, keep), rows, offset, keep)
    decreases |rows|
  {
    if |rows| > 0 {
      var rest := KeepFrom(rows[1..], offset + 1, keep);
      KeepFromComplete(rows[1..], offset + 1, keep);
      var kept := KeepFrom(rows, offset, keep);
      forall i | 0 <= i < |rows| && keep(rows[i])
        ensures exists k | 0 <= k < |kept| :: kept[k].index == offset + i
      {
        if i == 0 {
          assert kept[0].index == offset;
        } else {
          assert rows[1..][i - 1] == rows[i];
          var k' :| 0 <= k' < |rest| && rest[k'].index == offset + 1 + (i - 1);
          var k := if keep(rows[0]) then k' + 1 else k';
          assert kept[k] == rest[k'];
        }
      }
    }
  }

  predicate HasValidEmail(r: Row) {
    EmailMatches(r.email)
  }

  /**
   * `remove_rows_without_mail`: the rows whose email matches, in their
   * original order, each with its old position. The new table is numbered
   * 0..k-1 by its sequence positions; the input is left as it is.
   */
  function RemoveRowsWithoutMail(rows: seq<Row>): (kept: seq<IndexedRow>)
    ensures |kept| <= |rows|
    ensures forall k | 0 <= k < |kept| ::
      kept[k].index < |rows| && kept[k].row == rows[kept[k].index] && HasValidEmail(kept[k].row)
    ensures forall k, l | 0 <= k < l < |kept| :: kept[k].index < kept[l].index
    ensures forall i | 0 <= i < |rows| && HasValidEmail(rows[i]) ::
      exists k | 0 <= k < |kept| :: kept[k].index == i
  {
    KeepFromSound(rows, 0, HasValidEmail);
    KeepFromAscending(rows, 0, HasValidEmail);
    KeepFromComplete(rows, 0, HasValidEmail);
    KeepFrom(rows, 0, HasValidEmail)
  }

  /** The table of kept rows, without the column of old positions. */
  function RowsOf(kept: seq<IndexedRow>): (rows: seq<Row>)
    ensures |rows| == |kept|
    ensures forall k | 0 <= k < |kept| :: rows[k] == kept[k].row
  {
    seq(|kept|, k requires 0 <= k < |kept| => kept[k].row)
  }

  /** The rows of `rows`, each with its position counted from `offset`. */
  function Numbered(rows: seq<Row>, offset: nat): (r: seq<IndexedRow>)
    ensures |r| == |rows|
    ensures forall i | 0 <= i < |rows| :: r[i] == IndexedRow(offset + i, rows[i])
    decreases |rows|
  {
    if |rows| == 0 then [] else [IndexedRow(offset, rows[0])] + Numbered(rows[1..], offset + 1)
  }

  /** When every row satisfies `keep`, every row is kept at its own position. */
  lemma {:induction false} KeepAll(rows: seq<Row>, offset: nat, keep: Row -> bool)
    requires forall i | 0 <= i < |rows| :: keep(rows[i])
    ensures KeepFrom(rows, offset, keep) == Numbered(rows, offset)
    decreases |rows|
  {
    if |rows| > 0 {
      assert keep(rows[0]);
      assert forall i | 0 <= i < |rows| - 1 :: rows[1..][i] == rows[i + 1];
      KeepAll(rows[1..], offset + 1, keep);
    }
  }

  /**
   * Filtering the filtered table again keeps every row, in the same order,
   * and the old positions it records are the reset positions 0..k-1.
   */
  lemma FilterIdempotent(rows: seq<Row>)
    ensures RowsOf(RemoveRowsWithoutMail(RowsOf(RemoveRowsWithoutMail(rows))))
         == RowsOf(RemoveRowsWithoutMail(rows))
    ensures forall k | 0 <= k < |RemoveRowsWithoutMail(RowsOf(RemoveRowsWithoutMail(rows)))| ::
      RemoveRowsWithoutMail(RowsOf(RemoveRowsWithoutMail(rows)))[k].index == k
  {
    var once := RowsOf(RemoveRowsWithoutMail(rows));
    KeepAll(once, 0, HasValidEmail);
  }

  /** An address starts with a lowercase letter or digit, followed by another or by a separator. */
  lemma ValidEmailStart(s: string)
    requires ValidEmail(s)
    ensures |s| >= 2 && IsLowerAlnum(s[0]) && (IsLowerAlnum(s[1]) || IsSeparator(s[1]))
  {
    var i :| 0 <= i < |s| && s[i] == '@' && ValidLocal(s[..i]) && ValidDomain(s[i + 1..]);
    assert s[..i][0] == s[0] && s[..i][1] == s[1];
  }

  /** An address assembled from a valid local part and a valid domain. */
  lemma JoinValid(l: string, d: string)
    requires ValidLocal(l) && ValidDomain(d)
    ensures ValidEmail(l + "@" + d)
  {
    var s := l + "@" + d;
    assert s[..|l|] == l && s[|l| + 1..] == d;
  }

  lemma ExampleDomains()
    ensures ValidDomain("example.com") && ValidDomain("b.c")
  {
    assert "example.com"[..7] == "example" && "example.com"[8..] == "com";
    assert "b.c"[..1] == "b" && "b.c"[2..] == "c";
  }

  lemma ExampleLocals()
    ensures ValidLocal("john.doe") && ValidLocal("ab")
  {
  }

  lemma ExampleJoins()
    ensures "john.doe" + "@" + "example.com" == "john.doe@example.com"
    ensures "ab" + "@" + "b.c" == "ab@b.c"
  {
  }

  lemma ExamplesValid()
    ensures ValidEmail("john.doe@example.com") && ValidEmail("ab@b.c")
  {
    ExampleDomains();
    ExampleLocals();
    JoinValid("john.doe", "example.com");
    JoinValid("ab", "b.c");
    ExampleJoins();
  }

  /** Addresses the pattern keeps, one of them with a final newline. */
  lemma KeptExamples()
    ensures EmailMatches("john.doe@example.com")
    ensures EmailMatches("ab@b.c")
    ensures EmailMatches("ab@b.c\n")
  {
    ExamplesValid();
    assert "ab@b.c\n"[..6] == "ab@b.c";
  }

  /** Addresses the pattern drops: an uppercase first letter, and a one-letter local part. */
  lemma DroppedExamples()
    ensures !EmailMatches("John@example.com")
    ensures !EmailMatches("a@b.c")
  {
    var s1 := "John@example.com";
    if ValidEmail(s1) {
      ValidEmailStart(s1);
    }
    var s2 := "a@b.c";
    if ValidEmail(s2) {
      ValidEmailStart(s2);
    }
  }

  /** A top-level domain of seven characters is too long. */
  lemma LongDomainExample()
    ensures !ValidDomain("example.toolong")
  {
    var d := "example.toolong";
    forall j | 0 <= j < |d| && d[j] == '.' ensures j == 7 {
    }
  }
}
