/** The data frame after `df["Age Group"] = df["Age"].apply(categorize_age)`,
    boolean-mask row selection `df[mask]`, the year options of the sidebar
    and the year filter. */
module Table {
  import opened Population
  import opened Sorting

  /** A row of the frame with its derived "Age Group" column. */
  datatype Row = Row(id: int, age: int, gender: Gender, year: int, ageGroup: AgeGroup)

  /** The row's original columns, without "Age Group". */
  function Columns(row: Row): Record {
    Record(row.id, row.age, row.gender, row.year)
  }

  /** Every row's "Age Group" is the classifier applied to its own age. */
  predicate Consistent(rows: seq<Row>) {
    forall row | row in rows :: row.ageGroup == Categorize(row.age)
  }

  /** Adds the "Age Group" column: same number of rows, same order, same
      original columns, and each group computed from the row's age. */
  function WithAgeGroup(records: seq<Record>): (rows: seq<Row>)
    ensures |rows| == |records|
    ensures forall i | 0 <= i < |rows| :: Columns(rows[i]) == records[i]
    ensures Consistent(rows)
  {
    var rows := seq(|records|, i requires 0 <= i < |records| =>
                      Row(records[i].id, records[i].age, records[i].gender, records[i].year,
                          Categorize(records[i].age)));
    assert forall i | 0 <= i < |rows| :: rows[i].ageGroup == Categorize(rows[i].age);
    rows
  }

  /** The column is determined: any frame that keeps the records in order
      and derives each group from the age is the one `WithAgeGroup` builds. */
  lemma {:induction false} WithAgeGroupUnique(records: seq<Record>, rows: seq<Row>)
    requires |rows| == |records| && Consistent(rows)
    requires forall i | 0 <= i < |rows| :: Columns(rows[i]) == records[i]
    ensures rows == WithAgeGroup(records)
  {
    var w := WithAgeGroup(records);
    forall i | 0 <= i < |rows| ensures rows[i] == w[i] {
      assert rows[i] in rows && w[i] in w;
      assert Columns(w[i]) == records[i];
    }
  }

  /** `r` is `s` with some elements removed, the rest kept in order. */
  predicate IsSubsequence<T(==)>(r: seq<T>, s: seq<T>)
    decreases |s|
  {
    r == [] || (s != [] && ((r[0] == s[0] && IsSubsequence(r[1..], s[1..])) || IsSubsequence(r, s[1..])))
  }

  /** `df[mask]`: the rows for which `keep` holds, in their original order. */
  function Select(rows: seq<Row>, keep: Row -> bool): (r: seq<Row>)
    ensures |r| <= |rows|
    ensures forall x | x in r :: x in rows && keep(x)
  {
    if rows == [] then []
    else
      assert rows == [rows[0]] + rows[1..];
      var rest := Select(rows[1..], keep);
      if keep(rows[0]) then [rows[0]] + rest else rest
  }

  /** The selection keeps the surviving rows in their original order. */
  lemma {:induction false} SelectIsSubsequence(rows: seq<Row>, keep: Row -> bool)
    ensures IsSubsequence(Select(rows, keep), rows)
    decreases |rows|
  {
    if rows != [] {
      SelectIsSubsequence(rows[1..], keep);
      var rest := Select(rows[1..], keep);
      if keep(rows[0]) {
        assert ([rows[0]] + rest)[1..] == rest;
      }
    }
  }

  /** Each row the mask keeps occurs in the selection as often as in the
      frame; each row it rejects does not occur at all. */
  lemma {:induction false} SelectCounts(rows: seq<Row>, keep: Row -> bool)
    ensures forall x :: multiset(Select(rows, keep))[x] == if keep(x) then multiset(rows)[x] else 0
    decreases |rows|
  {
    if rows != [] {
      SelectCounts(rows[1..], keep);
      assert rows == [rows[0]] + rows[1..];
    }
  }

  /** The first row counts towards a selection exactly when it passes. */
  lemma SelectStep(rows: seq<Row>, keep: Row -> bool)
    requires rows != []
    ensures |Select(rows, keep)| == (if keep(rows[0]) then 1 else 0) + |Select(rows[1..], keep)|
  {
  }

  /** Selection distributes over concatenation; with the one-row cases this
      determines `Select` completely. */
  lemma {:induction false} SelectAppend(a: seq<Row>, b: seq<Row>, keep: Row -> bool)
    ensures Select(a + b, keep) == Select(a, keep) + Select(b, keep)
    decreases |a|
  {
    if a == [] {
      assert a + b == b;
    } else {
      var ab := a + b;
      assert ab[0] == a[0] && ab[1..] == a[1..] + b;
      SelectAppend(a[1..], b, keep);
      var sa, sb := Select(a[1..], keep), Select(b, keep);
      if keep(a[0]) {
        calc {
          Select(ab, keep);
          [a[0]] + Select(a[1..] + b, keep);
          [a[0]] + (sa + sb);
          { assert [a[0]] + (sa + sb) == ([a[0]] + sa) + sb; }
          Select(a, keep) + sb;
        }
      }
    }
  }

  /** Masks that agree on every row select the same rows. */
  lemma {:induction false} SelectAgree(rows: seq<Row>, p: Row -> bool, q: Row -> bool)
    requires forall x | x in rows :: p(x) == q(x)
    ensures Select(rows, p) == Select(rows, q)
    decreases |rows|
  {
    if rows != [] {
      assert forall x | x in rows[1..] :: x in rows;
      SelectAgree(rows[1..], p, q);
    }
  }

  /** Complementary masks split the rows: their selections add up to all. */
  lemma {:induction false} SelectComplement(rows: seq<Row>, p: Row -> bool, q: Row -> bool)
    requires forall x :: p(x) == !q(x)
    ensures |Select(rows, p)| + |Select(rows, q)| == |rows|
    decreases |rows|
  {
    if rows != [] {
      SelectComplement(rows[1..], p, q);
    }
  }

  /** Disjoint masks select at most all rows between them. */
  lemma {:induction false} SelectDisjoint(rows: seq<Row>, p: Row -> bool, q: Row -> bool)
    requires forall x :: !(p(x) && q(x))
    ensures |Select(rows, p)| + |Select(rows, q)| <= |rows|
    decreases |rows|
  {
    if rows != [] {
      SelectDisjoint(rows[1..], p, q);
    }
  }

  /** The rows that pass a mask keep their "Age Group" consistent. */
  lemma SelectConsistent(rows: seq<Row>, keep: Row -> bool)
    requires Consistent(rows)
    ensures Consistent(Select(rows, keep))
  {
    forall x | x in Select(rows, keep) ensures x.ageGroup == Categorize(x.age) {
      assert x in multiset(Select(rows, keep));
    }
  }

  /** The sidebar's choice: "All" or one year. */
  datatype Selection = All | OnlyYear(year: int)

  /** The mask `df["Year"] == year`. */
  function InYear(year: int): Row -> bool {
    (row: Row) => row.year == year
  }

  /** `df["Year"]`. */
  function YearsOf(rows: seq<Row>): (years: seq<int>)
    ensures |years| == |rows|
    ensures forall i | 0 <= i < |rows| :: years[i] == rows[i].year
  {
    if rows == [] then [] else [rows[0].year] + YearsOf(rows[1..])
  }

  /** No value occurs twice. */
  predicate Distinct<T(==)>(s: seq<T>) {
    forall i, j | 0 <= i < j < |s| :: s[i] != s[j]
  }

  /** `unique()`: each value of the column, once. */
  function Unique(s: seq<int>): (u: seq<int>)
    ensures Distinct(u)
    ensures forall y :: y in u <==> y in s
  {
    if s == [] then []
    else
      var u := Unique(s[..|s| - 1]);
      var x := s[|s| - 1];
      assert s == s[..|s| - 1] + [x];
      if x in u then u else u + [x]
  }

  /** The sort key of a year option: `key=int`. */
  function YearKey(year: int): int {
    year
  }

  /** `sorted(df["Year"].unique().tolist(), key=int)`: every year of the
      frame, each once, in strictly ascending order. */
  function SortedYears(rows: seq<Row>): (years: seq<int>)
    ensures forall y :: y in years <==> y in YearsOf(rows)
    ensures StrictlySortedBy(years, YearKey)
  {
    var distinct := Unique(YearsOf(rows));
    assert KeysDistinct(distinct, YearKey);
    var years := SortBy(distinct, YearKey);
    assert forall y | y in years :: y in multiset(distinct);
    assert forall y | y in distinct :: y in multiset(years);
    years
  }

  /** The sidebar's options: "All", then every year present in the frame
      exactly once, in strictly ascending order. */
  function YearOptions(rows: seq<Row>): (options: seq<Selection>)
    ensures |options| >= 1 && options[0] == All
    ensures forall i | 1 <= i < |options| :: options[i].OnlyYear?
    ensures forall y :: OnlyYear(y) in options <==> y in YearsOf(rows)
    ensures forall i, j | 1 <= i < j < |options| :: options[i].year < options[j].year
  {
    var years := SortedYears(rows);
    assert forall i, j | 0 <= i < j < |years| :: years[i] < years[j] by {
      forall i, j | 0 <= i < j < |years| ensures years[i] < years[j] {
        assert YearKey(years[i]) < YearKey(years[j]);
      }
    }
    var options := [All] + seq(|years|, i requires 0 <= i < |years| => OnlyYear(years[i]));
    assert forall i | 1 <= i < |options| :: options[i] == OnlyYear(years[i - 1]);
    assert forall y :: OnlyYear(y) in options <==> y in years by {
      forall y ensures OnlyYear(y) in options <==> y in years {
        if y in years {
          var k :| 0 <= k < |years| && years[k] == y;
          assert options[k + 1] == OnlyYear(y);
        }
      }
    }
    options
  }

  /** `if year_filter != "All": df = df[df["Year"] == year_filter]`. */
  function ApplyYearFilter(rows: seq<Row>, selection: Selection): (view: seq<Row>)
    ensures selection == All ==> view == rows
    ensures selection.OnlyYear? ==>
              IsSubsequence(view, rows) &&
              forall x :: multiset(view)[x] == if x.year == selection.year then multiset(rows)[x] else 0
  {
    if selection == All then rows
    else
      SelectIsSubsequence(rows, InYear(selection.year));
      SelectCounts(rows, InYear(selection.year));
      Select(rows, InYear(selection.year))
  }

  /** Choosing an offered year never leaves the view empty; a year that is
      not in the frame gives an empty view rather than an error. */
  lemma YearFilterNonEmpty(rows: seq<Row>, year: int)
    ensures OnlyYear(year) in YearOptions(rows) <==> ApplyYearFilter(rows, OnlyYear(year)) != []
  {
    var view := ApplyYearFilter(rows, OnlyYear(year));
    if OnlyYear(year) in YearOptions(rows) {
      var i :| 0 <= i < |rows| && YearsOf(rows)[i] == year;
      assert rows[i] in multiset(rows);
      assert multiset(view)[rows[i]] > 0;
    }
    if view != [] {
      var x := view[0];
      assert x in multiset(view);
      assert x in multiset(rows) && x.year == year;
      var i :| 0 <= i < |rows| && rows[i] == x;
      assert YearsOf(rows)[i] == year;
    }
  }
}
