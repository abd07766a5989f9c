/** The dashboard script end to end, for one choice in the sidebar: add
    the "Age Group" column, offer the year options, filter, then compute
    the metrics and the data of the two charts. */
module Dashboard {
  import opened Population
  import opened Sorting
  import opened Table
  import opened Breakdown
  import opened Metrics

  /** What the page shows, as plain data: the year options, the five
      metrics and the two charts' tables. */
  datatype View = View(options: seq<Selection>, headline: Headline,
                       genderAge: seq<Entry<(Gender, AgeGroup)>>, ageGroups: seq<Entry<AgeGroup>>)

  /** The frame the metrics and charts are computed from. */
  function Shown(records: seq<Record>, selection: Selection): (shown: seq<Row>)
    ensures Consistent(shown)
    ensures |shown| <= |records|
    ensures selection == All ==> |shown| == |records|
  {
    var rows := WithAgeGroup(records);
    if selection.OnlyYear? then
      SelectConsistent(rows, InYear(selection.year));
      ApplyYearFilter(rows, selection)
    else
      ApplyYearFilter(rows, selection)
  }

  /** The script from top to bottom. The options come from the unfiltered
      frame; everything else from the filtered one. */
  function Render(records: seq<Record>, selection: Selection): View {
    var shown := Shown(records, selection);
    View(YearOptions(WithAgeGroup(records)), Summarize(shown), GenderAgeBreakdown(shown), AgeGroupChart(shown))
  }

  /** The script as it runs: `df` gains its "Age Group" column, the options
      are read from it, and only a year choice rebinds `df` to the filtered
      frame before the metrics and charts are computed. */
  method RunScript(records: seq<Record>, selection: Selection) returns (view: View)
    ensures view == Render(records, selection)
    ensures view.headline.total <= |records|
    ensures view.options[0] == All
  {
    var df := WithAgeGroup(records);
    var options := YearOptions(df);
    if selection != All {
      df := Select(df, InYear(selection.year));
    }
    var headline := Summarize(df);
    var genderAge := GenderAgeBreakdown(df);
    var ageGroups := AgeGroupChart(df);
    view := View(options, headline, genderAge, ageGroups);
  }

  /** The parts of the page agree with each other: both charts add up to
      the total population, the "0-14" and "60+" bars are the child and
      senior metrics, and filtering only ever removes rows. */
  lemma RenderAgrees(records: seq<Record>, selection: Selection)
    ensures var v := Render(records, selection);
            && v.headline.total <= |records|
            && (selection == All ==> v.headline.total == |records|)
            && SumCounts(v.genderAge) == v.headline.total
            && SumCounts(v.ageGroups) == v.headline.total
            && (v.headline.children == 0 || Entry(Age0To14, v.headline.children) in v.ageGroups)
            && (v.headline.seniors == 0 || Entry(Age60Plus, v.headline.seniors) in v.ageGroups)
  {
    var rows := WithAgeGroup(records);
    var shown := Shown(records, selection);
    if selection.OnlyYear? {
      SelectConsistent(rows, InYear(selection.year));
    }
    assert Consistent(shown);
    GenderAgeBreakdownFacts(shown);
    AgeGroupChartFacts(shown);
    MetricsMatchAgeGroups(shown);
  }

  /** A year offered in the sidebar shows exactly that year's rows, and at
      least one of them. */
  lemma OfferedYearShowsItsRows(records: seq<Record>, year: int)
    requires OnlyYear(year) in Render(records, All).options
    ensures var shown := Shown(records, OnlyYear(year));
            && shown != []
            && (forall row | row in shown :: row.year == year)
            && IsSubsequence(shown, WithAgeGroup(records))
  {
    YearFilterNonEmpty(WithAgeGroup(records), year);
  }

  /** Strictly increasing integers within [lo, hi] number at most hi - lo + 1. */
  lemma {:induction false} StrictlyIncreasingBound(s: seq<int>, lo: int, hi: int)
    requires forall i, j | 0 <= i < j < |s| :: s[i] < s[j]
    requires forall i | 0 <= i < |s| :: lo <= s[i] <= hi
    requires lo <= hi + 1
    ensures |s| <= hi - lo + 1
    decreases |s|
  {
    if s != [] {
      StrictlyIncreasingBound(s[1..], s[0] + 1, hi);
    }
  }

  /** On data from `generate_data` every offered year lies in 1960..2024,
      so the sidebar offers at most 66 choices, and with "All" selected
      the total is the number of generated records. */
  lemma WellFormedRender(records: seq<Record>, selection: Selection)
    requires WellFormed(records)
    ensures var v := Render(records, selection);
            && (forall i | 1 <= i < |v.options| :: FirstYear <= v.options[i].year <= LastYear)
            && |v.options| <= LastYear - FirstYear + 2
            && (selection == All ==> v.headline.total == |records|)
  {
    OptionsWithinYears(records);
    OptionsBound(records);
  }

  /** For well-formed data the sidebar offers at most 66 choices. */
  lemma OptionsBound(records: seq<Record>)
    requires WellFormed(records)
    ensures |YearOptions(WithAgeGroup(records))| <= LastYear - FirstYear + 2
  {
    var options := YearOptions(WithAgeGroup(records));
    OptionsWithinYears(records);
    assert forall i | 1 <= i < |options| :: options[i].OnlyYear?;
    YearChoicesBound(options, FirstYear, LastYear);
  }

  /** "All" followed by strictly increasing years within [lo, hi] is at most
      hi - lo + 2 choices. */
  lemma YearChoicesBound(options: seq<Selection>, lo: int, hi: int)
    requires |options| >= 1 && lo <= hi + 1
    requires forall i | 1 <= i < |options| :: options[i].OnlyYear?
    requires forall i, j | 1 <= i < j < |options| :: options[i].year < options[j].year
    requires forall i | 1 <= i < |options| :: lo <= options[i].year <= hi
    ensures |options| <= hi - lo + 2
  {
    var years := seq(|options| - 1, i requires 0 <= i < |options| - 1 => options[i + 1].year);
    assert forall i, j | 0 <= i < j < |years| :: years[i] < years[j] by {
      forall i, j | 0 <= i < j < |years| ensures years[i] < years[j] {
        assert options[i + 1].year < options[j + 1].year;
      }
    }
    StrictlyIncreasingBound(years, lo, hi);
  }

  /** Every year offered for well-formed data lies in 1960..2024. */
  lemma OptionsWithinYears(records: seq<Record>)
    requires WellFormed(records)
    ensures var options := YearOptions(WithAgeGroup(records));
            forall i | 1 <= i < |options| :: FirstYear <= options[i].year <= LastYear
  {
    var rows := WithAgeGroup(records);
    var options := YearOptions(rows);
    forall i | 1 <= i < |options| ensures FirstYear <= options[i].year <= LastYear {
      assert OnlyYear(options[i].year) in options;
      var k :| 0 <= k < |rows| && YearsOf(rows)[k] == options[i].year;
      assert Columns(rows[k]) == records[k];
    }
  }
}
