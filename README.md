# Population dashboard: the aggregation pipeline in Dafny

`app.py` is a Streamlit page that summarises a synthetic population of
17000 records `(ID, Age, Gender, Year)`. Inside the page code there is a
small data pipeline. This project models that pipeline as pure functions
over `seq<Row>` and proves what each step promises:

- `categorize_age` maps every integer age to one of the four bands
  "0-14", "15-29", "30-59" and "60+" (`Population.Categorize`).
- The "Age Group" column keeps the rows and their order, and each row's
  group is derived from its own age (`Table.WithAgeGroup`).
- The sidebar offers "All" and then the distinct years of the unfiltered
  frame in ascending numeric order (`Table.YearOptions`).
- The year filter is the identity for "All". Otherwise it keeps, in order,
  exactly the rows of that year (`Table.ApplyYearFilter`).
- Five headline counts are computed (`Metrics.Summarize`).
- `groupby(["Gender", "Age Group"]).size()` is modelled by
  `Breakdown.GenderAgeBreakdown`.
- `value_counts()` of "Age Group", re-sorted by the fixed order
  `age_order`, is modelled by `Breakdown.AgeGroupChart`.

`Dashboard.Render` composes the steps as the script runs them, and
`Dashboard.RunScript` is the same script written as statements, with its
rebinding of `df`.

Modules, one per stage: `Sorting` (Python's `sorted` and pandas'
`sort_values` as a stable insertion sort by an integer key), `Population`
(records, age bands, labels, ranks, what `generate_data` guarantees),
`Table` (the frame, boolean-mask selection, year options and filter),
`Breakdown` (grouped counts), `Metrics` (the five tiles) and `Dashboard`
(the whole script).

Edge cases, as the code handles them:

- A negative age is classified "0-14", because the first branch is
  `age <= 14`; the code raises no error.
- A year that is not in the frame yields an empty frame: the code applies
  the mask without checking the selection. `Table.YearFilterNonEmpty`
  proves that an offered year never yields an empty frame.
- `groupby` leaves out empty groups, and so does the model.

## Model

| member | source | states |
|---|---|---|
| Population.Categorize | app.py:31-39 | the result is "0-14" iff age <= 14, "15-29" iff 15 <= age <= 29, "30-59" iff 30 <= age <= 59, "60+" iff age >= 60; total on all integers, so negative ages give "0-14" |
| Population.CategorizeMonotone | app.py:31-39 | an older age never falls in an earlier band of `age_order` |
| Population.IndexOf | app.py:87 | the position of a label in `age_order`, whose labels are distinct and include every band's label (see `Population.LabelsAreAgeOrder`), so the first position is the only one |
| Population.Label | app.py:33-39 | the label the classifier returns for a band; `Population.LabelsAreAgeOrder` proves the labels distinct and equal to `age_order` |
| Population.GenderLabel | app.py:23 | the "Gender" column's string; `Population.GenderOrderIsRankOrder` proves "Female" sorts first |
| Population.Rank | app.py:85-87 | a band's sort key is the position of its label in `age_order` |
| Population.LabelsAreAgeOrder | app.py:85 | the four labels are distinct and, in band order, are exactly `age_order`; every band is listed |
| Population.RankIsPosition | app.py:85 | the rank of the i-th band is i |
| Population.LabelOrderIsRankOrder | app.py:85-87 | alphabetical order of the labels coincides with `age_order` (both directions) |
| Population.GenderOrderIsRankOrder | app.py:65 | "Female" sorts before "Male", the order in which `groupby` lists genders |
| Population.WellFormed | app.py:17-26 | ids 1..n in order, ages in [0, 90), years in 1960..2024; `Population.Generate` proves a generated table has it iff the draws are in range |
| Population.Generate | app.py:17-26 | record i gets id i + 1 and the i-th draws; the result is well formed iff every age draw is in [0, 90) and every year draw is in 1960..2024 |
| Table.WithAgeGroup | app.py:41 | same length, each row keeps the original record's columns at the same index, and each row's group is `categorize_age` of its own age |
| Table.WithAgeGroupUnique | app.py:41 | any frame with those three properties is the one the column assignment produces |
| Table.InYear | app.py:47 | the mask `df["Year"] == year`; `Table.ApplyYearFilter` states what selecting with it keeps |
| Table.Select | app.py:47 | `df[mask]` is no longer than the frame and holds only rows of the frame that pass the mask |
| Table.SelectIsSubsequence | app.py:47 | `df[mask]` keeps the surviving rows in their original order |
| Table.SelectCounts | app.py:47 | each row passing the mask occurs in `df[mask]` exactly as often as in the frame, and each failing row does not occur |
| Table.SelectAppend | app.py:47 | selection distributes over concatenation, so it keeps the rows in their original order |
| Table.SelectAgree | app.py:53-54 | masks that agree on every row select the same rows |
| Table.SelectComplement | app.py:50-52 | two complementary masks split the frame: their counts add up to `len(df)` |
| Table.SelectDisjoint | app.py:53-54 | two disjoint masks count at most `len(df)` rows between them |
| Table.SelectConsistent | app.py:41-47 | filtering keeps every row's "Age Group" derived from its age |
| Table.SelectStep | app.py:50-54 | the first row counts towards `len(df[mask])` exactly when it passes the mask |
| Table.YearsOf | app.py:45 | the "Year" column: one value per row, the i-th being row i's year |
| Table.Unique | app.py:45 | `unique()` has no duplicates and holds exactly the values of the column |
| Table.SortedYears | app.py:45 | the sorted unique years are exactly the frame's years, in strictly ascending order |
| Table.YearOptions | app.py:45 | the options are "All" followed only by years, each year of the unfiltered frame appears iff it occurs there, in strictly ascending order |
| Table.ApplyYearFilter | app.py:46-47 | "All" returns the frame unchanged; a year returns a subsequence holding each row of that year as often as the frame does and no other row |
| Table.YearFilterNonEmpty | app.py:45-47 | a year is offered iff filtering by it leaves at least one row |
| Sorting.Insert | app.py:45 | insertion adds exactly the one element (multiset) |
| Sorting.InsertElements | app.py:45 | insertion adds nothing but the inserted element |
| Sorting.InsertSorted | app.py:45 | inserting into a sorted list keeps it sorted |
| Sorting.InsertStrictlySorted | app.py:45 | inserting a new key into a strictly sorted list keeps it strictly sorted |
| Sorting.TailKeysDistinct | app.py:45 | dropping the first element keeps the keys distinct |
| Sorting.HeadKeyIsNew | app.py:45 | with distinct keys, the first element's key differs from every key of a permutation of the rest |
| Sorting.SortBy | app.py:45 | `sorted(..., key=int)` returns a permutation ordered by the key, strictly ordered when the keys are distinct |
| Sorting.StrictlySortedUnique | app.py:87 | two lists strictly ordered by the same key with the same elements are equal, so sorting by `age_order` rank has one outcome |
| Sorting.StrictlySortedOccursOnce | app.py:87 | a list strictly ordered by a key has no repeated element |
| Sorting.RepeatedElementOccursTwice | app.py:81 | an element at two positions occurs at least twice |
| Breakdown.GroupSizes | app.py:65 | `groupby(...).size()` lists only candidate keys that some row has, each with the positive size of its group, and lists every such key |
| Breakdown.GroupSizesOrdered | app.py:65 | the grouped table keeps the order of the candidate keys |
| Breakdown.LaterKeysRankHigher | app.py:65 | the groups of the later candidate keys all rank above the first key |
| Breakdown.OrderedCons | app.py:65 | a group ranking below every group of an ordered table can be listed first |
| Breakdown.GroupSizesSum | app.py:65 | leaving out empty groups does not change the sum of the sizes |
| Breakdown.KeyTotalStep | app.py:65 | removing a row removes it from as many groups as its key is listed |
| Breakdown.KeyTotalOfNoRows | app.py:65 | an empty frame has only empty groups |
| Breakdown.OccursOnce | app.py:65 | a listed key in a duplicate-free list occurs once |
| Breakdown.NotOccurring | app.py:65 | an unlisted key occurs zero times |
| Breakdown.KeyTotalIsSize | app.py:65 | when the keys are distinct and cover every row, the group sizes add up to `len(df)` |
| Breakdown.PairOrderIsLabelOrder | app.py:65 | ordering (gender, age group) keys by their labels, gender first, is ordering them by position in the sorted key list |
| Breakdown.AllPairsRanks | app.py:65 | the i-th of the eight keys has position i |
| Breakdown.AllPairsSorted | app.py:65 | the eight keys cover every (gender, age group) pair, without duplicates, in sorted order |
| Breakdown.GenderAgeBreakdown | app.py:65 | `groupby(["Gender", "Age Group"]).size()` over the eight keys in sorted order; `Breakdown.GenderAgeBreakdownFacts` states its contract |
| Breakdown.GenderAgeBreakdownFacts | app.py:65 | the gender by age-group table lists each occurring pair once, in label order, with its positive row count, and its counts sum to `len(df)` |
| Breakdown.CanonicalAgeCounts | app.py:81-87 | the age-group counts listed in `age_order`; `Breakdown.CanonicalAgeCountsFacts` states its contract |
| Breakdown.CanonicalAgeCountsFacts | app.py:81-87 | the table in `age_order` is strictly ordered by rank, is a valid `value_counts()` table and sums to `len(df)` |
| Breakdown.CanonicalAgeCountsOrdered | app.py:85-87 | the table in `age_order` is strictly ordered by rank |
| Breakdown.CanonicalAgeCountsComplete | app.py:81 | every age group that occurs has its entry with its count |
| Breakdown.CanonicalAgeCountsSum | app.py:81 | the age-group counts sum to `len(df)` |
| Breakdown.ValueCounts | app.py:81-82 | `value_counts()` gives one entry per occurring age group, with its positive count, and no entry twice |
| Breakdown.CountTableKeysDistinct | app.py:81 | `value_counts()` lists each age group at most once |
| Breakdown.CountTablePermuted | app.py:81-87 | reordering a `value_counts()` table leaves a valid `value_counts()` table |
| Breakdown.CountTablesAgree | app.py:81 | two valid `value_counts()` tables of the same frame hold the same entries |
| Breakdown.RankSortIsCanonical | app.py:85-87 | whatever order `value_counts()` lists the groups in, sorting by `age_order` rank yields the same table, in the order "0-14", "15-29", "30-59", "60+" |
| Breakdown.AgeGroupChart | app.py:81-87 | `value_counts()` re-sorted by `age_order` rank; `Breakdown.RankSortIsCanonical` and `Breakdown.AgeGroupChartFacts` state its contract |
| Breakdown.AgeGroupChartFacts | app.py:81-87 | the age-group bars are strictly increasing in `age_order` rank, have the exact positive counts, and sum to `len(df)` |
| Metrics.IsMale | app.py:51 | the mask `df["Gender"] == "Male"`; `Metrics.GenderSplitsByAgeGroup` relates its count to the breakdown |
| Metrics.IsFemale | app.py:52 | the mask `df["Gender"] == "Female"`; `Metrics.GenderSplitsByAgeGroup` relates its count to the breakdown |
| Metrics.IsChild | app.py:53 | the mask `df["Age"] <= 14`; `Metrics.MetricsMatchAgeGroups` equates its count with the "0-14" group |
| Metrics.IsSenior | app.py:54 | the mask `df["Age"] >= 60`; `Metrics.MetricsMatchAgeGroups` equates its count with the "60+" group |
| Metrics.Summarize | app.py:50-54 | total is `len(df)`; male + female == total; children + seniors <= total |
| Metrics.MetricsMatchAgeGroups | app.py:53-54 | the child count (age <= 14) is the size of group "0-14" and the senior count (age >= 60) that of group "60+" |
| Metrics.PairCountStep | app.py:65 | the first row adds one to the group of its own (gender, age group) pair and nothing to any other |
| Metrics.GenderSplitsByAgeGroup | app.py:51-65 | a gender mask selects as many rows as that gender's four age-group groups hold together |
| Metrics.GenderMetricsSplitByAgeGroup | app.py:51-65 | the male and female counts are the sums of their four bars in the gender by age-group chart |
| Dashboard.Shown | app.py:41-47 | the frame behind the metrics and charts: every row's "Age Group" derived from its age, no more rows than records, all of them under "All" |
| Dashboard.Render | app.py:41-87 | the script's outputs composed from the steps above; `Dashboard.RenderAgrees` and `Dashboard.WellFormedRender` state its contract |
| Dashboard.RunScript | app.py:41-87 | running the script statement by statement gives the composed result; the total never exceeds the number of records; the first option is "All" |
| Dashboard.RenderAgrees | app.py:41-87 | both charts sum to the total, the "0-14" and "60+" bars equal the child and senior metrics, the total is at most the number of records, and it equals it under "All" |
| Dashboard.OfferedYearShowsItsRows | app.py:45-47 | an offered year shows a non-empty, order-preserving selection of rows all of that year |
| Dashboard.StrictlyIncreasingBound | app.py:45 | strictly increasing integers within [lo, hi] number at most hi - lo + 1 |
| Dashboard.YearChoicesBound | app.py:45 | "All" followed by strictly increasing years within [lo, hi] gives at most hi - lo + 2 choices |
| Dashboard.OptionsWithinYears | app.py:24-45 | on generated data every offered year lies in 1960..2024 |
| Dashboard.OptionsBound | app.py:24-45 | on generated data the sidebar offers at most 66 choices |
| Dashboard.WellFormedRender | app.py:17-50 | on generated data the options lie in 1960..2024, there are at most 66 of them, and "All" shows every record |

## Left out

- Page setup, markdown headers, sidebar widget, column layout and chart display (app.py:7-13, 44, 56, 64, 77, 80, 98) are user-interface code.
- Plotly figure construction and colour maps (app.py:67-76, 86-97) are left out. Only the sort key at app.py:87 is modelled.
- The random draws of `generate_data` (app.py:18, 22-24) become parameters of `Population.Generate`. The seed and the reproducibility of the draws are not modelled.
- The `@st.cache_data` memoisation (app.py:16) is left out, because it is framework caching with no effect on values.
- The display format `f"{x / 1000:.2f}K"` (app.py:57-61) is floating-point presentation; only the raw integer counts are modelled.
- The "Year" column holds strings. They are modelled by the integers they spell, because the generator writes them with `str(year)`, so `key=int` and string equality reduce to integer order and equality.
- Gender is a two-valued datatype, so a gender outside {Male, Female} cannot be represented.
- Population.IndexOf: it returns the first position of a label and, for an absent label, the list length. The dictionary comprehension at app.py:87 keeps the last position of a repeated label, and `map` gives NaN for an absent one. The two agree on `age_order`, whose labels are distinct and cover every band.
- Table.Unique: the order of first appearance that `unique()` keeps is not stated, because the options are sorted right after (app.py:45).
- Breakdown.ValueCounts: pandas orders `value_counts()` by descending count and leaves the order of ties unspecified. The model sorts by descending count stably, and `Breakdown.IsCountTable` with `Breakdown.RankSortIsCanonical` proves that the chart does not depend on that order.
- Dashboard.RunScript: the source assigns the "Age Group" column into `df` in place and overwrites `age_group_count.columns`. The model builds new values instead, so it does not capture aliasing of the frame.
