/** The five headline metrics: total, male, female, child (0-14) and
    senior (60+) population of the filtered frame. */
module Metrics {
  import opened Population
  import opened Table
  import opened Breakdown

  /** The raw counts behind the five metric tiles. */
  datatype Headline = Headline(total: nat, male: nat, female: nat, children: nat, seniors: nat)

  /** The mask `df["Gender"] == "Male"`. */
  predicate IsMale(row: Row) {
    row.gender == Male
  }

  /** The mask `df["Gender"] == "Female"`. */
  predicate IsFemale(row: Row) {
    row.gender == Female
  }

  /** The mask `df["Age"] <= 14`. */
  predicate IsChild(row: Row) {
    row.age <= 14
  }

  /** The mask `df["Age"] >= 60`. */
  predicate IsSenior(row: Row) {
    row.age >= 60
  }

  /** Each metric is `len(df[mask])` for its mask. Every row is male or
      female, so those two add up to the total; no row is both a child and
      a senior, so those two add up to at most the total. */
  function Summarize(rows: seq<Row>): (h: Headline)
    ensures h.total == |rows|
    ensures h.male + h.female == h.total
    ensures h.children + h.seniors <= h.total
  {
    SelectComplement(rows, IsMale, IsFemale);
    SelectDisjoint(rows, IsChild, IsSenior);
    Headline(|rows|, |Select(rows, IsMale)|, |Select(rows, IsFemale)|,
             |Select(rows, IsChild)|, |Select(rows, IsSenior)|)
  }

  /** The child metric, computed from the age, is the size of the "0-14"
      group, and the senior metric the size of the "60+" group, as long as
      every row's group was derived from its age. */
  lemma MetricsMatchAgeGroups(rows: seq<Row>)
    requires Consistent(rows)
    ensures Summarize(rows).children == CountKey(rows, AgeGroupOf, Age0To14)
    ensures Summarize(rows).seniors == CountKey(rows, AgeGroupOf, Age60Plus)
  {
    forall x | x in rows ensures IsChild(x) == HasKey(AgeGroupOf, Age0To14)(x) {
      assert x.ageGroup == Categorize(x.age);
      assert HasKey(AgeGroupOf, Age0To14)(x) == (AgeGroupOf(x) == Age0To14);
    }
    forall x | x in rows ensures IsSenior(x) == HasKey(AgeGroupOf, Age60Plus)(x) {
      assert x.ageGroup == Categorize(x.age);
      assert HasKey(AgeGroupOf, Age60Plus)(x) == (AgeGroupOf(x) == Age60Plus);
    }
    SelectAgree(rows, IsChild, HasKey(AgeGroupOf, Age0To14));
    SelectAgree(rows, IsSenior, HasKey(AgeGroupOf, Age60Plus));
  }

  /** The sum of the gender × age-group bars of gender `g`. */
  function GenderBarsTotal(rows: seq<Row>, g: Gender): nat {
    CountKey(rows, GenderAndAgeGroup, (g, Age0To14)) + CountKey(rows, GenderAndAgeGroup, (g, Age15To29)) +
    CountKey(rows, GenderAndAgeGroup, (g, Age30To59)) + CountKey(rows, GenderAndAgeGroup, (g, Age60Plus))
  }

  /** A gender mask selects as many rows as that gender's four bars hold. */
  lemma {:induction false} GenderSplitsByAgeGroup(rows: seq<Row>, isGender: Row -> bool, g: Gender)
    requires forall x :: isGender(x) == (x.gender == g)
    ensures |Select(rows, isGender)| == GenderBarsTotal(rows, g)
    decreases |rows|
  {
    if rows != [] {
      GenderSplitsByAgeGroup(rows[1..], isGender, g);
      SelectStep(rows, isGender);
      PairCountStep(rows, (g, Age0To14));
      PairCountStep(rows, (g, Age15To29));
      PairCountStep(rows, (g, Age30To59));
      PairCountStep(rows, (g, Age60Plus));
    }
  }

  /** The first row adds one to the bar of its own (gender, age group) pair
      and nothing to the others. */
  lemma PairCountStep(rows: seq<Row>, p: (Gender, AgeGroup))
    requires rows != []
    ensures CountKey(rows, GenderAndAgeGroup, p) ==
              (if rows[0].gender == p.0 && rows[0].ageGroup == p.1 then 1 else 0) +
              CountKey(rows[1..], GenderAndAgeGroup, p)
  {
    SelectStep(rows, HasKey(GenderAndAgeGroup, p));
    assert HasKey(GenderAndAgeGroup, p)(rows[0]) == (GenderAndAgeGroup(rows[0]) == p);
    assert GenderAndAgeGroup(rows[0]) == (rows[0].gender, rows[0].ageGroup);
  }

  /** The male and female metrics are the sizes of the gender groups summed
      over the age groups of the gender × age-group breakdown. */
  lemma GenderMetricsSplitByAgeGroup(rows: seq<Row>)
    ensures Summarize(rows).male == GenderBarsTotal(rows, Male)
    ensures Summarize(rows).female == GenderBarsTotal(rows, Female)
  {
    GenderSplitsByAgeGroup(rows, IsMale, Male);
    GenderSplitsByAgeGroup(rows, IsFemale, Female);
  }
}
