/** The synthetic population: the records `generate_data` builds, the
    age-band classifier `categorize_age`, and the labels and canonical
    order of the four age bands. */
module Population {

  /** The two values the generator draws for the "Gender" column. */
  datatype Gender = Male | Female

  /** One generated row before the "Age Group" column is added. The
      "Year" column holds `str(year)` for a year in 1960..2024; it is
      modelled by the integer it spells, so that `key=int` is the identity
      and comparing year strings is comparing integers. */
  datatype Record = Record(id: int, age: int, gender: Gender, year: int)

  /** The four age bands, labelled "0-14", "15-29", "30-59" and "60+". */
  datatype AgeGroup = Age0To14 | Age15To29 | Age30To59 | Age60Plus

  /** Number of generated records (`n = 17000`). */
  const PopulationSize: nat := 17000
  /** `randint(0, 90)` draws ages from [0, 90). */
  const AgeLimit: int := 90
  /** `range(1960, 2025)` offers the years 1960..2024. */
  const FirstYear: int := 1960
  const LastYear: int := 2024

  /** The age-band classifier: an if/elif chain, total on all integers;
      a negative age lands in the first band. */
  function Categorize(age: int): (g: AgeGroup)
    ensures g == Age0To14 <==> age <= 14
    ensures g == Age15To29 <==> 15 <= age <= 29
    ensures g == Age30To59 <==> 30 <= age <= 59
    ensures g == Age60Plus <==> 60 <= age
  {
    if age <= 14 then Age0To14
    else if 15 <= age <= 29 then Age15To29
    else if 30 <= age <= 59 then Age30To59
    else Age60Plus
  }

  /** The string the classifier returns for a band. */
  function Label(g: AgeGroup): string {
    match g
    case Age0To14 => "0-14"
    case Age15To29 => "15-29"
    case Age30To59 => "30-59"
    case Age60Plus => "60+"
  }

  /** The string stored in the "Gender" column. */
  function GenderLabel(g: Gender): string {
    match g
    case Male => "Male"
    case Female => "Female"
  }

  /** `age_order`, the fixed display order of the age-group bars. */
  const AgeOrder: seq<string> := ["0-14", "15-29", "30-59", "60+"]

  /** The four bands in that order. */
  const AllAgeGroups: seq<AgeGroup> := [Age0To14, Age15To29, Age30To59, Age60Plus]

  /** Position of `name` in `order`, or `|order|` when it is absent: the
      lookup in `{v: i for i, v in enumerate(age_order)}`. */
  function IndexOf(order: seq<string>, name: string): (i: nat)
    ensures i <= |order|
    ensures i < |order| ==> order[i] == name && name !in order[..i]
    ensures i == |order| <==> name !in order
  {
    if order == [] then 0
    else if order[0] == name then 0
    else
      assert order == [order[0]] + order[1..];
      1 + IndexOf(order[1..], name)
  }

  /** The sort key of a band: the position of its label in `age_order`. */
  function Rank(g: AgeGroup): (r: int)
    ensures 0 <= r < |AgeOrder| && AgeOrder[r] == Label(g) && AllAgeGroups[r] == g
  {
    IndexOf(AgeOrder, Label(g))
  }

  /** Each band has its own label, and the labels are exactly `age_order`. */
  lemma LabelsAreAgeOrder()
    ensures forall g, h :: Label(g) == Label(h) ==> g == h
    ensures forall i | 0 <= i < |AllAgeGroups| :: Label(AllAgeGroups[i]) == AgeOrder[i]
    ensures forall g :: g in AllAgeGroups
  {
    forall g, h | Label(g) == Label(h) ensures g == h {
      assert Label(g)[..2] == Label(h)[..2];
    }
    forall g ensures g in AllAgeGroups {
      assert AllAgeGroups[Rank(g)] == g;
    }
  }

  /** The rank of a band is its position in `AllAgeGroups`. */
  lemma RankIsPosition()
    ensures forall i | 0 <= i < |AllAgeGroups| :: Rank(AllAgeGroups[i]) == i
  {
    forall i | 0 <= i < |AllAgeGroups| ensures Rank(AllAgeGroups[i]) == i {
      var r := Rank(AllAgeGroups[i]);
      assert AllAgeGroups[r] == AllAgeGroups[i];
    }
  }

  /** The rank of each band, written out. */
  lemma RankValues()
    ensures Rank(Age0To14) == 0 && Rank(Age15To29) == 1 && Rank(Age30To59) == 2 && Rank(Age60Plus) == 3
  {
    RankIsPosition();
    assert AllAgeGroups[0] == Age0To14 && AllAgeGroups[1] == Age15To29;
    assert AllAgeGroups[2] == Age30To59 && AllAgeGroups[3] == Age60Plus;
  }

  /** Older never means a lower band: the classifier is monotone in the age
      with respect to the canonical order. */
  lemma CategorizeMonotone(a: int, b: int)
    requires a <= b
    ensures Rank(Categorize(a)) <= Rank(Categorize(b))
  {
    var ra, rb := Rank(Categorize(a)), Rank(Categorize(b));
    assert AllAgeGroups[ra] == Categorize(a) && AllAgeGroups[rb] == Categorize(b);
  }

  /** Python's comparison of strings: lexicographic by code point. */
  predicate StringLess(a: string, b: string) {
    if a == [] then b != []
    else if b == [] then false
    else if a[0] != b[0] then a[0] < b[0]
    else StringLess(a[1..], b[1..])
  }

  /** For these four labels alphabetical order and `age_order` coincide. */
  lemma LabelOrderIsRankOrder(g: AgeGroup, h: AgeGroup)
    ensures StringLess(Label(g), Label(h)) <==> Rank(g) < Rank(h)
  {
    var rg, rh := Rank(g), Rank(h);
    assert AllAgeGroups[rg] == g && AllAgeGroups[rh] == h;
  }

  /** Position of a gender in the sorted "Gender" column. */
  function GenderRank(g: Gender): nat {
    match g
    case Female => 0
    case Male => 1
  }

  /** "Female" sorts before "Male", so alphabetical order of the gender
      labels is the order of `GenderRank`. */
  lemma GenderOrderIsRankOrder(g: Gender, h: Gender)
    ensures StringLess(GenderLabel(g), GenderLabel(h)) <==> GenderRank(g) < GenderRank(h)
  {
    assert StringLess("Female", "Male") && !StringLess("Male", "Female");
  }

  /** What `generate_data` guarantees of every row: ids 1..n in order,
      ages in [0, 90), years in 1960..2024 (genders are Male or Female by
      their type). */
  predicate WellFormed(records: seq<Record>) {
    forall i | 0 <= i < |records| ::
      records[i].id == i + 1 && 0 <= records[i].age < AgeLimit &&
      FirstYear <= records[i].year <= LastYear
  }

  /** `generate_data` with its random draws passed in: column i of each
      draw becomes the i-th record, whose id is i + 1. */
  function Generate(ages: seq<int>, genders: seq<Gender>, years: seq<int>): (records: seq<Record>)
    requires |ages| == |genders| == |years|
    ensures |records| == |ages|
    ensures WellFormed(records) <==>
              (forall i | 0 <= i < |ages| :: 0 <= ages[i] < AgeLimit) &&
              (forall i | 0 <= i < |years| :: FirstYear <= years[i] <= LastYear)
    ensures forall i | 0 <= i < |records| ::
              records[i].id == i + 1 && records[i].age == ages[i] &&
              records[i].gender == genders[i] && records[i].year == years[i]
  {
    var records := seq(|ages|, i requires 0 <= i < |ages| => Record(i + 1, ages[i], genders[i], years[i]));
    assert forall i | 0 <= i < |ages| :: records[i] == Record(i + 1, ages[i], genders[i], years[i]);
    records
  }
}
