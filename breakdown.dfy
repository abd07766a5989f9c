/** The two grouped breakdowns behind the charts:
    `df.groupby(["Gender", "Age Group"]).size()` and
    `df["Age Group"].value_counts()` re-sorted by `age_order`. */
module Breakdown {
  import opened Population
  import opened Sorting
  import opened Table

  /** One row of a grouped count: a group's key and its size. */
  datatype Entry<K> = Entry(key: K, count: nat)

  /** The mask "the row's key is `k`". */
  function HasKey<K(==)>(key: Row -> K, k: K): Row -> bool {
    (row: Row) => key(row) == k
  }

  /** The size of the group of rows whose key is `k`. */
  function CountKey<K(==)>(rows: seq<Row>, key: Row -> K, k: K): nat {
    |Select(rows, HasKey(key, k))|
  }

  /** `groupby(key).size()` over the candidate keys `keys`: one entry per key
      that some row has, in the order of `keys`, with the size of its group;
      keys with an empty group are left out. */
  function GroupSizes<K(==)>(rows: seq<Row>, key: Row -> K, keys: seq<K>): (entries: seq<Entry<K>>)
    ensures forall e | e in entries :: e.key in keys && e.count > 0 && e.count == CountKey(rows, key, e.key)
    ensures forall k | k in keys && CountKey(rows, key, k) > 0 :: Entry(k, CountKey(rows, key, k)) in entries
  {
    if keys == [] then []
    else
      var c := CountKey(rows, key, keys[0]);
      var rest := GroupSizes(rows, key, keys[1..]);
      assert forall k | k in keys :: k == keys[0] || k in keys[1..];
      if c > 0 then [Entry(keys[0], c)] + rest else rest
  }

  /** The entries' keys strictly increase under `rank`. */
  predicate OrderedBy<K>(entries: seq<Entry<K>>, rank: K -> int) {
    forall i, j | 0 <= i < j < |entries| :: rank(entries[i].key) < rank(entries[j].key)
  }

  /** Entries keep the relative order of their keys in `keys`. */
  lemma {:induction false} GroupSizesOrdered<K>(rows: seq<Row>, key: Row -> K, keys: seq<K>, rank: K -> int)
    requires forall i, j | 0 <= i < j < |keys| :: rank(keys[i]) < rank(keys[j])
    ensures OrderedBy(GroupSizes(rows, key, keys), rank)
    decreases |keys|
  {
    if keys != [] {
      GroupSizesOrdered(rows, key, keys[1..], rank);
      var c := CountKey(rows, key, keys[0]);
      if c > 0 {
        LaterKeysRankHigher(rows, key, keys, rank);
        OrderedCons(Entry(keys[0], c), GroupSizes(rows, key, keys[1..]), rank);
      }
    }
  }

  /** The entries built from the later keys all rank above the first key. */
  lemma LaterKeysRankHigher<K>(rows: seq<Row>, key: Row -> K, keys: seq<K>, rank: K -> int)
    requires keys != []
    requires forall i, j | 0 <= i < j < |keys| :: rank(keys[i]) < rank(keys[j])
    ensures forall e | e in GroupSizes(rows, key, keys[1..]) :: rank(keys[0]) < rank(e.key)
  {
    forall e | e in GroupSizes(rows, key, keys[1..]) ensures rank(keys[0]) < rank(e.key) {
      var j :| 0 <= j < |keys[1..]| && keys[1..][j] == e.key;
      assert keys[j + 1] == e.key;
    }
  }

  /** An entry ranking below every entry of an ordered table can go in front. */
  lemma OrderedCons<K>(head: Entry<K>, rest: seq<Entry<K>>, rank: K -> int)
    requires OrderedBy(rest, rank)
    requires forall e | e in rest :: rank(head.key) < rank(e.key)
    ensures OrderedBy([head] + rest, rank)
  {
    var entries := [head] + rest;
    forall i, j | 0 <= i < j < |entries| ensures rank(entries[i].key) < rank(entries[j].key) {
      assert entries[j] == rest[j - 1];
      assert rest[j - 1] in rest;
      if i > 0 {
        assert entries[i] == rest[i - 1];
      }
    }
  }

  /** Sum of the counts of a grouped table. */
  function SumCounts<K>(entries: seq<Entry<K>>): nat {
    if entries == [] then 0 else entries[0].count + SumCounts(entries[1..])
  }

  /** Sum of the group sizes of the keys `keys`, empty groups included. */
  function KeyTotal<K(==)>(rows: seq<Row>, key: Row -> K, keys: seq<K>): nat {
    if keys == [] then 0 else CountKey(rows, key, keys[0]) + KeyTotal(rows, key, keys[1..])
  }

  /** How often `k` occurs in `keys`. */
  function Occurrences<K(==)>(k: K, keys: seq<K>): nat {
    if keys == [] then 0 else (if keys[0] == k then 1 else 0) + Occurrences(k, keys[1..])
  }

  /** Leaving out the empty groups does not change the sum. */
  lemma {:induction false} GroupSizesSum<K>(rows: seq<Row>, key: Row -> K, keys: seq<K>)
    ensures SumCounts(GroupSizes(rows, key, keys)) == KeyTotal(rows, key, keys)
    decreases |keys|
  {
    if keys != [] {
      GroupSizesSum(rows, key, keys[1..]);
      var rest := GroupSizes(rows, key, keys[1..]);
      var c := CountKey(rows, key, keys[0]);
      if c > 0 {
        assert ([Entry(keys[0], c)] + rest)[1..] == rest;
      }
    }
  }

  /** Removing the first row takes it out of exactly as many groups as
      `keys` lists its key. */
  lemma {:induction false} KeyTotalStep<K>(rows: seq<Row>, key: Row -> K, keys: seq<K>)
    requires rows != []
    ensures KeyTotal(rows, key, keys) == Occurrences(key(rows[0]), keys) + KeyTotal(rows[1..], key, keys)
    decreases |keys|
  {
    if keys != [] {
      KeyTotalStep(rows, key, keys[1..]);
    }
  }

  /** No rows, no group members. */
  lemma {:induction false} KeyTotalOfNoRows<K>(key: Row -> K, keys: seq<K>)
    ensures KeyTotal([], key, keys) == 0
    decreases |keys|
  {
    if keys != [] {
      KeyTotalOfNoRows(key, keys[1..]);
    }
  }

  /** A key listed once, in a list without duplicates, occurs once. */
  lemma {:induction false} OccursOnce<K>(k: K, keys: seq<K>)
    requires Distinct(keys) && k in keys
    ensures Occurrences(k, keys) == 1
    decreases |keys|
  {
    if keys[0] == k {
      NotOccurring(k, keys[1..]);
    } else {
      OccursOnce(k, keys[1..]);
    }
  }

  /** A key not listed does not occur. */
  lemma {:induction false} NotOccurring<K>(k: K, keys: seq<K>)
    requires k !in keys
    ensures Occurrences(k, keys) == 0
    decreases |keys|
  {
    if keys != [] {
      NotOccurring(k, keys[1..]);
    }
  }

  /** When the candidate keys have no duplicates and cover every row, the
      group sizes add up to the number of rows. */
  lemma {:induction false} KeyTotalIsSize<K>(rows: seq<Row>, key: Row -> K, keys: seq<K>)
    requires Distinct(keys)
    requires forall row | row in rows :: key(row) in keys
    ensures KeyTotal(rows, key, keys) == |rows|
    decreases |rows|
  {
    if rows == [] {
      KeyTotalOfNoRows(key, keys);
    } else {
      KeyTotalStep(rows, key, keys);
      OccursOnce(key(rows[0]), keys);
      assert forall row | row in rows[1..] :: row in rows;
      KeyTotalIsSize(rows[1..], key, keys);
    }
  }

  // ----- Population by gender and age group -----

  /** The grouping key `["Gender", "Age Group"]`. */
  function GenderAndAgeGroup(row: Row): (Gender, AgeGroup) {
    (row.gender, row.ageGroup)
  }

  /** All eight keys, in the order `groupby` sorts them: by gender label,
      then by age-group label. */
  const AllPairs: seq<(Gender, AgeGroup)> := [
    (Female, Age0To14), (Female, Age15To29), (Female, Age30To59), (Female, Age60Plus),
    (Male, Age0To14), (Male, Age15To29), (Male, Age30To59), (Male, Age60Plus)]

  /** Python's order on the pair of labels: gender label first, then
      age-group label. */
  predicate LabelPairLess(p: (Gender, AgeGroup), q: (Gender, AgeGroup)) {
    StringLess(GenderLabel(p.0), GenderLabel(q.0)) ||
    (GenderLabel(p.0) == GenderLabel(q.0) && StringLess(Label(p.1), Label(q.1)))
  }

  /** Position of a key in the sorted key list. */
  function PairRank(p: (Gender, AgeGroup)): int {
    4 * GenderRank(p.0) + Rank(p.1)
  }

  /** Comparing the label pairs is comparing positions. */
  lemma PairOrderIsLabelOrder(p: (Gender, AgeGroup), q: (Gender, AgeGroup))
    ensures LabelPairLess(p, q) <==> PairRank(p) < PairRank(q)
  {
    GenderOrderIsRankOrder(p.0, q.0);
    LabelOrderIsRankOrder(p.1, q.1);
    assert GenderLabel(p.0) == GenderLabel(q.0) <==> p.0 == q.0;
  }

  /** `AllPairs` is sorted: the i-th pair has rank i. */
  lemma AllPairsRanks()
    ensures forall i | 0 <= i < |AllPairs| :: PairRank(AllPairs[i]) == i
  {
    RankValues();
  }

  /** `AllPairs` lists every key once, in label order. */
  lemma AllPairsSorted()
    ensures forall p: (Gender, AgeGroup) :: p in AllPairs
    ensures forall i, j | 0 <= i < j < |AllPairs| :: PairRank(AllPairs[i]) < PairRank(AllPairs[j])
    ensures Distinct(AllPairs)
  {
    AllPairsRanks();
    forall p: (Gender, AgeGroup) ensures p in AllPairs {
      var r := PairRank(p);
      assert 0 <= r < 8 by {
        RankValues();
      }
      assert PairRank(AllPairs[r]) == r;
    }
  }

  /** `df.groupby(["Gender", "Age Group"]).size()`. */
  function GenderAgeBreakdown(rows: seq<Row>): seq<Entry<(Gender, AgeGroup)>> {
    GroupSizes(rows, GenderAndAgeGroup, AllPairs)
  }

  /** Each (gender, age group) pair that occurs is listed once, in label
      order, with the positive number of rows that have it; the counts add
      up to the total. */
  lemma GenderAgeBreakdownFacts(rows: seq<Row>)
    ensures var bd := GenderAgeBreakdown(rows);
            (forall i, j | 0 <= i < j < |bd| :: LabelPairLess(bd[i].key, bd[j].key)) &&
            (forall e | e in bd :: e.count > 0 && e.count == CountKey(rows, GenderAndAgeGroup, e.key)) &&
            (forall p :: CountKey(rows, GenderAndAgeGroup, p) > 0 ==>
                           Entry(p, CountKey(rows, GenderAndAgeGroup, p)) in bd) &&
            SumCounts(bd) == |rows|
  {
    var bd := GenderAgeBreakdown(rows);
    AllPairsSorted();
    GroupSizesOrdered(rows, GenderAndAgeGroup, AllPairs, PairRank);
    forall i, j | 0 <= i < j < |bd| ensures LabelPairLess(bd[i].key, bd[j].key) {
      PairOrderIsLabelOrder(bd[i].key, bd[j].key);
    }
    GroupSizesSum(rows, GenderAndAgeGroup, AllPairs);
    KeyTotalIsSize(rows, GenderAndAgeGroup, AllPairs);
  }

  // ----- Population by age group -----

  /** The grouping key "Age Group". */
  function AgeGroupOf(row: Row): AgeGroup {
    row.ageGroup
  }

  /** The sort key `age_order.index(label)` of a bar. */
  function EntryRank(e: Entry<AgeGroup>): int {
    Rank(e.key)
  }

  /** `value_counts()` orders by descending count. */
  function DescendingCount(e: Entry<AgeGroup>): int {
    -(e.count as int)
  }

  /** The age-group table in `age_order`: one entry per band that occurs. */
  function CanonicalAgeCounts(rows: seq<Row>): seq<Entry<AgeGroup>> {
    GroupSizes(rows, AgeGroupOf, AllAgeGroups)
  }

  /** What `value_counts()` promises whatever order it lists the bands in:
      one entry per band that occurs, with that band's positive count. */
  ghost predicate IsCountTable(rows: seq<Row>, table: seq<Entry<AgeGroup>>) {
    (forall e | e in table :: e.count > 0 && e.count == CountKey(rows, AgeGroupOf, e.key)) &&
    (forall g :: CountKey(rows, AgeGroupOf, g) > 0 ==> Entry(g, CountKey(rows, AgeGroupOf, g)) in table) &&
    (forall e :: multiset(table)[e] <= 1)
  }

  /** The canonical table is strictly ordered by rank, and is a count table. */
  lemma CanonicalAgeCountsFacts(rows: seq<Row>)
    ensures StrictlySortedBy(CanonicalAgeCounts(rows), EntryRank)
    ensures IsCountTable(rows, CanonicalAgeCounts(rows))
    ensures SumCounts(CanonicalAgeCounts(rows)) == |rows|
  {
    var c := CanonicalAgeCounts(rows);
    CanonicalAgeCountsOrdered(rows);
    forall e ensures multiset(c)[e] <= 1 {
      StrictlySortedOccursOnce(c, EntryRank, e);
    }
    CanonicalAgeCountsComplete(rows);
    CanonicalAgeCountsSum(rows);
  }

  /** The canonical table follows `age_order`. */
  lemma CanonicalAgeCountsOrdered(rows: seq<Row>)
    ensures StrictlySortedBy(CanonicalAgeCounts(rows), EntryRank)
  {
    var c := CanonicalAgeCounts(rows);
    RankIsPosition();
    assert forall i, j | 0 <= i < j < |AllAgeGroups| :: Rank(AllAgeGroups[i]) < Rank(AllAgeGroups[j]);
    GroupSizesOrdered(rows, AgeGroupOf, AllAgeGroups, Rank);
    forall i, j | 0 <= i < j < |c| ensures EntryRank(c[i]) < EntryRank(c[j]) {
      assert Rank(c[i].key) < Rank(c[j].key);
    }
  }

  /** Every band that occurs has its entry in the canonical table. */
  lemma CanonicalAgeCountsComplete(rows: seq<Row>)
    ensures forall g :: CountKey(rows, AgeGroupOf, g) > 0 ==> Entry(g, CountKey(rows, AgeGroupOf, g)) in CanonicalAgeCounts(rows)
  {
    LabelsAreAgeOrder();
  }

  /** The canonical table's counts add up to the number of rows. */
  lemma CanonicalAgeCountsSum(rows: seq<Row>)
    ensures SumCounts(CanonicalAgeCounts(rows)) == |rows|
  {
    LabelsAreAgeOrder();
    RankIsPosition();
    assert Distinct(AllAgeGroups);
    GroupSizesSum(rows, AgeGroupOf, AllAgeGroups);
    KeyTotalIsSize(rows, AgeGroupOf, AllAgeGroups);
  }

  /** `df["Age Group"].value_counts()`. */
  function ValueCounts(rows: seq<Row>): (table: seq<Entry<AgeGroup>>)
    ensures IsCountTable(rows, table)
  {
    var table := SortBy(CanonicalAgeCounts(rows), DescendingCount);
    CanonicalAgeCountsFacts(rows);
    assert forall e :: e in table <==> e in CanonicalAgeCounts(rows) by {
      forall e ensures e in table <==> e in CanonicalAgeCounts(rows) {
        assert e in table <==> e in multiset(table);
      }
    }
    table
  }

  /** Sorting any count table by `age_order` rank gives the canonical
      table: the bars come out in the fixed order "0-14", "15-29",
      "30-59", "60+", whatever order `value_counts()` used. */
  lemma {:induction false} RankSortIsCanonical(rows: seq<Row>, table: seq<Entry<AgeGroup>>)
    requires IsCountTable(rows, table)
    ensures SortBy(table, EntryRank) == CanonicalAgeCounts(rows)
  {
    var c := CanonicalAgeCounts(rows);
    CanonicalAgeCountsFacts(rows);
    CountTableKeysDistinct(rows, table);
    var sorted := SortBy(table, EntryRank);
    CountTablePermuted(rows, table, sorted);
    CountTablesAgree(rows, sorted, c);
    StrictlySortedUnique(sorted, c, EntryRank);
  }

  /** A count table lists each band at most once. */
  lemma CountTableKeysDistinct(rows: seq<Row>, table: seq<Entry<AgeGroup>>)
    requires IsCountTable(rows, table)
    ensures KeysDistinct(table, EntryRank)
  {
    LabelsAreAgeOrder();
    forall i, j | 0 <= i < j < |table| ensures EntryRank(table[i]) != EntryRank(table[j]) {
      if table[i].key == table[j].key {
        assert table[i] in table && table[j] in table;
        RepeatedElementOccursTwice(table, i, j);
      }
    }
  }

  /** Reordering a count table leaves a count table. */
  lemma CountTablePermuted(rows: seq<Row>, t: seq<Entry<AgeGroup>>, u: seq<Entry<AgeGroup>>)
    requires IsCountTable(rows, t) && multiset(t) == multiset(u)
    ensures IsCountTable(rows, u)
  {
    forall e ensures e in u <==> e in t {
      assert e in u <==> e in multiset(u);
      assert e in t <==> e in multiset(t);
    }
  }

  /** Two count tables of the same rows hold the same entries. */
  lemma CountTablesAgree(rows: seq<Row>, t: seq<Entry<AgeGroup>>, u: seq<Entry<AgeGroup>>)
    requires IsCountTable(rows, t) && IsCountTable(rows, u)
    ensures forall e :: e in t <==> e in u
  {
  }

  /** The age-group chart: `value_counts()` sorted by `age_order`. */
  function AgeGroupChart(rows: seq<Row>): seq<Entry<AgeGroup>> {
    SortBy(ValueCounts(rows), EntryRank)
  }

  /** The chart lists the bands that occur in strictly increasing
      `age_order` rank, each with its positive count, and the counts add up
      to the total. */
  lemma AgeGroupChartFacts(rows: seq<Row>)
    ensures var chart := AgeGroupChart(rows);
            StrictlySortedBy(chart, EntryRank) &&
            IsCountTable(rows, chart) &&
            SumCounts(chart) == |rows|
  {
    RankSortIsCanonical(rows, ValueCounts(rows));
    CanonicalAgeCountsFacts(rows);
  }
}
