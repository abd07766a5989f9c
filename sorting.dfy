/** Sorting by an integer key: the model of Python's `sorted(xs, key=k)`,
    which orders the year options, and of pandas' `sort_values(key=k)`,
    which orders the age-group bars. Both are modelled by one stable
    insertion sort; all the dashboard needs from it is that the result is
    a permutation of the input, ordered by the key. */
module Sorting {

  /** Keys never decrease from left to right. */
  predicate SortedBy<T>(s: seq<T>, key: T -> int) {
    forall i, j | 0 <= i < j < |s| :: key(s[i]) <= key(s[j])
  }

  /** Keys strictly increase from left to right. */
  predicate StrictlySortedBy<T>(s: seq<T>, key: T -> int) {
    forall i, j | 0 <= i < j < |s| :: key(s[i]) < key(s[j])
  }

  /** No two positions of `s` carry the same key. */
  predicate KeysDistinct<T>(s: seq<T>, key: T -> int) {
    forall i, j | 0 <= i < j < |s| :: key(s[i]) != key(s[j])
  }

  /** Puts `x` in front of the first element whose key is at least x's. */
  function Insert<T>(x: T, s: seq<T>, key: T -> int): (r: seq<T>)
    ensures |r| == |s| + 1
    ensures multiset(r) == multiset(s) + multiset{x}
  {
    if s == [] || key(x) <= key(s[0]) then [x] + s
    else
      assert s == [s[0]] + s[1..];
      [s[0]] + Insert(x, s[1..], key)
  }

  /** Every element of `Insert(x, s, key)` is `x` or an element of `s`. */
  lemma InsertElements<T>(x: T, s: seq<T>, key: T -> int)
    ensures forall y | y in Insert(x, s, key) :: y == x || y in s
  {
    var r := Insert(x, s, key);
    forall y | y in r ensures y == x || y in s {
      assert y in multiset(r);
    }
  }

  /** Inserting into a sorted sequence keeps it sorted. */
  lemma {:induction false} InsertSorted<T>(x: T, s: seq<T>, key: T -> int)
    requires SortedBy(s, key)
    ensures SortedBy(Insert(x, s, key), key)
    decreases |s|
  {
    if s != [] && key(x) > key(s[0]) {
      InsertSorted(x, s[1..], key);
      var t := Insert(x, s[1..], key);
      InsertElements(x, s[1..], key);
      assert forall y | y in s[1..] :: key(s[0]) <= key(y);
      assert forall k | 0 <= k < |t| :: key(s[0]) <= key(t[k]) by {
        forall k | 0 <= k < |t| ensures key(s[0]) <= key(t[k]) {
          assert t[k] in t;
        }
      }
      assert Insert(x, s, key) == [s[0]] + t;
    }
  }

  /** Inserting a new key into a strictly sorted sequence keeps it strictly
      sorted. */
  lemma {:induction false} InsertStrictlySorted<T>(x: T, s: seq<T>, key: T -> int)
    requires StrictlySortedBy(s, key)
    requires forall y | y in s :: key(y) != key(x)
    ensures StrictlySortedBy(Insert(x, s, key), key)
    decreases |s|
  {
    if s == [] {
    } else if key(x) <= key(s[0]) {
      assert key(x) < key(s[0]);
    } else {
      assert forall y | y in s[1..] :: y in s;
      InsertStrictlySorted(x, s[1..], key);
      var t := Insert(x, s[1..], key);
      InsertElements(x, s[1..], key);
      assert forall y | y in s[1..] :: key(s[0]) < key(y);
      assert forall k | 0 <= k < |t| :: key(s[0]) < key(t[k]) by {
        forall k | 0 <= k < |t| ensures key(s[0]) < key(t[k]) {
          assert t[k] in t;
        }
      }
      assert Insert(x, s, key) == [s[0]] + t;
    }
  }

  /** Insertion sort; an element is inserted in front of later elements with
      an equal key, so the sort is stable. */
  function SortBy<T>(s: seq<T>, key: T -> int): (r: seq<T>)
    ensures |r| == |s|
    ensures multiset(r) == multiset(s)
    ensures SortedBy(r, key)
    ensures KeysDistinct(s, key) ==> StrictlySortedBy(r, key)
  {
    if s == [] then []
    else
      var t := SortBy(s[1..], key);
      assert s == [s[0]] + s[1..];
      InsertSorted(s[0], t, key);
      if KeysDistinct(s, key) then
        TailKeysDistinct(s, key);
        HeadKeyIsNew(s, t, key);
        InsertStrictlySorted(s[0], t, key);
        Insert(s[0], t, key)
      else
        Insert(s[0], t, key)
  }

  /** Dropping the head keeps the keys distinct. */
  lemma TailKeysDistinct<T>(s: seq<T>, key: T -> int)
    requires s != [] && KeysDistinct(s, key)
    ensures KeysDistinct(s[1..], key)
  {
    forall i, j | 0 <= i < j < |s[1..]| ensures key(s[1..][i]) != key(s[1..][j]) {
      assert s[1..][i] == s[i + 1] && s[1..][j] == s[j + 1];
    }
  }

  /** With distinct keys, the head's key is not the key of any element of a
      permutation of the tail. */
  lemma HeadKeyIsNew<T>(s: seq<T>, t: seq<T>, key: T -> int)
    requires s != [] && multiset(t) == multiset(s[1..]) && KeysDistinct(s, key)
    ensures forall y | y in t :: key(y) != key(s[0])
  {
    forall y | y in t ensures key(y) != key(s[0]) {
      assert y in multiset(s[1..]);
      var j :| 1 <= j < |s| && s[j] == y;
    }
  }

  /** A sequence that is strictly ordered by some key is determined by the
      set of its elements. */
  lemma {:induction false} StrictlySortedUnique<T>(r: seq<T>, t: seq<T>, key: T -> int)
    requires StrictlySortedBy(r, key) && StrictlySortedBy(t, key)
    requires forall y :: y in r <==> y in t
    ensures r == t
    decreases |r|
  {
    assert r != [] ==> r[0] in t;
    assert t != [] ==> t[0] in r;
    if r != [] {
      var i :| 0 <= i < |r| && r[i] == t[0];
      var j :| 0 <= j < |t| && t[j] == r[0];
      assert r[0] == t[0];
      forall y ensures y in r[1..] <==> y in t[1..] {
        if y in r[1..] {
          var a :| 1 <= a < |r| && r[a] == y;
          assert key(r[0]) < key(r[a]);
          assert y in t;
        }
        if y in t[1..] {
          var b :| 1 <= b < |t| && t[b] == y;
          assert key(t[0]) < key(t[b]);
          assert y in r;
        }
      }
      StrictlySortedUnique(r[1..], t[1..], key);
      assert r == [r[0]] + r[1..] && t == [t[0]] + t[1..];
    }
  }

  /** In a sequence strictly ordered by a key no element occurs twice. */
  lemma {:induction false} StrictlySortedOccursOnce<T>(s: seq<T>, key: T -> int, x: T)
    requires StrictlySortedBy(s, key)
    ensures multiset(s)[x] <= 1
    decreases |s|
  {
    if s != [] {
      assert s == [s[0]] + s[1..];
      StrictlySortedOccursOnce(s[1..], key, x);
      assert forall j | 1 <= j < |s| :: key(s[0]) < key(s[j]);
      assert s[0] == x ==> x !in s[1..];
    }
  }

  /** Two positions holding the same element make it occur at least twice. */
  lemma RepeatedElementOccursTwice<T>(s: seq<T>, i: nat, j: nat)
    requires i < j < |s| && s[i] == s[j]
    ensures multiset(s)[s[i]] >= 2
  {
    assert s == s[..i] + [s[i]] + s[i + 1..j] + [s[j]] + s[j + 1..];
  }
}
