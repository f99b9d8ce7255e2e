/**
 * Python's `sorted(xs, key=k)`: a stable sort by an integer key. Modelled as
 * an insertion sort that puts each element ahead of the later elements whose
 * key equals its own, so that ties keep their input order.
 */
module StableSort {
  import opened Seqs

  ghost predicate SortedBy<T>(s: seq<T>, key: T -> int)
  {
    forall i, j :: 0 <= i < j < |s| ==> key(s[i]) <= key(s[j])
  }

  /** Ordered by key, and among equal keys strictly by rank. */
  ghost predicate RankedBy<T>(s: seq<T>, key: T -> int, rank: T -> int)
  {
    forall i, j :: 0 <= i < j < |s| ==>
      key(s[i]) < key(s[j]) || (key(s[i]) == key(s[j]) && rank(s[i]) < rank(s[j]))
  }

  /** Inserts x in front of the first element whose key is not below x's. */
  function InsertBy<T>(x: T, s: seq<T>, key: T -> int): (r: seq<T>)
    ensures multiset(r) == multiset(s) + multiset{x}
  {
    if s == [] then [x]
    else if key(x) <= key(s[0]) then [x] + s
    else
      assert s == [s[0]] + s[1..];
      [s[0]] + InsertBy(x, s[1..], key)
  }

  function SortBy<T>(s: seq<T>, key: T -> int): (r: seq<T>)
    ensures multiset(r) == multiset(s)
  {
    if s == [] then []
    else
      assert s == [s[0]] + s[1..];
      InsertBy(s[0], SortBy(s[1..], key), key)
  }

  /** Every element of InsertBy(x, s) is x or comes from s. */
  lemma InsertByMembers<T>(x: T, s: seq<T>, key: T -> int, y: T)
    requires y in InsertBy(x, s, key)
    ensures y == x || y in s
  {
    assert y in multiset(InsertBy(x, s, key));
  }

  lemma {:induction false} InsertBySorted<T>(x: T, s: seq<T>, key: T -> int)
    requires SortedBy(s, key)
    ensures SortedBy(InsertBy(x, s, key), key)
  {
    if s != [] && key(s[0]) < key(x) {
      var rest := InsertBy(x, s[1..], key);
      InsertBySorted(x, s[1..], key);
      forall y | y in rest ensures key(s[0]) <= key(y) {
        InsertByMembers(x, s[1..], key, y);
      }
      var r := [s[0]] + rest;
      forall i, j | 0 <= i < j < |r| ensures key(r[i]) <= key(r[j]) {
        if i == 0 {
          assert r[j] in rest;
        } else {
          assert r[i] == rest[i - 1] && r[j] == rest[j - 1];
        }
      }
    }
  }

  lemma {:induction false} SortBySorted<T>(s: seq<T>, key: T -> int)
    ensures SortedBy(SortBy(s, key), key)
  {
    if s != [] {
      SortBySorted(s[1..], key);
      InsertBySorted(s[0], SortBy(s[1..], key), key);
    }
  }

  lemma {:induction false} InsertByRanked<T>(x: T, s: seq<T>, key: T -> int, rank: T -> int)
    requires RankedBy(s, key, rank)
    requires forall y :: y in s ==> rank(x) < rank(y)
    ensures RankedBy(InsertBy(x, s, key), key, rank)
  {
    if s != [] && key(s[0]) < key(x) {
      var rest := InsertBy(x, s[1..], key);
      InsertByRanked(x, s[1..], key, rank);
      forall y | y in rest
        ensures key(s[0]) < key(y) || (key(s[0]) == key(y) && rank(s[0]) < rank(y))
      {
        InsertByMembers(x, s[1..], key, y);
      }
      var r := [s[0]] + rest;
      forall i, j | 0 <= i < j < |r|
        ensures key(r[i]) < key(r[j]) || (key(r[i]) == key(r[j]) && rank(r[i]) < rank(r[j]))
      {
        if i == 0 {
          assert r[j] in rest;
        } else {
          assert r[i] == rest[i - 1] && r[j] == rest[j - 1];
        }
      }
    }
  }

  /**
   * Stability: when the input is strictly increasing in rank (its position,
   * say), the sorted output is ordered by key and, within a key, by rank.
   */
  lemma {:induction false} SortByKeepsTiesInOrder<T>(s: seq<T>, key: T -> int, rank: T -> int)
    requires forall i, j :: 0 <= i < j < |s| ==> rank(s[i]) < rank(s[j])
    ensures RankedBy(SortBy(s, key), key, rank)
  {
    if s != [] {
      var rest := SortBy(s[1..], key);
      SortByKeepsTiesInOrder(s[1..], key, rank);
      forall y | y in rest ensures rank(s[0]) < rank(y) {
        assert y in multiset(rest);
      }
      InsertByRanked(s[0], rest, key, rank);
    }
  }

  lemma HeadNotInTail<T>(s: seq<T>)
    requires Distinct(s) && s != []
    ensures s[0] !in s[1..]
  {
    forall k | 0 <= k < |s| - 1 ensures s[1..][k] != s[0] {
      assert s[1..][k] == s[k + 1];
    }
  }

  lemma {:induction false} InsertByKeepsDistinct<T>(x: T, s: seq<T>, key: T -> int)
    requires Distinct(s) && x !in s
    ensures Distinct(InsertBy(x, s, key))
  {
    if s != [] && key(s[0]) < key(x) {
      var rest := InsertBy(x, s[1..], key);
      InsertByKeepsDistinct(x, s[1..], key);
      HeadNotInTail(s);
      if s[0] in rest {
        InsertByMembers(x, s[1..], key, s[0]);
      }
      var r := [s[0]] + rest;
      forall i, j | 0 <= i < j < |r| ensures r[i] != r[j] {
        if i == 0 {
          assert r[j] in rest;
        } else {
          assert r[i] == rest[i - 1] && r[j] == rest[j - 1];
        }
      }
    }
  }

  lemma {:induction false} SortByKeepsDistinct<T>(s: seq<T>, key: T -> int)
    requires Distinct(s)
    ensures Distinct(SortBy(s, key))
  {
    if s != [] {
      var rest := SortBy(s[1..], key);
      SortByKeepsDistinct(s[1..], key);
      HeadNotInTail(s);
      assert s[0] !in multiset(rest);
      InsertByKeepsDistinct(s[0], rest, key);
    }
  }

  /** A sequence already ordered by key comes out of the sort unchanged. */
  lemma {:induction false} SortByOrdered<T>(s: seq<T>, key: T -> int)
    requires SortedBy(s, key)
    ensures SortBy(s, key) == s
  {
    if s != [] {
      SortByOrdered(s[1..], key);
      assert s == [s[0]] + s[1..];
    }
  }
}
