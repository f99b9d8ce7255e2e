/** Sequence vocabulary shared by the pairing model and the feature model. */
module Seqs {

  function Abs(x: int): nat
  {
    if x < 0 then -x else x
  }

  /** The sum of a sequence of integers (Python's `sum`, `np.sum`). */
  function Sum(s: seq<int>): int
  {
    if s == [] then 0 else s[0] + Sum(s[1..])
  }

  lemma {:induction false} SumConcat(a: seq<int>, b: seq<int>)
    ensures Sum(a + b) == Sum(a) + Sum(b)
  {
    if a != [] {
      assert (a + b)[0] == a[0] && (a + b)[1..] == a[1..] + b;
      SumConcat(a[1..], b);
      calc {
        Sum(a + b);
        a[0] + Sum(a[1..] + b);
        a[0] + Sum(a[1..]) + Sum(b);
      }
    } else {
      assert a + b == b;
    }
  }

  /** Splitting a sum at k: the prefix and the suffix add up to the whole. */
  lemma SumSplit(s: seq<int>, k: nat)
    requires k <= |s|
    ensures Sum(s[..k]) + Sum(s[k..]) == Sum(s)
  {
    assert s == s[..k] + s[k..];
    SumConcat(s[..k], s[k..]);
  }

  /** The sequence with the element at position i taken out (`s[:i] + s[i+1:]`). */
  function RemoveAt<T>(s: seq<T>, i: nat): (r: seq<T>)
    requires i < |s|
    ensures |r| == |s| - 1
    ensures forall k :: 0 <= k < i ==> r[k] == s[k]
    ensures forall k :: i <= k < |r| ==> r[k] == s[k + 1]
  {
    s[..i] + s[i + 1..]
  }

  lemma RemoveAtMultiset<T>(s: seq<T>, i: nat)
    requires i < |s|
    ensures multiset(RemoveAt(s, i)) == multiset(s) - multiset{s[i]}
  {
    assert s == s[..i] + [s[i]] + s[i + 1..];
  }

  /**
   * Nondecreasing integers. StableSort.SortedBy is the same order through a
   * key; this plain form is kept for the rating sequences, which have no key.
   */
  ghost predicate Sorted(s: seq<int>)
  {
    forall i, j :: 0 <= i < j < |s| ==> s[i] <= s[j]
  }

  /** Taking one element out of a sorted sequence leaves it sorted. */
  lemma SortedRemoveAt(s: seq<int>, i: nat)
    requires Sorted(s) && i < |s|
    ensures Sorted(RemoveAt(s, i))
  {
    var r := RemoveAt(s, i);
    forall a, b | 0 <= a < b < |r| ensures r[a] <= r[b] {
      var a', b' := if a < i then a else a + 1, if b < i then b else b + 1;
      assert r[a] == s[a'] && r[b] == s[b'];
    }
  }

  ghost predicate Distinct<T>(s: seq<T>)
  {
    forall i, j :: 0 <= i < j < |s| ==> s[i] != s[j]
  }

  ghost predicate NonNegative(s: seq<int>)
  {
    forall j :: 0 <= j < |s| ==> 0 <= s[j]
  }
}
