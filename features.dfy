/**
 * The exponent tables of PolynomialFeatures in features.py. A row gives
 * one polynomial feature as the power of each input feature in it:
 * power_combinations lists every row of total degree 1..max_power (mixed
 * products included), powers only the pure powers p * e_i.
 */
module PolynomialFeatures {
  import opened Seqs
  import opened StableSort

  /** `[0] * n` */
  function Zeros(n: nat): (z: seq<int>)
    ensures |z| == n && forall j :: 0 <= j < n ==> z[j] == 0
  {
    seq(n, j => 0)
  }

  /** A row power_combinations promises: n powers, none negative, of degree 1..maxPower. */
  ghost predicate IsExponentRow(n: nat, maxPower: int, v: seq<int>)
  {
    |v| == n && NonNegative(v) && 0 < Sum(v) <= maxPower
  }

  /** `powers[:idx] + [powers[idx] + 1] + powers[idx + 1:]` */
  function Bump(p: seq<int>, i: nat): (q: seq<int>)
    requires i < |p|
    ensures |q| == |p| && q[i] == p[i] + 1
    ensures forall j :: 0 <= j < |p| && j != i ==> q[j] == p[j]
  {
    p[..i] + [p[i] + 1] + p[i + 1..]
  }

  /**
   * What `combos(k, p, i)` appends to `result`, in order: with no degree
   * left, or past the last feature, p itself; otherwise first the rows that
   * raise feature i once more, then the rows that move on to feature i + 1.
   */
  ghost function ComboRows(k: nat, p: seq<int>, i: nat): seq<seq<int>>
    requires i <= |p|
    decreases k, |p| - i
  {
    if k == 0 then [p]
    else if i == |p| then [p]
    else ComboRows(k - 1, Bump(p, i), i) + ComboRows(k, p, i + 1)
  }

  /** v agrees with p before position i and is at least p from i on. */
  ghost predicate Extends(v: seq<int>, p: seq<int>, i: nat)
  {
    && |v| == |p| && i <= |p|
    && (forall j :: 0 <= j < i ==> v[j] == p[j])
    && (forall j :: i <= j < |p| ==> p[j] <= v[j])
  }

  lemma SumBump(p: seq<int>, i: nat)
    requires i < |p|
    ensures Sum(Bump(p, i)) == Sum(p) + 1
  {
    SplitAt(p, i);
    SumAround(p[..i], p[i], p[i + 1..]);
    SumAround(p[..i], p[i] + 1, p[i + 1..]);
  }

  lemma SplitAt(p: seq<int>, i: nat)
    requires i < |p|
    ensures p == p[..i] + [p[i]] + p[i + 1..]
  {
  }

  lemma SumAround(a: seq<int>, x: int, b: seq<int>)
    ensures Sum(a + [x] + b) == Sum(a) + x + Sum(b)
  {
    SumConcat(a + [x], b);
    SumConcat(a, [x]);
    assert [x][1..] == [];
  }

  /** A row at least p everywhere sums to at least Sum(p), and only p itself to exactly that. */
  lemma {:induction false} SumDominates(v: seq<int>, p: seq<int>)
    requires |v| == |p| && forall j :: 0 <= j < |p| ==> p[j] <= v[j]
    ensures Sum(p) <= Sum(v)
    ensures Sum(v) == Sum(p) ==> v == p
  {
    if p != [] {
      SumDominates(v[1..], p[1..]);
      if Sum(v) == Sum(p) {
        assert v == [v[0]] + v[1..] && p == [p[0]] + p[1..];
      }
    }
  }

  /**
   * combos(k, p, i) reaches exactly the rows that keep p before i, raise
   * the features from i on, and add at most k to the degree.
   */
  lemma {:induction false} ComboRowsMembers(k: nat, p: seq<int>, i: nat, v: seq<int>)
    requires i <= |p|
    ensures v in ComboRows(k, p, i) <==> Extends(v, p, i) && Sum(v) <= Sum(p) + k
    decreases k, |p| - i
  {
    if k == 0 || i == |p| {
      assert ComboRows(k, p, i) == [p];
      SingleRowMembers(k, p, i, v);
    } else {
      ComboRowsMembers(k - 1, Bump(p, i), i, v);
      ComboRowsMembers(k, p, i + 1, v);
      StepMembers(k, p, i, v);
    }
  }

  /** Given the claim for both branches of combos, it holds for their concatenation. */
  lemma StepMembers(k: nat, p: seq<int>, i: nat, v: seq<int>)
    requires k > 0 && i < |p|
    requires v in ComboRows(k - 1, Bump(p, i), i) <==> Extends(v, Bump(p, i), i) && Sum(v) <= Sum(Bump(p, i)) + k - 1
    requires v in ComboRows(k, p, i + 1) <==> Extends(v, p, i + 1) && Sum(v) <= Sum(p) + k
    ensures v in ComboRows(k, p, i) <==> Extends(v, p, i) && Sum(v) <= Sum(p) + k
  {
    var a, b := ComboRows(k - 1, Bump(p, i), i), ComboRows(k, p, i + 1);
    assert ComboRows(k, p, i) == a + b;
    assert v in a + b <==> v in a || v in b;
    SumBump(p, i);
    ExtendsStep(v, p, i);
  }

  /** With no degree left, or past the last feature, only p itself qualifies. */
  lemma SingleRowMembers(k: nat, p: seq<int>, i: nat, v: seq<int>)
    requires i <= |p| && (k == 0 || i == |p|)
    ensures v == p <==> Extends(v, p, i) && Sum(v) <= Sum(p) + k
  {
    if Extends(v, p, i) {
      SumDominates(v, p);
      if i == |p| {
        ExtendsToEnd(v, p);
      }
    }
  }

  /** Past the last feature only p itself extends p. */
  lemma ExtendsToEnd(v: seq<int>, p: seq<int>)
    requires Extends(v, p, |p|)
    ensures v == p
  {
  }

  /**
   * A row extending p from i on either raises feature i (so extends the
   * bumped row) or keeps it (so extends p from i + 1 on), and conversely.
   */
  lemma ExtendsStep(v: seq<int>, p: seq<int>, i: nat)
    requires i < |p|
    ensures Extends(v, p, i) <==> Extends(v, Bump(p, i), i) || Extends(v, p, i + 1)
  {
    var q := Bump(p, i);
    if Extends(v, p, i) && v[i] != p[i] {
      assert Extends(v, q, i);
    }
  }

  /** combos never appends the same row twice. */
  lemma {:induction false} ComboRowsDistinct(k: nat, p: seq<int>, i: nat)
    requires i <= |p|
    ensures Distinct(ComboRows(k, p, i))
    decreases k, |p| - i
  {
    if k != 0 && i < |p| {
      var q := Bump(p, i);
      var a, b := ComboRows(k - 1, q, i), ComboRows(k, p, i + 1);
      ComboRowsDistinct(k - 1, q, i);
      ComboRowsDistinct(k, p, i + 1);
      forall x, y | x in a && y in b ensures x != y {
        BranchesDisjoint(k, p, i, x, y);
      }
      assert ComboRows(k, p, i) == a + b;
      DistinctConcat(a, b);
    }
  }

  /** The rows that raise feature i and the rows that keep it have none in common. */
  lemma BranchesDisjoint(k: nat, p: seq<int>, i: nat, x: seq<int>, y: seq<int>)
    requires k > 0 && i < |p|
    requires x in ComboRows(k - 1, Bump(p, i), i) && y in ComboRows(k, p, i + 1)
    ensures x != y
  {
    ComboRowsMembers(k - 1, Bump(p, i), i, x);
    ComboRowsMembers(k, p, i + 1, y);
    ExtendsDisjoint(x, y, p, i);
  }

  /** A row that raises feature i differs from every row that keeps it. */
  lemma ExtendsDisjoint(x: seq<int>, y: seq<int>, p: seq<int>, i: nat)
    requires i < |p| && Extends(x, Bump(p, i), i) && Extends(y, p, i + 1)
    ensures x != y
  {
    assert x[i] != y[i];
  }

  lemma DistinctConcat<T>(a: seq<T>, b: seq<T>)
    requires Distinct(a) && Distinct(b)
    requires forall x, y :: x in a && y in b ==> x != y
    ensures Distinct(a + b)
  {
    var c := a + b;
    forall i, j | 0 <= i < j < |c| ensures c[i] != c[j] {
      if j < |a| {
        assert c[i] == a[i] && c[j] == a[j];
      } else if i >= |a| {
        assert c[i] == b[i - |a|] && c[j] == b[j - |a|];
      } else {
        assert c[i] in a && c[j] in b;
      }
    }
  }

  /** The rows combos yields from the all-zero row: every non-negative row of degree at most k. */
  lemma ZeroCombosMembers(n: nat, k: nat, v: seq<int>)
    ensures v in ComboRows(k, Zeros(n), 0) <==> |v| == n && NonNegative(v) && Sum(v) <= k
  {
    ComboRowsMembers(k, Zeros(n), 0, v);
    assert Sum(Zeros(n)) == 0 by {
      SumDominates(Zeros(n), Zeros(n));
      ZeroSum(n);
    }
  }

  lemma {:induction false} ZeroSum(n: nat)
    ensures Sum(Zeros(n)) == 0
  {
    if n > 0 {
      ZeroSum(n - 1);
      assert Zeros(n)[1..] == Zeros(n - 1);
    }
  }

  /** The inner `combos` closure and the `result` list it appends to. */
  class ComboCollector {
    var result: seq<seq<int>>

    constructor ()
      ensures result == []
    {
      result := [];
    }

    /**
     * A negative maxPower ends the recursion only at the end of the row, so
     * it is allowed past the last feature alone, where p itself is appended.
     */
    method Combos(maxPower: int, powers: seq<int>, idx: nat)
      requires idx <= |powers|
      requires maxPower >= 0 || idx == |powers|
      modifies this
      ensures maxPower >= 0 ==> result == old(result) + ComboRows(maxPower, powers, idx)
      ensures maxPower < 0 ==> result == old(result) + [powers]
      decreases if maxPower < 0 then 0 else maxPower, |powers| - idx
    {
      if maxPower == 0 {
        result := result + [powers];
      } else if idx == |powers| {
        result := result + [powers];
      } else {
        ghost var before := result;
        var raised := powers[..idx] + [powers[idx] + 1] + powers[idx + 1..];
        assert raised == Bump(powers, idx);
        Combos(maxPower - 1, raised, idx);
        Combos(maxPower, powers, idx + 1);
        ghost var a, b := ComboRows(maxPower - 1, raised, idx), ComboRows(maxPower, powers, idx + 1);
        assert result == before + a + b;
        assert before + a + b == before + (a + b);
      }
    }
  }

  /**
   * In the rows combos yields from the all-zero row, sorted by degree, the
   * all-zero row comes first and nowhere else.
   */
  lemma ZeroRowSortsFirst(n: nat, k: nat)
    ensures var sorted := SortBy(ComboRows(k, Zeros(n), 0), Sum);
      && sorted != [] && sorted[0] == Zeros(n)
      && SortedBy(sorted, Sum) && Distinct(sorted)
      && forall v :: v in sorted <==> |v| == n && NonNegative(v) && Sum(v) <= k
  {
    var rows := ComboRows(k, Zeros(n), 0);
    var sorted := SortBy(rows, Sum);
    SortBySorted(rows, Sum);
    ComboRowsDistinct(k, Zeros(n), 0);
    SortByKeepsDistinct(rows, Sum);
    SortedCombosMembers(n, k);
    ZeroSum(n);
    LeastRowFirst(n, sorted);
  }

  /** Sorting keeps the rows combos yields from the all-zero row. */
  lemma SortedCombosMembers(n: nat, k: nat)
    ensures forall v :: v in SortBy(ComboRows(k, Zeros(n), 0), Sum) <==> |v| == n && NonNegative(v) && Sum(v) <= k
  {
    var rows := ComboRows(k, Zeros(n), 0);
    var sorted := SortBy(rows, Sum);
    forall v ensures v in sorted <==> |v| == n && NonNegative(v) && Sum(v) <= k {
      ZeroCombosMembers(n, k, v);
      assert v in sorted <==> v in multiset(rows);
    }
  }

  /** Among non-negative rows sorted by degree, the all-zero row, when present, is first. */
  lemma LeastRowFirst(n: nat, sorted: seq<seq<int>>)
    requires SortedBy(sorted, Sum) && Zeros(n) in sorted
    requires forall v :: v in sorted ==> |v| == n && NonNegative(v)
    ensures sorted != [] && sorted[0] == Zeros(n)
  {
    var j :| 0 <= j < |sorted| && sorted[j] == Zeros(n);
    assert sorted[0] in sorted;
    assert Sum(sorted[0]) <= Sum(sorted[j]);
    SumDominates(sorted[0], Zeros(n));
    ZeroSum(n);
  }

  /**
   * `power_combinations`: every non-negative exponent row of length
   * nfeatures whose degree is 1..maxPower, each exactly once, in
   * nondecreasing order of degree; none at all for maxPower <= 0. A
   * negative maxPower is accepted with no features only: with a feature
   * to raise, combos would recurse without end.
   */
  method PowerCombinations(nfeatures: nat, maxPower: int) returns (rows: seq<seq<int>>)
    requires maxPower >= 0 || nfeatures == 0
    ensures forall v :: v in rows <==> IsExponentRow(nfeatures, maxPower, v)
    ensures Distinct(rows)
    ensures SortedBy(rows, Sum)
    ensures maxPower <= 0 ==> rows == []
  {
    var collector := new ComboCollector();
    collector.Combos(maxPower, Zeros(nfeatures), 0);
    var sorted := SortBy(collector.result, Sum);
    if maxPower < 0 {
      assert collector.result == [[]];
      SortByOrdered(collector.result, Sum);
      rows := sorted[1..];
      assert rows == [];
      forall v ensures !IsExponentRow(nfeatures, maxPower, v) { }
    } else {
      assert collector.result == ComboRows(maxPower, Zeros(nfeatures), 0);
      ZeroRowSortsFirst(nfeatures, maxPower);
      rows := sorted[1..];
      DroppedZeroRow(nfeatures, maxPower);
    }
  }

  /** The sorted rows without their first, the all-zero row. */
  lemma DroppedZeroRow(n: nat, k: nat)
    requires var sorted := SortBy(ComboRows(k, Zeros(n), 0), Sum); sorted != []
    ensures var rows := SortBy(ComboRows(k, Zeros(n), 0), Sum)[1..];
      && (forall v :: v in rows <==> IsExponentRow(n, k, v))
      && Distinct(rows) && SortedBy(rows, Sum)
      && (k == 0 ==> rows == [])
  {
    var sorted := SortBy(ComboRows(k, Zeros(n), 0), Sum);
    ZeroRowSortsFirst(n, k);
    var rows := sorted[1..];
    forall v ensures v in rows <==> IsExponentRow(n, k, v) {
      DropZeroRow(n, k, sorted, v);
    }
  }

  lemma DropZeroRow(n: nat, k: nat, sorted: seq<seq<int>>, v: seq<int>)
    requires sorted != [] && sorted[0] == Zeros(n) && Distinct(sorted)
    requires forall w :: w in sorted <==> |w| == n && NonNegative(w) && Sum(w) <= k
    ensures v in sorted[1..] <==> IsExponentRow(n, k, v)
  {
    if v in sorted[1..] {
      var j :| 0 <= j < |sorted| - 1 && sorted[1..][j] == v;
      assert sorted[j + 1] == v;
      assert v in sorted;
      if Sum(v) <= 0 {
        SumDominates(v, Zeros(n));
        ZeroSum(n);
      }
    }
    if IsExponentRow(n, k, v) {
      assert v in sorted;
      var j :| 0 <= j < |sorted| && sorted[j] == v;
      ZeroSum(n);
      assert j != 0;
      assert sorted[1..][j - 1] == v;
    }
  }

  /** `np.eye(n)[i] * p`: power p of feature i alone. */
  function UnitRow(n: nat, i: nat, p: int): (row: seq<int>)
    ensures |row| == n
  {
    seq(n, j => if j == i then p else 0)
  }

  /** `np.eye(n) * p` */
  function ScaledIdentity(n: nat, p: int): (rows: seq<seq<int>>)
    ensures |rows| == n && forall i :: 0 <= i < n ==> rows[i] == UnitRow(n, i, p)
  {
    seq(n, i requires 0 <= i < n => UnitRow(n, i, p))
  }

  /** Where `powers` puts power p of feature i: after p - 1 blocks of n rows. */
  function PowerIndex(n: nat, p: int, i: int): (k: int)
    ensures 1 <= p && 0 <= i < n ==> 0 <= n * (p - 1) <= k < n * p
  {
    (p - 1) * n + i
  }

  /** The rows `powers` has gathered once the blocks for 1..m are in. */
  ghost function PowerRows(n: nat, m: nat): seq<seq<int>>
  {
    if m == 0 then [] else PowerRows(n, m - 1) + ScaledIdentity(n, m)
  }

  /** Block p holds the powers p of each feature, at rows (p - 1) * n to p * n - 1. */
  lemma PowerRowsIndex(n: nat, m: nat)
    ensures |PowerRows(n, m)| == n * m
    ensures forall k :: 0 <= k < |PowerRows(n, m)| ==> |PowerRows(n, m)[k]| == n
    ensures forall p, i :: 1 <= p <= m && 0 <= i < n ==>
      PowerIndex(n, p, i) < |PowerRows(n, m)| && PowerRows(n, m)[PowerIndex(n, p, i)] == UnitRow(n, i, p)
  {
    PowerRowsLength(n, m);
    forall p, i | 1 <= p <= m && 0 <= i < n
      ensures PowerIndex(n, p, i) < |PowerRows(n, m)| && PowerRows(n, m)[PowerIndex(n, p, i)] == UnitRow(n, i, p)
    {
      PowerRowAt(n, m, p, i);
    }
  }

  lemma {:induction false} PowerRowsLength(n: nat, m: nat)
    ensures |PowerRows(n, m)| == n * m
    ensures forall k :: 0 <= k < |PowerRows(n, m)| ==> |PowerRows(n, m)[k]| == n
  {
    if m > 0 {
      PowerRowsLength(n, m - 1);
      assert n * m == n * (m - 1) + n;
    }
  }

  lemma {:induction false} PowerRowAt(n: nat, m: nat, p: int, i: nat)
    requires 1 <= p <= m && i < n
    ensures PowerIndex(n, p, i) < |PowerRows(n, m)|
    ensures PowerRows(n, m)[PowerIndex(n, p, i)] == UnitRow(n, i, p)
  {
    if p < m {
      PowerRowAt(n, m - 1, p, i);
      EarlierBlock(n, m, PowerIndex(n, p, i), UnitRow(n, i, p));
    } else {
      LastBlock(n, m, i);
    }
  }

  /** Rows of the blocks before m stay where they were. */
  lemma EarlierBlock(n: nat, m: nat, k: int, row: seq<int>)
    requires m > 0 && 0 <= k < |PowerRows(n, m - 1)| && PowerRows(n, m - 1)[k] == row
    ensures k < |PowerRows(n, m)| && PowerRows(n, m)[k] == row
  {
  }

  /** Block m sits after the earlier blocks. */
  lemma LastBlock(n: nat, m: nat, i: nat)
    requires m > 0 && i < n
    ensures PowerIndex(n, m, i) < |PowerRows(n, m)|
    ensures PowerRows(n, m)[PowerIndex(n, m, i)] == UnitRow(n, i, m)
  {
    PowerRowsLength(n, m);
    PowerRowsLength(n, m - 1);
    assert n * m == n * (m - 1) + n;
    assert PowerIndex(n, m, i) == n * (m - 1) + i;
  }

  /**
   * `powers`: for p = 1..maxPower in turn the n rows p * e_0, ..., p * e_{n-1},
   * so row (p - 1) * n + i is power p of feature i alone; no rows when
   * maxPower < 1.
   */
  method Powers(nfeatures: nat, maxPower: int) returns (rows: seq<seq<int>>)
    ensures |rows| == nfeatures * (if maxPower < 0 then 0 else maxPower)
    ensures forall p, i :: 1 <= p <= maxPower && 0 <= i < nfeatures ==>
      PowerIndex(nfeatures, p, i) < |rows| && rows[PowerIndex(nfeatures, p, i)] == UnitRow(nfeatures, i, p)
    ensures forall k :: 0 <= k < |rows| ==> |rows[k]| == nfeatures
  {
    rows := [];
    var power := 1;
    while power <= maxPower
      invariant 1 <= power <= if maxPower < 1 then 1 else maxPower + 1
      invariant rows == PowerRows(nfeatures, power - 1)
      decreases maxPower - power
    {
      rows := rows + ScaledIdentity(nfeatures, power);
      power := power + 1;
    }
    ghost var blocks: nat := power - 1;
    assert blocks == if maxPower < 0 then 0 else maxPower;
    PowerRowsIndex(nfeatures, blocks);
  }

  /**
   * The rows of `powers` are rows `power_combinations` also lists: each is
   * a non-negative exponent row of degree 1..maxPower, with one feature only.
   */
  lemma PowersRowsAreCombinations(n: nat, maxPower: int, i: nat, p: int)
    requires i < n && 1 <= p <= maxPower
    ensures IsExponentRow(n, maxPower, UnitRow(n, i, p))
    ensures forall j :: 0 <= j < n && j != i ==> UnitRow(n, i, p)[j] == 0
  {
    UnitRowSum(n, i, p);
  }

  lemma {:induction false} UnitRowSum(n: nat, i: nat, p: int)
    ensures Sum(UnitRow(n, i, p)) == if i < n then p else 0
  {
    if n > 0 {
      var row := UnitRow(n, i, p);
      UnitRowSum(n - 1, i, p);
      assert row == UnitRow(n - 1, i, p) + [row[n - 1]];
      SumConcat(UnitRow(n - 1, i, p), [row[n - 1]]);
    }
  }
}
