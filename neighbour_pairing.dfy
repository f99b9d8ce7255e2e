/**
 * Reference definitions for the imbalance of a pairing, on plain rating
 * sequences: pairing neighbours (r[0] with r[1], r[2] with r[3], ...), and
 * pairing an arbitrary arrangement q of the same ratings the same way, which
 * covers every perfect matching. Proves that on sorted ratings pairing
 * neighbours is the most balanced matching.
 */
module NeighbourPairing {
  import opened Seqs

  /**
   * Total gap of pairing neighbours, r[1] - r[0] + r[3] - r[2] + ...; an odd
   * last element stays unpaired. The gap is the plain difference, as the
   * source computes it (`pair[1] - pair[0]`).
   */
  function NeighbourCost(r: seq<int>): int
  {
    if |r| < 2 then 0 else (r[1] - r[0]) + NeighbourCost(r[2..])
  }

  /**
   * Total imbalance |q[1] - q[0]| + |q[3] - q[2]| + ... of the matching that
   * pairs the arrangement q two by two. Every perfect matching of a multiset
   * of ratings is such an arrangement of it.
   */
  function AbsCost(q: seq<int>): nat
  {
    if |q| < 2 then 0 else Abs(q[1] - q[0]) + AbsCost(q[2..])
  }

  /** Pairing a concatenation whose first part has even length pairs each part on its own. */
  lemma {:induction false} NeighbourCostConcat(a: seq<int>, b: seq<int>)
    requires |a| % 2 == 0
    ensures NeighbourCost(a + b) == NeighbourCost(a) + NeighbourCost(b)
  {
    if a == [] {
      assert a + b == b;
    } else {
      assert (a + b)[2..] == a[2..] + b;
      NeighbourCostConcat(a[2..], b);
    }
  }

  /** On sorted ratings every gap is non-negative, so the two costs agree. */
  lemma {:induction false} SortedCostIsImbalance(r: seq<int>)
    requires Sorted(r)
    ensures NeighbourCost(r) == AbsCost(r)
  {
    if |r| >= 2 {
      assert Sorted(r[2..]);
      SortedCostIsImbalance(r[2..]);
    }
  }

  /**
   * Takes the pair holding v out of the arrangement q: gives v's partner and
   * the arrangement of the other pairs, which together cost what q costs.
   */
  lemma PartnerSplit(q: seq<int>, v: int) returns (y: int, rest: seq<int>)
    requires |q| % 2 == 0 && v in q
    ensures multiset(q) == multiset(rest) + multiset{v, y}
    ensures |rest| == |q| - 2
    ensures AbsCost(q) == Abs(v - y) + AbsCost(rest)
    decreases |q|
  {
    ConsPair(q[0], q[1], q[2..]);
    assert q == [q[0], q[1]] + q[2..];
    if q[0] == v {
      y, rest := q[1], q[2..];
    } else if q[1] == v {
      y, rest := q[0], q[2..];
      assert multiset{q[0], q[1]} == multiset{v, y};
    } else {
      assert v in q[2..];
      var r;
      y, r := PartnerSplit(q[2..], v);
      ConsPair(q[0], q[1], r);
      rest := [q[0], q[1]] + r;
    }
  }

  /** Putting the pair (a, b) in front of an arrangement adds it to the cost. */
  lemma ConsPair(a: int, b: int, rest: seq<int>)
    ensures multiset([a, b] + rest) == multiset(rest) + multiset{a, b}
    ensures AbsCost([a, b] + rest) == Abs(b - a) + AbsCost(rest)
  {
    assert ([a, b] + rest)[2..] == rest;
  }

  /** In a sorted sequence every element after the first is at least r[1]. */
  lemma SortedTailBound(r: seq<int>, v: int)
    requires Sorted(r) && |r| >= 2 && v in multiset(r[1..])
    ensures r[1] <= v
  {
    var k :| 0 <= k < |r| - 1 && r[1..][k] == v;
    assert r[k + 1] == v;
  }

  /** Taking the first element away from both sides of a multiset equation. */
  lemma PeelHead(s: seq<int>, m: multiset<int>)
    requires s != [] && multiset(s) == m + multiset{s[0]}
    ensures m == multiset(s[1..])
  {
    assert s == [s[0]] + s[1..];
    var t := multiset(s[1..]);
    assert t + multiset{s[0]} == m + multiset{s[0]};
    assert m == (m + multiset{s[0]}) - multiset{s[0]};
    assert t == (t + multiset{s[0]}) - multiset{s[0]};
  }

  /**
   * The exchange step: some arrangement q' of r[2..] costs, together with the
   * pair (r[0], r[1]), no more than q does.
   */
  lemma Exchange(r: seq<int>, q: seq<int>) returns (q': seq<int>)
    requires |r| >= 2 && |r| % 2 == 0 && r[0] <= r[1]
    requires forall v :: v in multiset(r[1..]) ==> r[1] <= v
    requires multiset(q) == multiset(r)
    ensures multiset(q') == multiset(r[2..])
    ensures (r[1] - r[0]) + AbsCost(q') <= AbsCost(q)
  {
    assert |q| == |multiset(q)| == |r|;
    var x := r[0];
    assert x in multiset(q) by {
      assert r == [x] + r[1..];
    }
    var y, q1 := PartnerSplit(q, x);
    assert multiset(q1) + multiset{y} == multiset(r[1..]) by {
      assert multiset{x, y} == multiset{y} + multiset{x};
      PeelHead(r, multiset(q1) + multiset{y});
    }
    q' := ExchangeSecond(r[1..], q1, y);
    assert r[1..][1..] == r[2..];
    assert y in multiset(r[1..]);
  }

  /**
   * Second half of the exchange: r1 = r[1..] is what is left once r[0] and
   * its partner y are taken out of the arrangement; r1[0] is then paired.
   */
  lemma ExchangeSecond(r1: seq<int>, q1: seq<int>, y: int) returns (q': seq<int>)
    requires r1 != [] && |q1| % 2 == 0
    requires forall v :: v in multiset(r1) ==> r1[0] <= v
    requires multiset(q1) + multiset{y} == multiset(r1)
    ensures multiset(q') == multiset(r1[1..])
    ensures AbsCost(q') + r1[0] <= y + AbsCost(q1)
  {
    var z := r1[0];
    assert z in multiset(r1) && y in multiset(r1);
    if y == z {
      q' := q1;
      PeelHead(r1, multiset(q1));
    } else {
      assert multiset{y}[z] == 0;
      assert z in multiset(q1);
      var w, q2 := PartnerSplit(q1, z);
      q' := Repair(r1, q1, y, w, q2);
    }
  }

  /**
   * In q1, z = r1[0] sits with w; pairing y with w instead and leaving z
   * out costs no more than z's old pair plus y.
   */
  lemma Repair(r1: seq<int>, q1: seq<int>, y: int, w: int, q2: seq<int>) returns (q': seq<int>)
    requires r1 != [] && forall v :: v in multiset(r1) ==> r1[0] <= v
    requires multiset(q1) + multiset{y} == multiset(r1)
    requires multiset(q1) == multiset(q2) + multiset{r1[0], w}
    requires AbsCost(q1) == Abs(r1[0] - w) + AbsCost(q2)
    ensures multiset(q') == multiset(r1[1..])
    ensures AbsCost(q') + r1[0] <= y + AbsCost(q1)
  {
    var z, m2 := r1[0], multiset(q2);
    assert multiset(r1) == m2 + multiset{w} + multiset{y} + multiset{z} by {
      assert multiset{z, w} == multiset{w} + multiset{z};
    }
    PeelHead(r1, m2 + multiset{w} + multiset{y});
    assert w in multiset(r1) && y in multiset(r1);
    q' := [y, w] + q2;
    ConsPair(y, w, q2);
    assert multiset{y, w} == multiset{w} + multiset{y};
  }

  /**
   * Pairing neighbours of a sorted even-length sequence is a most balanced
   * perfect matching: no arrangement q of the same ratings, paired two by
   * two, has a smaller total imbalance.
   */
  lemma {:induction false} NeighbourPairingOptimal(r: seq<int>, q: seq<int>)
    requires Sorted(r) && |r| % 2 == 0
    requires multiset(q) == multiset(r)
    ensures NeighbourCost(r) <= AbsCost(q)
    decreases |r|
  {
    if r == [] {
      assert |q| == |multiset(q)| == 0;
    } else {
      forall v | v in multiset(r[1..]) ensures r[1] <= v {
        SortedTailBound(r, v);
      }
      var q' := Exchange(r, q);
      assert Sorted(r[2..]);
      NeighbourPairingOptimal(r[2..], q');
    }
  }
}
