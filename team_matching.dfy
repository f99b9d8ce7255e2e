/**
 * The pairing engine of daletski_denis_task_1_src/task1.py: teams are ranked
 * by rating and neighbours are paired; with an odd number of teams one team
 * is left out first, chosen by an O(n) scan over two interleaved prefix sums
 * of rating gaps so that the remaining pairing is as balanced as possible.
 */
module TeamMatching {
  import opened Seqs
  import opened StableSort
  import opened NeighbourPairing

  /** A ranked team: its position in the input (its id) and its rating. */
  datatype Team = Team(id: nat, rating: int)

  /** Two team ids drawn to play each other. */
  datatype Pair = Pair(first: nat, second: nat)

  function Rating(t: Team): int { t.rating }

  function Id(t: Team): int { t.id }

  /** `enumerate(teams_ratings)` */
  function Enumerate(ratings: seq<int>): seq<Team>
  {
    seq(|ratings|, i requires 0 <= i < |ratings| => Team(i, ratings[i]))
  }

  function Ratings(ts: seq<Team>): seq<int>
  {
    seq(|ts|, i requires 0 <= i < |ts| => ts[i].rating)
  }

  function Ids(ts: seq<Team>): seq<nat>
  {
    seq(|ts|, i requires 0 <= i < |ts| => ts[i].id)
  }

  /** `sorted(enumerate(teams_ratings), key=rating)`: a stable sort. */
  function SortTeams(ratings: seq<int>): seq<Team>
  {
    SortBy(Enumerate(ratings), Rating)
  }

  /** The ids of the pairs in output order: first, second, first, second, ... */
  function Flatten(pairs: seq<Pair>): (ids: seq<nat>)
  {
    seq(2 * |pairs|, i requires 0 <= i < 2 * |pairs| =>
      if i % 2 == 0 then pairs[i / 2].first else pairs[i / 2].second)
  }

  /** Every id in the pairs names one of n teams. */
  ghost predicate InRange(n: nat, pairs: seq<Pair>)
  {
    forall k :: 0 <= k < |pairs| ==> pairs[k].first < n && pairs[k].second < n
  }

  /** Total imbalance |rating(a) - rating(b)| over the pairs. */
  function Imbalance(ratings: seq<int>, pairs: seq<Pair>): nat
    requires InRange(|ratings|, pairs)
  {
    if pairs == [] then 0
    else Abs(ratings[pairs[0].first] - ratings[pairs[0].second]) + Imbalance(ratings, pairs[1..])
  }

  // ---------------------------------------------------------------------
  // Prefix sums over the two interleaved pairings
  // ---------------------------------------------------------------------

  /**
   * The rating gaps r[i+1] - r[i] for i = start, start + 2, ... below stop,
   * as the comprehensions building `pairs_1` (start 0, stop n - 2) and
   * `pairs_2` (start 1, stop n - 1) and their differences compute them.
   */
  function PhaseGaps(r: seq<int>, start: nat, stop: int): (g: seq<int>)
    requires stop < |r|
    ensures |g| == if stop <= start then 0 else (stop - start + 1) / 2
    ensures forall t :: 0 <= t < |g| ==> g[t] == r[start + 2 * t + 1] - r[start + 2 * t]
  {
    var count := if stop <= start then 0 else (stop - start + 1) / 2;
    seq(count, t requires 0 <= t < count => r[start + 2 * t + 1] - r[start + 2 * t])
  }

  /** `np.cumsum`: the running totals, accumulated from acc. */
  function RunningSums(acc: int, g: seq<int>): (c: seq<int>)
    ensures |c| == |g|
    decreases |g|
  {
    if g == [] then [] else [acc + g[0]] + RunningSums(acc + g[0], g[1..])
  }

  /** Entry k of the running totals is acc plus the first k + 1 gaps. */
  lemma {:induction false} RunningSumsAt(acc: int, g: seq<int>, k: nat)
    requires k < |g|
    ensures RunningSums(acc, g)[k] == acc + Sum(g[..k + 1])
    decreases |g|
  {
    if k > 0 {
      RunningSumsAt(acc + g[0], g[1..], k - 1);
      assert g[..k + 1] == [g[0]] + g[1..][..k];
    }
  }

  function CumSum(g: seq<int>): (c: seq<int>)
    ensures |c| == |g|
  {
    RunningSums(0, g)
  }

  /** `cumsum_at`: a prefix sum, 0 before the first entry. */
  function CumsumAt(idx: int, cumsum: seq<int>): int
    requires idx < |cumsum|
  {
    if idx < 0 then 0 else cumsum[idx]
  }

  /** cumsum_at(k, cumsum(g)) is the sum of the first k + 1 gaps, for k = -1 too. */
  lemma CumsumAtIsPrefixSum(g: seq<int>, k: int)
    requires -1 <= k < |g|
    ensures CumsumAt(k, CumSum(g)) == Sum(g[..k + 1])
  {
    if k == -1 {
      assert g[..0] == [];
    } else {
      RunningSumsAt(0, g, k);
    }
  }

  /** `cumsum_1` of the sorted ratings: gaps of the pairs (0,1), (2,3), ... */
  function Cumsum1(r: seq<int>): seq<int>
  {
    CumSum(PhaseGaps(r, 0, |r| - 2))
  }

  /** `cumsum_2` of the sorted ratings: gaps of the pairs (1,2), (3,4), ... */
  function Cumsum2(r: seq<int>): seq<int>
  {
    CumSum(PhaseGaps(r, 1, |r| - 1))
  }

  /**
   * `cost_without`: the imbalance of pairing neighbours once position idx is
   * removed, read off the two prefix sums. Python's `//` and `%` by 2 agree
   * with Dafny's `/` and `%` by 2 on every integer. The requires are exactly
   * the indices staying in range: cumsum2[n - 1] for n = len(cumsum1), and
   * cumsum1[idx // 2] for odd idx.
   */
  function CostWithout(idx: int, cumsum1: seq<int>, cumsum2: seq<int>): int
    requires |cumsum1| <= |cumsum2|
    requires idx <= 2 * |cumsum1|
  {
    var n := |cumsum1|;
    if idx % 2 == 0 then
      var leftCost := CumsumAt(idx / 2 - 1, cumsum1);
      var rightCost := CumsumAt(n - 1, cumsum2) - CumsumAt(idx / 2 - 1, cumsum2);
      leftCost + rightCost
    else
      var leftCost := CumsumAt(idx / 2, cumsum1);
      var rightCost := CumsumAt(n - 1, cumsum2) - CumsumAt(idx / 2 - 1, cumsum2);
      leftCost + rightCost
  }

  /** The cost of excluding sorted position idx, as odd_matching computes it. */
  function ExclusionCost(r: seq<int>, idx: nat): int
    requires |r| % 2 == 1 && idx < |r|
  {
    CostWithout(idx, Cumsum1(r), Cumsum2(r))
  }

  /** Neighbour pairing of an even-length s, as the sum of its gaps. */
  lemma {:induction false} NeighbourCostIsGapSum(s: seq<int>)
    requires |s| % 2 == 0
    ensures NeighbourCost(s) == Sum(PhaseGaps(s, 0, |s| - 1))
    decreases |s|
  {
    if |s| >= 2 {
      NeighbourCostIsGapSum(s[2..]);
      var g, g' := PhaseGaps(s, 0, |s| - 1), PhaseGaps(s[2..], 0, |s| - 3);
      assert g == [s[1] - s[0]] + g';
    }
  }

  /** The first p gaps of pairs_1 are the neighbour pairing of r[..2p]. */
  lemma LeftGaps(r: seq<int>, p: nat)
    requires |r| % 2 == 1 && 2 * p < |r|
    ensures Sum(PhaseGaps(r, 0, |r| - 2)[..p]) == NeighbourCost(r[..2 * p])
  {
    NeighbourCostIsGapSum(r[..2 * p]);
    assert PhaseGaps(r, 0, |r| - 2)[..p] == PhaseGaps(r[..2 * p], 0, 2 * p - 1);
  }

  /** The gaps of pairs_2 from the p-th on are the neighbour pairing of r[2p+1..]. */
  lemma RightGaps(r: seq<int>, p: nat)
    requires |r| % 2 == 1 && 2 * p < |r|
    ensures Sum(PhaseGaps(r, 1, |r| - 1)[p..]) == NeighbourCost(r[2 * p + 1..])
  {
    NeighbourCostIsGapSum(r[2 * p + 1..]);
    assert PhaseGaps(r, 1, |r| - 1)[p..] == PhaseGaps(r[2 * p + 1..], 0, |r| - 2 * p - 2);
  }

  /**
   * The prefix-sum formula of cost_without is exact for every position, on
   * any ratings of odd length: it equals the cost of pairing neighbours once
   * that position is removed. For odd idx = 2p + 1 the left term counts the
   * gap r[2p+1] - r[2p] and the right term the gap r[2p+2] - r[2p+1]; they
   * add up to the gap of the pair (r[2p], r[2p+2]) that bridges the removed
   * team.
   */
  lemma CostWithoutExact(r: seq<int>, idx: nat)
    requires |r| % 2 == 1 && idx < |r|
    ensures ExclusionCost(r, idx) == NeighbourCost(RemoveAt(r, idx))
  {
    var p := idx / 2;
    RightTerm(r, p);
    if idx % 2 == 0 {
      CostWithoutEvenLeft(r, p);
    } else {
      CostWithoutOddLeft(r, p);
    }
  }

  /** The right term of cost_without is the sum of pairs_2's gaps from the p-th on. */
  lemma RightTerm(r: seq<int>, p: nat)
    requires |r| % 2 == 1 && 2 * p < |r|
    ensures CumsumAt(|Cumsum1(r)| - 1, Cumsum2(r)) - CumsumAt(p - 1, Cumsum2(r))
      == Sum(PhaseGaps(r, 1, |r| - 1)[p..])
  {
    var m := |r| / 2;
    var g2 := PhaseGaps(r, 1, |r| - 1);
    CumsumAtIsPrefixSum(g2, m - 1);
    CumsumAtIsPrefixSum(g2, p - 1);
    assert g2[..m] == g2;
    SumSplit(g2, p);
  }

  /** Even idx = 2p: the left term prices r[..2p], the right term r[2p+1..]. */
  lemma CostWithoutEvenLeft(r: seq<int>, p: nat)
    requires |r| % 2 == 1 && 2 * p < |r|
    ensures NeighbourCost(RemoveAt(r, 2 * p))
      == CumsumAt(p - 1, Cumsum1(r)) + Sum(PhaseGaps(r, 1, |r| - 1)[p..])
  {
    CumsumAtIsPrefixSum(PhaseGaps(r, 0, |r| - 2), p - 1);
    LeftGaps(r, p);
    RightGaps(r, p);
    assert RemoveAt(r, 2 * p) == r[..2 * p] + r[2 * p + 1..];
    NeighbourCostConcat(r[..2 * p], r[2 * p + 1..]);
  }

  /**
   * Odd idx = 2p + 1: the left term holds r[..2p] and the gap r[2p+1] - r[2p];
   * with the right term's first gap r[2p+2] - r[2p+1] that is the bridging
   * pair (r[2p], r[2p+2]).
   */
  lemma CostWithoutOddLeft(r: seq<int>, p: nat)
    requires |r| % 2 == 1 && 2 * p + 1 < |r|
    ensures NeighbourCost(RemoveAt(r, 2 * p + 1))
      == CumsumAt(p, Cumsum1(r)) + Sum(PhaseGaps(r, 1, |r| - 1)[p..])
  {
    OddLeftTerm(r, p);
    OddRightTerm(r, p);
    BridgedCost(r, p);
  }

  lemma OddLeftTerm(r: seq<int>, p: nat)
    requires |r| % 2 == 1 && 2 * p + 1 < |r|
    ensures CumsumAt(p, Cumsum1(r)) == NeighbourCost(r[..2 * p]) + (r[2 * p + 1] - r[2 * p])
  {
    var g1 := PhaseGaps(r, 0, |r| - 2);
    CumsumAtIsPrefixSum(g1, p);
    LeftGaps(r, p);
    assert g1[..p + 1] == g1[..p] + [g1[p]];
    SumConcat(g1[..p], [g1[p]]);
  }

  lemma OddRightTerm(r: seq<int>, p: nat)
    requires |r| % 2 == 1 && 2 * p + 1 < |r|
    ensures Sum(PhaseGaps(r, 1, |r| - 1)[p..])
      == (r[2 * p + 2] - r[2 * p + 1]) + NeighbourCost(r[2 * p + 3..])
  {
    var g2 := PhaseGaps(r, 1, |r| - 1);
    RightGaps(r, p + 1);
    assert g2[p..] == [g2[p]] + g2[p + 1..];
    SumConcat([g2[p]], g2[p + 1..]);
  }

  /** Removing r[2p+1] pairs r[2p] with r[2p+2]. */
  lemma BridgedCost(r: seq<int>, p: nat)
    requires |r| % 2 == 1 && 2 * p + 1 < |r|
    ensures NeighbourCost(RemoveAt(r, 2 * p + 1))
      == NeighbourCost(r[..2 * p]) + (r[2 * p + 2] - r[2 * p]) + NeighbourCost(r[2 * p + 3..])
  {
    var rest := r[2 * p + 3..];
    var bridged := [r[2 * p], r[2 * p + 2]] + rest;
    assert RemoveAt(r, 2 * p + 1) == r[..2 * p] + bridged;
    NeighbourCostConcat(r[..2 * p], bridged);
    assert bridged[2..] == rest;
  }

  // ---------------------------------------------------------------------
  // Ranking the teams
  // ---------------------------------------------------------------------

  lemma RatingsCons(x: Team, s: seq<Team>)
    ensures Ratings([x] + s) == [x.rating] + Ratings(s)
  {
  }

  lemma {:induction false} InsertByRatings(x: Team, s: seq<Team>)
    ensures multiset(Ratings(InsertBy(x, s, Rating))) == multiset(Ratings(s)) + multiset{x.rating}
  {
    if s != [] {
      assert s == [s[0]] + s[1..];
      RatingsCons(s[0], s[1..]);
      if Rating(x) <= Rating(s[0]) {
        RatingsCons(x, s);
      } else {
        var rest := InsertBy(x, s[1..], Rating);
        InsertByRatings(x, s[1..]);
        RatingsCons(s[0], rest);
      }
    }
  }

  lemma {:induction false} SortByRatings(s: seq<Team>)
    ensures multiset(Ratings(SortBy(s, Rating))) == multiset(Ratings(s))
    ensures Sorted(Ratings(SortBy(s, Rating)))
  {
    SortBySorted(s, Rating);
    if s != [] {
      SortByRatings(s[1..]);
      InsertStepRatings(s[0], s[1..], SortBy(s[1..], Rating));
      assert s == [s[0]] + s[1..];
    }
  }

  lemma InsertStepRatings(x: Team, tail: seq<Team>, sortedTail: seq<Team>)
    requires multiset(Ratings(sortedTail)) == multiset(Ratings(tail))
    ensures multiset(Ratings(InsertBy(x, sortedTail, Rating))) == multiset(Ratings([x] + tail))
  {
    InsertByRatings(x, sortedTail);
    RatingsCons(x, tail);
  }

  /**
   * What `sorted(enumerate(teams_ratings), key=rating)` yields: every input
   * position exactly once, with its own rating, ordered by rating and, on
   * equal ratings, by input position (the sort is stable).
   */
  lemma SortTeamsFacts(ratings: seq<int>)
    ensures var ts := SortTeams(ratings);
      && |ts| == |ratings|
      && multiset(Ratings(ts)) == multiset(ratings)
      && Sorted(Ratings(ts))
      && RankedBy(ts, Rating, Id)
      && (forall k :: 0 <= k < |ts| ==> ts[k].id < |ratings| && ratings[ts[k].id] == ts[k].rating)
      && (forall id :: 0 <= id < |ratings| ==> id in Ids(ts))
  {
    var en := Enumerate(ratings);
    var ts := SortTeams(ratings);
    assert |ts| == |multiset(ts)| == |multiset(en)| == |ratings|;
    SortByRatings(en);
    assert Ratings(en) == ratings;
    SortTeamsRanked(ratings);
    SortTeamsConsistent(ratings);
    SortTeamsCover(ratings);
  }

  lemma SortTeamsRanked(ratings: seq<int>)
    ensures RankedBy(SortTeams(ratings), Rating, Id)
    ensures Sorted(Ratings(SortTeams(ratings)))
  {
    SortByKeepsTiesInOrder(Enumerate(ratings), Rating, Id);
  }

  lemma SortTeamsConsistent(ratings: seq<int>)
    ensures var ts := SortTeams(ratings);
      forall k :: 0 <= k < |ts| ==> ts[k].id < |ratings| && ratings[ts[k].id] == ts[k].rating
  {
    var en := Enumerate(ratings);
    var ts := SortTeams(ratings);
    forall k | 0 <= k < |ts| ensures ts[k].id < |ratings| && ratings[ts[k].id] == ts[k].rating {
      assert ts[k] in multiset(en);
    }
  }

  lemma SortTeamsCover(ratings: seq<int>)
    ensures forall id :: 0 <= id < |ratings| ==> id in Ids(SortTeams(ratings))
  {
    var en := Enumerate(ratings);
    var ts := SortTeams(ratings);
    forall id | 0 <= id < |ratings| ensures id in Ids(ts) {
      assert en[id] in multiset(ts);
      var k :| 0 <= k < |ts| && ts[k] == en[id];
      assert Ids(ts)[k] == id;
    }
  }

  /** Ranked teams carry pairwise different ids. */
  lemma RankedIdsDistinct(ratings: seq<int>, ts: seq<Team>, i: nat, j: nat)
    requires RankedBy(ts, Rating, Id) && i < |ts| && j < |ts| && i != j
    requires forall k :: 0 <= k < |ts| ==> ts[k].id < |ratings| && ratings[ts[k].id] == ts[k].rating
    ensures ts[i].id != ts[j].id
  {
    if i > j {
      RankedIdsDistinct(ratings, ts, j, i);
    }
  }

  /** Every id in the output precedes the next by rating, then by input position. */
  ghost predicate RankOrdered(ratings: seq<int>, ids: seq<nat>)
  {
    forall i, j :: 0 <= i < j < |ids| ==>
      ids[i] < |ratings| && ids[j] < |ratings| &&
      (ratings[ids[i]] < ratings[ids[j]] || (ratings[ids[i]] == ratings[ids[j]] && ids[i] < ids[j]))
  }

  /**
   * What rank order means for the pairs drawn: no id twice, the lower
   * rating first within a pair, and each pair's ratings no higher than the
   * next pair's.
   */
  lemma RankOrderedPairs(ratings: seq<int>, pairs: seq<Pair>)
    requires RankOrdered(ratings, Flatten(pairs))
    ensures Distinct(Flatten(pairs))
    ensures forall k :: 0 <= k < |pairs| ==>
      pairs[k].first < |ratings| && pairs[k].second < |ratings| &&
      ratings[pairs[k].first] <= ratings[pairs[k].second]
    ensures forall k :: 0 <= k < |pairs| - 1 ==> ratings[pairs[k].second] <= ratings[pairs[k + 1].first]
  {
    var f := Flatten(pairs);
    forall k | 0 <= k < |pairs|
      ensures pairs[k].first < |ratings| && pairs[k].second < |ratings|
      ensures ratings[pairs[k].first] <= ratings[pairs[k].second]
    {
      assert f[2 * k] == pairs[k].first && f[2 * k + 1] == pairs[k].second;
    }
    forall k | 0 <= k < |pairs| - 1 ensures ratings[pairs[k].second] <= ratings[pairs[k + 1].first] {
      assert f[2 * k + 1] == pairs[k].second && f[2 * k + 2] == pairs[k + 1].first;
    }
  }

  lemma RankedTeamsRankOrdered(ratings: seq<int>, ts: seq<Team>)
    requires RankedBy(ts, Rating, Id)
    requires forall k :: 0 <= k < |ts| ==> ts[k].id < |ratings| && ratings[ts[k].id] == ts[k].rating
    ensures RankOrdered(ratings, Ids(ts))
  {
  }

  lemma RankedRemoveAt(ts: seq<Team>, e: nat)
    requires RankedBy(ts, Rating, Id) && e < |ts|
    ensures RankedBy(RemoveAt(ts, e), Rating, Id)
  {
    var left := RemoveAt(ts, e);
    forall i, j | 0 <= i < j < |left|
      ensures Rating(left[i]) < Rating(left[j])
        || (Rating(left[i]) == Rating(left[j]) && Id(left[i]) < Id(left[j]))
    {
      var i', j' := if i < e then i else i + 1, if j < e then j else j + 1;
      assert left[i] == ts[i'] && left[j] == ts[j'];
    }
  }

  // ---------------------------------------------------------------------
  // Pairing neighbours: even_matching
  // ---------------------------------------------------------------------

  /** `even_matching`: pairs the teams at positions (0, 1), (2, 3), ... */
  function EvenMatching(teams: seq<Team>): seq<Pair>
  {
    seq(|teams| / 2, t requires 0 <= t < |teams| / 2 => Pair(teams[2 * t].id, teams[2 * t + 1].id))
  }

  /** The pairs list the teams' ids in order; an odd last team is left out. */
  lemma EvenMatchingIds(teams: seq<Team>)
    ensures |EvenMatching(teams)| == |teams| / 2
    ensures Flatten(EvenMatching(teams)) == Ids(teams)[..2 * (|teams| / 2)]
  {
    var f := Flatten(EvenMatching(teams));
    forall i | 0 <= i < |f| ensures f[i] == teams[i].id {
      if i % 2 == 0 {
        assert 2 * (i / 2) == i;
      } else {
        assert 2 * (i / 2) + 1 == i;
      }
    }
  }

  /**
   * The imbalance of the pairs even_matching draws is the pairwise cost of
   * the teams' ratings in the order given.
   */
  lemma {:induction false} EvenMatchingImbalance(ratings: seq<int>, teams: seq<Team>)
    requires forall k :: 0 <= k < |teams| ==> teams[k].id < |ratings| && ratings[teams[k].id] == teams[k].rating
    ensures InRange(|ratings|, EvenMatching(teams))
    ensures Imbalance(ratings, EvenMatching(teams)) == AbsCost(Ratings(teams))
    decreases |teams|
  {
    var pairs := EvenMatching(teams);
    if |teams| >= 2 {
      EvenMatchingImbalance(ratings, teams[2..]);
      assert pairs[1..] == EvenMatching(teams[2..]);
      assert Ratings(teams)[2..] == Ratings(teams[2..]);
    }
  }

  // ---------------------------------------------------------------------
  // Leaving one team out: odd_matching
  // ---------------------------------------------------------------------

  /**
   * e is the position odd_matching leaves out: its cost_without is the
   * smallest, and no earlier position reaches it (the scan keeps the first
   * minimum because it only moves on a strictly smaller cost).
   */
  ghost predicate IsBye(r: seq<int>, e: nat)
    requires |r| % 2 == 1
  {
    && e < |r|
    && (forall i :: 0 <= i < |r| ==> ExclusionCost(r, e) <= ExclusionCost(r, i))
    && (forall i :: 0 <= i < e ==> ExclusionCost(r, e) < ExclusionCost(r, i))
  }

  /**
   * `odd_matching`: builds the two prefix sums, scans every position for the
   * smallest cost_without, drops that team and pairs the rest as neighbours.
   */
  method OddMatching(teams: seq<Team>) returns (pairs: seq<Pair>)
    requires |teams| % 2 == 1
    ensures exists e: nat :: IsBye(Ratings(teams), e) && pairs == EvenMatching(RemoveAt(teams, e))
  {
    var r := Ratings(teams);
    var cumsum1 := Cumsum1(r);
    var cumsum2 := Cumsum2(r);
    CumsumLengths(r);
    var minIdx, minCost := 0, CostWithout(0, cumsum1, cumsum2);
    for i := 1 to |teams|
      invariant minIdx < i
      invariant minCost == ExclusionCost(r, minIdx)
      invariant forall j :: 0 <= j < i ==> minCost <= ExclusionCost(r, j)
      invariant forall j :: 0 <= j < minIdx ==> minCost < ExclusionCost(r, j)
    {
      var cost := CostWithout(i, cumsum1, cumsum2);
      assert cost == ExclusionCost(r, i);
      if cost < minCost {
        minIdx, minCost := i, cost;
      }
    }
    var teamsLeft := teams[..minIdx] + teams[minIdx + 1..];
    pairs := EvenMatching(teamsLeft);
    assert IsBye(r, minIdx);
    assert teamsLeft == RemoveAt(teams, minIdx);
  }

  /** Both prefix sums hold one entry per pair of the teams left after one exclusion. */
  lemma CumsumLengths(r: seq<int>)
    requires |r| % 2 == 1
    ensures |Cumsum1(r)| == |Cumsum2(r)| && 2 * |Cumsum1(r)| + 1 == |r|
  {
    var h := |r| / 2;
    assert |r| == 2 * h + 1;
    assert |PhaseGaps(r, 0, |r| - 2)| == h;
    assert |PhaseGaps(r, 1, |r| - 1)| == h;
  }

  /**
   * The team odd_matching leaves out gives the most balanced neighbour
   * pairing among all single exclusions, and strictly more balanced than any
   * exclusion of an earlier position.
   */
  lemma ByeMinimisesImbalance(r: seq<int>, e: nat)
    requires |r| % 2 == 1 && IsBye(r, e)
    ensures forall i :: 0 <= i < |r| ==> NeighbourCost(RemoveAt(r, e)) <= NeighbourCost(RemoveAt(r, i))
    ensures forall i :: 0 <= i < e ==> NeighbourCost(RemoveAt(r, e)) < NeighbourCost(RemoveAt(r, i))
  {
    CostWithoutExact(r, e);
    forall i | 0 <= i < |r| ensures ExclusionCost(r, i) == NeighbourCost(RemoveAt(r, i)) {
      CostWithoutExact(r, i);
    }
  }

  // ---------------------------------------------------------------------
  // matching
  // ---------------------------------------------------------------------

  /**
   * `matching`: ranks the teams by rating (ties by input position) and pairs
   * neighbours, leaving one team out first when their number is odd. Every
   * team is drawn at most once, and all are drawn but one (the bye) for an
   * odd number; the ids come out in rank order; no perfect matching of the
   * teams (of all teams but any single one, for an odd number) has a smaller
   * total imbalance.
   */
  method Matching(ratings: seq<int>) returns (pairs: seq<Pair>)
    ensures |pairs| == |ratings| / 2
    ensures InRange(|ratings|, pairs)
    ensures RankOrdered(ratings, Flatten(pairs))
    ensures |ratings| % 2 == 0 ==> forall id :: 0 <= id < |ratings| ==> id in Flatten(pairs)
    ensures |ratings| % 2 == 1 ==> exists bye :: IsOnlyBye(|ratings|, Flatten(pairs), bye)
    ensures |ratings| % 2 == 0 ==> pairs == EvenMatching(SortTeams(ratings))
    ensures |ratings| % 2 == 1 ==>
      && |SortTeams(ratings)| == |ratings|
      && exists e: nat :: IsBye(Ratings(SortTeams(ratings)), e) && pairs == EvenMatching(RemoveAt(SortTeams(ratings), e))
    ensures |ratings| % 2 == 0 ==>
      forall q :: multiset(q) == multiset(ratings) ==> Imbalance(ratings, pairs) <= AbsCost(q)
    ensures |ratings| % 2 == 1 ==>
      forall k, q :: 0 <= k < |ratings| && multiset(q) == multiset(ratings) - multiset{ratings[k]} ==>
        Imbalance(ratings, pairs) <= AbsCost(q)
  {
    var sortedTeams := SortTeams(ratings);
    SortTeamsFacts(ratings);
    if |ratings| % 2 == 0 {
      pairs := EvenMatching(sortedTeams);
      EvenCaseFacts(ratings);
    } else {
      pairs := OddMatching(sortedTeams);
      ghost var e: nat :| IsBye(Ratings(sortedTeams), e) && pairs == EvenMatching(RemoveAt(sortedTeams, e));
      OddCaseFacts(ratings, e);
    }
  }

  /** bye < n is the one team id in 0..n-1 that ids leaves out. */
  ghost predicate IsOnlyBye(n: nat, ids: seq<nat>, bye: nat)
  {
    && bye < n
    && bye !in ids
    && forall id :: 0 <= id < n && id != bye ==> id in ids
  }

  /** Pairing the ranked teams of an even number: every team once, at least cost. */
  lemma EvenCaseFacts(ratings: seq<int>)
    requires |ratings| % 2 == 0
    ensures var pairs := EvenMatching(SortTeams(ratings));
      && |pairs| == |ratings| / 2
      && InRange(|ratings|, pairs)
      && RankOrdered(ratings, Flatten(pairs))
      && (forall id :: 0 <= id < |ratings| ==> id in Flatten(pairs))
      && forall q :: multiset(q) == multiset(ratings) ==> Imbalance(ratings, pairs) <= AbsCost(q)
  {
    var ts := SortTeams(ratings);
    var r := Ratings(ts);
    SortTeamsFacts(ratings);
    EvenMatchingIds(ts);
    assert Ids(ts)[..2 * (|ts| / 2)] == Ids(ts);
    RankedTeamsRankOrdered(ratings, ts);
    EvenMatchingImbalance(ratings, ts);
    SortedCostIsImbalance(r);
    forall q | multiset(q) == multiset(ratings) ensures NeighbourCost(r) <= AbsCost(q) {
      NeighbourPairingOptimal(r, q);
    }
  }

  /** Removing one ranked team keeps the other teams' facts. */
  lemma RemoveTeamFacts(ratings: seq<int>, ts: seq<Team>, e: nat)
    requires e < |ts| && RankedBy(ts, Rating, Id) && Sorted(Ratings(ts))
    requires forall k :: 0 <= k < |ts| ==> ts[k].id < |ratings| && ratings[ts[k].id] == ts[k].rating
    ensures var left := RemoveAt(ts, e);
      && Ratings(left) == RemoveAt(Ratings(ts), e)
      && Ids(left) == RemoveAt(Ids(ts), e)
      && Sorted(Ratings(left))
      && RankedBy(left, Rating, Id)
      && forall k :: 0 <= k < |left| ==> left[k].id < |ratings| && ratings[left[k].id] == left[k].rating
  {
    RankedRemoveAt(ts, e);
  }

  /** The ids left after removing the bye's position: all but the bye, once each. */
  lemma RemoveTeamCover(ratings: seq<int>, ts: seq<Team>, e: nat)
    requires e < |ts| && RankedBy(ts, Rating, Id)
    requires forall k :: 0 <= k < |ts| ==> ts[k].id < |ratings| && ratings[ts[k].id] == ts[k].rating
    requires forall id :: 0 <= id < |ratings| ==> id in Ids(ts)
    ensures IsOnlyBye(|ratings|, RemoveAt(Ids(ts), e), ts[e].id)
  {
    var left := RemoveAt(Ids(ts), e);
    var bye := ts[e].id;
    if bye in left {
      var k :| 0 <= k < |left| && left[k] == bye;
      var k' := if k < e then k else k + 1;
      RankedIdsDistinct(ratings, ts, k', e);
    }
    forall id | 0 <= id < |ratings| && id != bye ensures id in left {
      assert id in Ids(ts);
      var k :| 0 <= k < |ts| && Ids(ts)[k] == id;
      assert left[if k < e then k else k - 1] == id;
    }
  }

  /**
   * Pairing the ranked teams of an odd number once the bye at sorted
   * position e is out: all teams but one, at least cost among all single
   * exclusions.
   */
  lemma OddCaseFacts(ratings: seq<int>, e: nat)
    requires |ratings| % 2 == 1
    requires IsBye(Ratings(SortTeams(ratings)), e)
    ensures var pairs := EvenMatching(RemoveAt(SortTeams(ratings), e));
      && |pairs| == |ratings| / 2
      && InRange(|ratings|, pairs)
      && RankOrdered(ratings, Flatten(pairs))
      && (exists bye :: IsOnlyBye(|ratings|, Flatten(pairs), bye))
      && forall k, q :: 0 <= k < |ratings| && multiset(q) == multiset(ratings) - multiset{ratings[k]} ==>
        Imbalance(ratings, pairs) <= AbsCost(q)
  {
    var ts := SortTeams(ratings);
    SortTeamsFacts(ratings);
    RemoveTeamFacts(ratings, ts, e);
    OddCaseShape(ratings, ts, e);
    OddCaseOptimal(ratings, ts, e);
  }

  lemma OddCaseShape(ratings: seq<int>, ts: seq<Team>, e: nat)
    requires e < |ts| == |ratings| && |ratings| % 2 == 1 && RankedBy(ts, Rating, Id)
    requires forall k :: 0 <= k < |ts| ==> ts[k].id < |ratings| && ratings[ts[k].id] == ts[k].rating
    requires forall id :: 0 <= id < |ratings| ==> id in Ids(ts)
    requires Ids(RemoveAt(ts, e)) == RemoveAt(Ids(ts), e)
    ensures var pairs := EvenMatching(RemoveAt(ts, e));
      && |pairs| == |ratings| / 2
      && RankOrdered(ratings, Flatten(pairs))
      && IsOnlyBye(|ratings|, Flatten(pairs), ts[e].id)
  {
    var left := RemoveAt(ts, e);
    EvenMatchingIds(left);
    assert Ids(left)[..2 * (|left| / 2)] == Ids(left);
    RankedRemoveAt(ts, e);
    RankedTeamsRankOrdered(ratings, left);
    RemoveTeamCover(ratings, ts, e);
  }

  lemma OddCaseOptimal(ratings: seq<int>, ts: seq<Team>, e: nat)
    requires |ts| % 2 == 1 && IsBye(Ratings(ts), e)
    requires Sorted(Ratings(ts)) && multiset(Ratings(ts)) == multiset(ratings)
    requires Ratings(RemoveAt(ts, e)) == RemoveAt(Ratings(ts), e) && Sorted(RemoveAt(Ratings(ts), e))
    requires forall k :: 0 <= k < |ts| ==> ts[k].id < |ratings| && ratings[ts[k].id] == ts[k].rating
    ensures var pairs := EvenMatching(RemoveAt(ts, e));
      && InRange(|ratings|, pairs)
      && forall k, q :: 0 <= k < |ratings| && multiset(q) == multiset(ratings) - multiset{ratings[k]} ==>
        Imbalance(ratings, pairs) <= AbsCost(q)
  {
    var r := Ratings(ts);
    var left := RemoveAt(ts, e);
    EvenMatchingImbalance(ratings, left);
    SortedCostIsImbalance(RemoveAt(r, e));
    ByeMinimisesImbalance(r, e);
    forall k, q | 0 <= k < |ratings| && multiset(q) == multiset(ratings) - multiset{ratings[k]}
      ensures NeighbourCost(RemoveAt(r, e)) <= AbsCost(q)
    {
      ExcludedRatingOptimal(r, ratings, k, q);
    }
  }

  /**
   * Excluding the team of rating ratings[k] and pairing the rest in any
   * arrangement q costs at least the neighbour pairing of the sorted ratings
   * with one position of that rating removed.
   */
  lemma ExcludedRatingOptimal(r: seq<int>, ratings: seq<int>, k: nat, q: seq<int>)
    requires Sorted(r) && |r| % 2 == 1 && multiset(r) == multiset(ratings)
    requires k < |ratings| && multiset(q) == multiset(ratings) - multiset{ratings[k]}
    ensures exists i :: 0 <= i < |r| && r[i] == ratings[k] && NeighbourCost(RemoveAt(r, i)) <= AbsCost(q)
  {
    assert ratings[k] in multiset(r);
    var i := PositionOf(r, ratings[k]);
    ExcludedPositionOptimal(r, i, q);
  }

  lemma PositionOf(r: seq<int>, x: int) returns (i: nat)
    requires x in multiset(r)
    ensures i < |r| && r[i] == x
  {
    i :| 0 <= i < |r| && r[i] == x;
  }

  /** Pairing the neighbours left after removing position i beats any matching of those ratings. */
  lemma ExcludedPositionOptimal(r: seq<int>, i: nat, q: seq<int>)
    requires Sorted(r) && |r| % 2 == 1 && i < |r|
    requires multiset(q) == multiset(r) - multiset{r[i]}
    ensures NeighbourCost(RemoveAt(r, i)) <= AbsCost(q)
  {
    RemoveAtMultiset(r, i);
    SortedRemoveAt(r, i);
    NeighbourPairingOptimal(RemoveAt(r, i), q);
  }


  /** Only one position is the bye: the first smallest cost. */
  lemma ByeUnique(r: seq<int>, e1: nat, e2: nat)
    requires |r| % 2 == 1 && IsBye(r, e1) && IsBye(r, e2)
    ensures e1 == e2
  {
    var c1, c2 := ExclusionCost(r, e1), ExclusionCost(r, e2);
    assert c1 <= c2 && c2 <= c1;
  }

  /**
   * Ratings 10, 12, 50, 51, 52: the team rated 50 sits between two tight
   * clusters and gets the bye; the rest pair up at a cost of 2 + 1.
   */
  lemma ByeExample()
    ensures IsBye([10, 12, 50, 51, 52], 2)
    ensures NeighbourCost(RemoveAt([10, 12, 50, 51, 52], 2)) == 3
  {
    var r := [10, 12, 50, 51, 52];
    var costs := [39, 41, 3, 4, 3];
    forall i | 0 <= i < 5 ensures ExclusionCost(r, i) == costs[i] {
      CostWithoutExact(r, i);
      ExampleExclusion(i);
    }
  }

  lemma ExampleExclusion(i: nat)
    requires i < 5
    ensures NeighbourCost(RemoveAt([10, 12, 50, 51, 52], i)) == [39, 41, 3, 4, 3][i]
  {
    var r := [10, 12, 50, 51, 52];
    var s := RemoveAt(r, i);
    if i == 0 {
      assert s == [12, 50, 51, 52];
    } else if i == 1 {
      assert s == [10, 50, 51, 52];
    } else if i == 2 {
      assert s == [10, 12, 51, 52];
    } else if i == 3 {
      assert s == [10, 12, 50, 52];
    } else {
      assert s == [10, 12, 50, 51];
    }
    PairCost(s);
  }

  lemma PairCost(s: seq<int>)
    requires |s| == 4
    ensures NeighbourCost(s) == (s[1] - s[0]) + (s[3] - s[2])
  {
    var t := s[2..];
    assert |t| == 2 && t[0] == s[2] && t[1] == s[3] && t[2..] == [];
    assert NeighbourCost(t) == s[3] - s[2];
  }

  /** Ratings 10, 20, 30, 40 are drawn as teams 0 v 1 and 2 v 3. */
  lemma EvenExample(r: seq<int>)
    requires r == [10, 20, 30, 40]
    ensures EvenMatching(SortTeams(r)) == [Pair(0, 1), Pair(2, 3)]
  {
    EvenExampleTeams(r);
    var m := EvenMatching([Team(0, 10), Team(1, 20), Team(2, 30), Team(3, 40)]);
    assert |m| == 2 && m[0] == Pair(0, 1) && m[1] == Pair(2, 3);
  }

  lemma EvenExampleTeams(r: seq<int>)
    requires r == [10, 20, 30, 40]
    ensures SortTeams(r) == [Team(0, 10), Team(1, 20), Team(2, 30), Team(3, 40)]
  {
    var ts := [Team(0, 10), Team(1, 20), Team(2, 30), Team(3, 40)];
    assert Enumerate(r) == ts;
    forall i, j | 0 <= i < j < 4 ensures ts[i].rating <= ts[j].rating {
      assert r[i] <= r[j];
    }
    SortByOrdered(ts, Rating);
  }

  /** Ratings already in order are sorted into the teams 0, 1, 2, ... in turn. */
  lemma OddExampleTeams(r: seq<int>)
    requires r == [10, 12, 50, 51, 52]
    ensures SortTeams(r) == [Team(0, 10), Team(1, 12), Team(2, 50), Team(3, 51), Team(4, 52)]
  {
    var ts := [Team(0, 10), Team(1, 12), Team(2, 50), Team(3, 51), Team(4, 52)];
    assert Enumerate(r) == ts;
    forall i, j | 0 <= i < j < 5 ensures ts[i].rating <= ts[j].rating {
      assert r[i] <= r[j];
    }
    SortByOrdered(ts, Rating);
  }

  /**
   * Ratings 10, 12, 50, 51, 52: with team 2 on the bye (ByeExample), the
   * remaining teams are drawn as 0 v 1 and 3 v 4.
   */
  lemma OddExample(r: seq<int>)
    requires r == [10, 12, 50, 51, 52]
    ensures |SortTeams(r)| == 5
    ensures EvenMatching(RemoveAt(SortTeams(r), 2)) == [Pair(0, 1), Pair(3, 4)]
  {
    OddExampleTeams(r);
    var ts := [Team(0, 10), Team(1, 12), Team(2, 50), Team(3, 51), Team(4, 52)];
    var rest := RemoveAt(ts, 2);
    assert rest == [Team(0, 10), Team(1, 12), Team(3, 51), Team(4, 52)];
  }

  /**
   * What Matching's contract pins down for ratings 10, 12, 50, 51, 52: the
   * only bye is sorted position 2, so the draw is 0 v 1 and 3 v 4.
   */
  lemma MatchingOddExample(r: seq<int>, pairs: seq<Pair>)
    requires r == [10, 12, 50, 51, 52]
    requires |SortTeams(r)| == |r|
    requires exists e: nat :: IsBye(Ratings(SortTeams(r)), e) && pairs == EvenMatching(RemoveAt(SortTeams(r), e))
    ensures pairs == [Pair(0, 1), Pair(3, 4)]
  {
    var e: nat :| IsBye(Ratings(SortTeams(r)), e) && pairs == EvenMatching(RemoveAt(SortTeams(r), e));
    OddExampleBye(r, e);
    OddExample(r);
  }

  lemma OddExampleBye(r: seq<int>, e: nat)
    requires r == [10, 12, 50, 51, 52]
    requires |SortTeams(r)| == |r| && IsBye(Ratings(SortTeams(r)), e)
    ensures e == 2
  {
    OddExampleRatings(r);
    ByeExample();
    ByeUnique(r, e, 2);
  }

  lemma OddExampleRatings(r: seq<int>)
    requires r == [10, 12, 50, 51, 52]
    ensures Ratings(SortTeams(r)) == r
  {
    OddExampleTeams(r);
  }
}
