/** Competition ranking of per-node scores, shared by the four centrality
    modules (`result_func` and the table built from it in
    centrality_measures_module.py). */
module Ranking {
  import opened Common
  import opened Sorting

  /** One item of a node -> score dict. */
  datatype Scored = Scored(node: NodeId, score: real)

  /** One entry `result[key] = num, rank` of `result_func`'s dict. */
  datatype Ranked = Ranked(node: NodeId, score: real, rank: nat)

  /** One row `[Rank, Node, Score]` of the output table. */
  datatype Row = Row(rank: nat, node: NodeId, score: real)

  /** The items of a dict: every key once. */
  predicate DistinctNodes(items: seq<Scored>)
  {
    forall i, j :: 0 <= i < j < |items| ==> items[i].node != items[j].node
  }

  /** The key of the first sort: `itemgetter(1)` with `reverse=True`. */
  predicate HigherScore(a: Scored, b: Scored)
  {
    a.score > b.score
  }

  /** The key of the second sort: the tuple `(num, rank)`, compared
      lexicographically, with `reverse=True`. */
  predicate HigherScoreThenRank(a: Ranked, b: Ranked)
  {
    a.score > b.score || (a.score == b.score && a.rank > b.rank)
  }

  /** Where the run of equal consecutive scores that contains item `k` starts. */
  function GroupStart(items: seq<Scored>, k: nat): (g: nat)
    requires k < |items|
    ensures g <= k
    ensures g == 0 || items[g - 1].score != items[g].score
    ensures forall j :: g <= j <= k ==> items[j].score == items[k].score
  {
    if k == 0 || items[k - 1].score != items[k].score then k
    else GroupStart(items, k - 1)
  }

  /** What `result_func` computes: each item with its score and the 1-based
      position at which its run of equal scores starts. */
  function RunRanks(items: seq<Scored>): (r: seq<Ranked>)
    ensures |r| == |items|
  {
    seq(|items|, k requires 0 <= k < |items| =>
      Ranked(items[k].node, items[k].score, GroupStart(items, k) + 1))
  }

  /** `result_func`: walks the list with the counters `rank`, `count` and
      `previous`. */
  method CompetitionRank(items: seq<Scored>) returns (result: seq<Ranked>)
    ensures result == RunRanks(items)
  {
    var rank: nat, count: nat, previous: Option<real> := 0, 0, None;
    result := [];
    for i := 0 to |items|
      invariant rank + count == i
      invariant i == 0 ==> rank == 0 && previous == None
      invariant i > 0 ==> previous == Some(items[i - 1].score)
      invariant i > 0 ==> rank == GroupStart(items, i - 1) + 1
      invariant result == RunRanks(items)[..i]
    {
      var key, num := items[i].node, items[i].score;
      count := count + 1;
      if previous != Some(num) {
        rank := rank + count;
        previous := Some(num);
        count := 0;
      }
      result := result + [Ranked(key, num, rank)];
    }
  }

  function ToRow(e: Ranked): Row
  {
    Row(e.rank, e.node, e.score)
  }

  /** The rows of the table without their ranks. */
  function Unranked(rows: seq<Row>): (r: seq<Scored>)
    ensures |r| == |rows|
  {
    seq(|rows|, k requires 0 <= k < |rows| => Scored(rows[k].node, rows[k].score))
  }

  /** The rows the list comprehension at line 85 builds. */
  function RankRows(scores: seq<Scored>): seq<Row>
  {
    var ranked := RunRanks(SortBy(scores, HigherScore));
    var ordered := SortBy(ranked, HigherScoreThenRank);
    seq(|ordered|, k requires 0 <= k < |ordered| => ToRow(ordered[k]))
  }

  /** The rank table: sort, rank, sort again, and name the three columns,
      which fails when there are no rows (the frame then has no columns). */
  method RankTable(scores: seq<Scored>) returns (r: Result<seq<Row>>)
    ensures r.Success? <==> |scores| > 0
    ensures r.Success? ==> r.value == RankRows(scores)
    ensures r.Failure? ==> r.error == EmptyRanking
  {
    var sorted := SortBy(scores, HigherScore);
    var ranked := CompetitionRank(sorted);
    var ordered := SortBy(ranked, HigherScoreThenRank);
    var rows := seq(|ordered|, k requires 0 <= k < |ordered| => ToRow(ordered[k]));
    if |rows| == 0 {
      return Failure(EmptyRanking);
    }
    return Success(rows);
  }

  // ---------------------------------------------------------------------
  // What the table promises.

  /** The number of items whose score is strictly higher than `v`. */
  function CountAbove(items: seq<Scored>, v: real): (n: nat)
    ensures n <= |items|
  {
    if |items| == 0 then 0
    else CountAbove(items[..|items| - 1], v) + (if items[|items| - 1].score > v then 1 else 0)
  }

  /** Scores never increase along the sequence. */
  predicate ScoresDescending(items: seq<Scored>)
  {
    forall i, j :: 0 <= i < j < |items| ==> items[i].score >= items[j].score
  }

  lemma HigherScoreIsWeakOrder()
    ensures StrictWeakOrder(HigherScore)
  {
  }

  lemma HigherScoreThenRankIsWeakOrder()
    ensures StrictWeakOrder(HigherScoreThenRank)
  {
  }

  lemma {:induction false} CountAboveAll(items: seq<Scored>, v: real)
    requires forall j :: 0 <= j < |items| ==> items[j].score > v
    ensures CountAbove(items, v) == |items|
  {
    if |items| > 0 {
      CountAboveAll(items[..|items| - 1], v);
    }
  }

  lemma {:induction false} CountAboveNone(items: seq<Scored>, v: real)
    requires forall j :: 0 <= j < |items| ==> items[j].score <= v
    ensures CountAbove(items, v) == 0
  {
    if |items| > 0 {
      CountAboveNone(items[..|items| - 1], v);
    }
  }

  lemma {:induction false} CountAboveSplit(items: seq<Scored>, k: nat, v: real)
    requires k <= |items|
    ensures CountAbove(items, v) == CountAbove(items[..k], v) + CountAbove(items[k..], v)
  {
    if k < |items| {
      var n := |items| - 1;
      CountAboveSplit(items[..n], k, v);
      assert items[..n][..k] == items[..k];
      assert items[k..][..|items[k..]| - 1] == items[..n][k..];
    } else {
      assert items[..k] == items;
    }
  }

  /** On a score-descending sequence the start of an item's run is the number
      of items with a strictly higher score: competition ranking. */
  lemma {:induction false} GroupStartCountsHigher(items: seq<Scored>, k: nat)
    requires ScoresDescending(items)
    requires k < |items|
    ensures GroupStart(items, k) == CountAbove(items, items[k].score)
  {
    var g := GroupStart(items, k);
    var v := items[k].score;
    CountAboveSplit(items, g, v);
    if g > 0 {
      assert items[g - 1].score > v;
    }
    CountAboveAll(items[..g], v);
    CountAboveNone(items[g..], v);
  }

  /** On a score-descending sequence, equal scores lie in one run. */
  lemma GroupStartOfEqualScores(items: seq<Scored>, i: nat, j: nat)
    requires ScoresDescending(items)
    requires i < |items| && j < |items|
    ensures GroupStart(items, i) == GroupStart(items, j) <==> items[i].score == items[j].score
  {
    GroupStartCountsHigher(items, i);
    GroupStartCountsHigher(items, j);
  }

  /** The second sort changes nothing: the ranked entries already come in
      descending `(score, rank)` order. */
  lemma {:induction false} SecondSortIsIdentity(sorted: seq<Scored>)
    requires ScoresDescending(sorted)
    ensures SortBy(RunRanks(sorted), HigherScoreThenRank) == RunRanks(sorted)
  {
    var ranked := RunRanks(sorted);
    forall i, j | 0 <= i < j < |ranked|
      ensures !HigherScoreThenRank(ranked[j], ranked[i])
    {
      if sorted[i].score == sorted[j].score {
        GroupStartOfEqualScores(sorted, i, j);
      }
    }
    SortByIdentity(ranked, HigherScoreThenRank);
  }

  lemma SortedScoresDescending(scores: seq<Scored>)
    ensures ScoresDescending(SortBy(scores, HigherScore))
  {
    HigherScoreIsWeakOrder();
    SortBySorted(scores, HigherScore);
  }

  /** The table is the stable score-descending sort of the scores, each row
      carrying the rank of its run. */
  lemma RankRowsAreSortedScores(scores: seq<Scored>)
    ensures Unranked(RankRows(scores)) == SortBy(scores, HigherScore)
    ensures forall k :: 0 <= k < |scores| ==>
      RankRows(scores)[k].rank == GroupStart(SortBy(scores, HigherScore), k) + 1
  {
    var sorted := SortBy(scores, HigherScore);
    SortedScoresDescending(scores);
    SecondSortIsIdentity(sorted);
  }

  /** One row per item of the score map: node and score stay together, and
      nothing is dropped or duplicated. */
  lemma RankRowsPermuteScores(scores: seq<Scored>)
    ensures |RankRows(scores)| == |scores|
    ensures multiset(Unranked(RankRows(scores))) == multiset(scores)
  {
    RankRowsAreSortedScores(scores);
  }

  lemma {:induction false} DistinctNodesOnce(s: seq<Scored>, x: Scored)
    requires DistinctNodes(s)
    ensures multiset(s)[x] <= 1
  {
    if |s| > 0 {
      var n := |s| - 1;
      DistinctNodesOnce(s[..n], x);
      assert s == s[..n] + [s[n]];
      if s[n] == x {
        assert x !in s[..n];
      }
    }
  }

  lemma RepeatedTwice(t: seq<Scored>, i: nat, j: nat)
    requires i < j < |t| && t[i] == t[j]
    ensures multiset(t)[t[i]] >= 2
  {
    assert t == t[..j] + [t[j]] + t[j + 1..];
    assert t[i] in t[..j];
  }

  /** A permutation of a dict's items has distinct nodes too. */
  lemma {:induction false} DistinctNodesPermuted(s: seq<Scored>, t: seq<Scored>)
    requires DistinctNodes(s)
    requires multiset(s) == multiset(t)
    ensures DistinctNodes(t)
  {
    forall i, j | 0 <= i < j < |t| ensures t[i].node != t[j].node {
      if t[i] == t[j] {
        RepeatedTwice(t, i, j);
        DistinctNodesOnce(s, t[i]);
      } else {
        assert t[i] in multiset(s) && t[j] in multiset(s);
        var p :| 0 <= p < |s| && s[p] == t[i];
        var q :| 0 <= q < |s| && s[q] == t[j];
        assert p < q || q < p;
      }
    }
  }

  /** No node appears in two rows. */
  lemma RankRowsDistinct(scores: seq<Scored>)
    requires DistinctNodes(scores)
    ensures forall i, j :: 0 <= i < j < |RankRows(scores)| ==>
      RankRows(scores)[i].node != RankRows(scores)[j].node
  {
    RankRowsAreSortedScores(scores);
    var u := Unranked(RankRows(scores));
    DistinctNodesPermuted(scores, u);
    forall i, j | 0 <= i < j < |RankRows(scores)|
      ensures RankRows(scores)[i].node != RankRows(scores)[j].node
    {
      assert u[i].node != u[j].node;
    }
  }

  /** Rows come by descending score; rows with equal scores keep the order of
      the score map (both sorts are stable). */
  lemma RankRowsOrder(scores: seq<Scored>)
    ensures forall i, j :: 0 <= i < j < |RankRows(scores)| ==>
      RankRows(scores)[i].score >= RankRows(scores)[j].score
    ensures forall x :: TiedWith(Unranked(RankRows(scores)), x, HigherScore)
                     == TiedWith(scores, x, HigherScore)
  {
    RankRowsAreSortedScores(scores);
    SortedScoresDescending(scores);
    var u := Unranked(RankRows(scores));
    forall i, j | 0 <= i < j < |RankRows(scores)|
      ensures RankRows(scores)[i].score >= RankRows(scores)[j].score
    {
      assert u[i].score >= u[j].score;
    }
    HigherScoreIsWeakOrder();
    forall x ensures TiedWith(u, x, HigherScore) == TiedWith(scores, x, HigherScore) {
      SortByStable(scores, x, HigherScore);
    }
  }

  /** Each row's score and rank, read off the sorted scores. */
  lemma RankRowsAt(scores: seq<Scored>, k: nat)
    requires k < |scores|
    ensures |RankRows(scores)| == |scores|
    ensures RankRows(scores)[k].score == SortBy(scores, HigherScore)[k].score
    ensures RankRows(scores)[k].rank == GroupStart(SortBy(scores, HigherScore), k) + 1
  {
    RankRowsAreSortedScores(scores);
    assert Unranked(RankRows(scores))[k].score == RankRows(scores)[k].score;
  }

  /** Competition ranking, row by row: the first row has rank 1, row k
      (0-based) has rank at most k + 1, exactly k + 1 when its score differs
      from the previous row's, and the previous row's rank otherwise. */
  lemma RankRowsCompetition(scores: seq<Scored>)
    ensures var rows := RankRows(scores);
      && (|rows| > 0 ==> rows[0].rank == 1)
      && (forall k :: 0 <= k < |rows| ==> 1 <= rows[k].rank <= k + 1)
      && (forall k :: 0 < k < |rows| && rows[k].score != rows[k - 1].score ==> rows[k].rank == k + 1)
      && (forall k :: 0 < k < |rows| && rows[k].score == rows[k - 1].score ==> rows[k].rank == rows[k - 1].rank)
  {
    RankRowsBounded(scores);
    RankRowsSteps(scores);
    if |scores| > 0 {
      RankRowsAt(scores, 0);
    }
  }

  lemma RankRowsLength(scores: seq<Scored>)
    ensures |RankRows(scores)| == |scores|
  {
  }

  lemma RankRowsBounded(scores: seq<Scored>)
    ensures forall k :: 0 <= k < |RankRows(scores)| ==> 1 <= RankRows(scores)[k].rank <= k + 1
  {
    RankRowsLength(scores);
    forall k | 0 <= k < |scores| ensures 1 <= RankRows(scores)[k].rank <= k + 1 {
      RankRowsAt(scores, k);
    }
  }

  lemma RankRowsSteps(scores: seq<Scored>)
    ensures var rows := RankRows(scores);
      forall k :: 0 < k < |rows| ==>
        && (rows[k].score != rows[k - 1].score ==> rows[k].rank == k + 1)
        && (rows[k].score == rows[k - 1].score ==> rows[k].rank == rows[k - 1].rank)
  {
    var rows := RankRows(scores);
    RankRowsLength(scores);
    forall k | 0 < k < |rows|
      ensures rows[k].score != rows[k - 1].score ==> rows[k].rank == k + 1
      ensures rows[k].score == rows[k - 1].score ==> rows[k].rank == rows[k - 1].rank
    {
      RankRowsAt(scores, k);
      RankRowsAt(scores, k - 1);
    }
  }

  /** A row's rank is one more than the number of rows with a strictly
      higher score. */
  lemma RankRowsCountHigher(scores: seq<Scored>)
    ensures forall k :: 0 <= k < |RankRows(scores)| ==>
      RankRows(scores)[k].rank == CountAbove(Unranked(RankRows(scores)), RankRows(scores)[k].score) + 1
  {
    var rows := RankRows(scores);
    var sorted := SortBy(scores, HigherScore);
    RankRowsAreSortedScores(scores);
    SortedScoresDescending(scores);
    forall k | 0 <= k < |rows|
      ensures rows[k].rank == CountAbove(Unranked(rows), rows[k].score) + 1
    {
      RankRowsAt(scores, k);
      GroupStartCountsHigher(sorted, k);
    }
  }

  /** Two rows share a rank exactly when they share a score. */
  lemma RankRowsTies(scores: seq<Scored>)
    ensures forall i, j :: 0 <= i < |RankRows(scores)| && 0 <= j < |RankRows(scores)| ==>
      (RankRows(scores)[i].rank == RankRows(scores)[j].rank <==> RankRows(scores)[i].score == RankRows(scores)[j].score)
  {
    var rows := RankRows(scores);
    var sorted := SortBy(scores, HigherScore);
    RankRowsPermuteScores(scores);
    SortedScoresDescending(scores);
    forall i, j | 0 <= i < |rows| && 0 <= j < |rows|
      ensures rows[i].rank == rows[j].rank <==> rows[i].score == rows[j].score
    {
      RankRowsAt(scores, i);
      RankRowsAt(scores, j);
      GroupStartOfEqualScores(sorted, i, j);
    }
  }

  /** Ranks never decrease along the rows. */
  lemma RankRowsNonDecreasing(scores: seq<Scored>)
    ensures forall i, j :: 0 <= i <= j < |RankRows(scores)| ==> RankRows(scores)[i].rank <= RankRows(scores)[j].rank
  {
    var rows := RankRows(scores);
    var sorted := SortBy(scores, HigherScore);
    RankRowsPermuteScores(scores);
    SortedScoresDescending(scores);
    forall i, j | 0 <= i <= j < |rows| ensures rows[i].rank <= rows[j].rank {
      RankRowsAt(scores, i);
      RankRowsAt(scores, j);
      GroupStartCountsHigher(sorted, i);
      GroupStartCountsHigher(sorted, j);
      CountAboveMonotone(sorted, sorted[i].score, sorted[j].score);
    }
  }

  lemma {:induction false} CountAboveMonotone(items: seq<Scored>, v: real, w: real)
    requires w <= v
    ensures CountAbove(items, v) <= CountAbove(items, w)
  {
    if |items| > 0 {
      CountAboveMonotone(items[..|items| - 1], v, w);
    }
  }

  /** On scores that already come in descending order the table keeps them
      in place and ranks each by the start of its run. */
  lemma RankRowsOfSorted(scores: seq<Scored>, k: nat)
    requires ScoresDescending(scores)
    requires k < |scores|
    ensures |RankRows(scores)| == |scores|
    ensures RankRows(scores)[k] == Row(GroupStart(scores, k) + 1, scores[k].node, scores[k].score)
  {
    assert SortedBy(scores, HigherScore);
    SortByIdentity(scores, HigherScore);
    RankRowsAt(scores, k);
    RankRowsAreSortedScores(scores);
    assert Unranked(RankRows(scores))[k] == scores[k];
  }

  /** Two nodes tied on the top score and one below them are ranked 1, 1, 3
      (the example {A: 10, B: 10, C: 5}). */
  lemma TiedExample(scores: seq<Scored>)
    requires |scores| == 3
    requires scores[0].score == scores[1].score && scores[2].score < scores[1].score
    ensures RankRows(scores)
         == [Row(1, scores[0].node, scores[0].score),
             Row(1, scores[1].node, scores[1].score),
             Row(3, scores[2].node, scores[2].score)]
  {
    assert ScoresDescending(scores);
    var r := RankRows(scores);
    RankRowsOfSorted(scores, 0);
    RankRowsOfSorted(scores, 1);
    RankRowsOfSorted(scores, 2);
    assert GroupStart(scores, 1) == 0;
    assert GroupStart(scores, 2) == 2;
    assert r[0] == Row(1, scores[0].node, scores[0].score);
    assert r[1] == Row(1, scores[1].node, scores[1].score);
    assert r[2] == Row(3, scores[2].node, scores[2].score);
  }
}
