/** Column-wise pandas operations the tm_dash modules call: `Series.apply`,
    `Series.unique`, `Series.value_counts` and `Series.replace` with two
    lists. */
module Columns {
  import opened Common
  import opened Sorting
  import opened Frames

  // ---------------------------------------------------------------------
  // `Series.apply(f)`: `f` on every cell in row order; the first exception
  // ends the call.

  function Apply(col: seq<Cell>, f: Cell -> Result<Cell>): (r: Result<seq<Cell>>)
    ensures r.Success? <==> forall i :: 0 <= i < |col| ==> f(col[i]).Success?
    ensures r.Success? ==> |r.value| == |col| && forall i :: 0 <= i < |col| ==> r.value[i] == f(col[i]).value
    ensures r.Failure? ==> exists i :: && 0 <= i < |col|
                                       && f(col[i]) == Failure(r.error)
                                       && forall j :: 0 <= j < i ==> f(col[j]).Success?
  {
    if |col| == 0 then Success([])
    else
      match f(col[0])
      case Failure(e) => Failure(e)
      case Success(c) =>
        match Apply(col[1..], f)
        case Failure(e) =>
          assert forall j :: 1 <= j < |col| ==> col[j] == col[1..][j - 1];
          Failure(e)
        case Success(rest) =>
          assert forall j :: 1 <= j < |col| ==> col[j] == col[1..][j - 1];
          Success([c] + rest)
  }

  // ---------------------------------------------------------------------
  // `Series.unique().tolist()`: each value once, in order of first
  // appearance.

  function Unique<T(==,!new)>(s: seq<T>): (u: seq<T>)
    ensures Distinct(u)
    ensures forall x :: x in u <==> x in s
    ensures |u| <= |s|
  {
    if |s| == 0 then []
    else
      var rest := Unique(s[..|s| - 1]);
      var x := s[|s| - 1];
      assert s == s[..|s| - 1] + [x];
      if x in rest then rest else rest + [x]
  }

  /** The position of the first occurrence of `x` in `s`. */
  function FirstIndex<T(==,!new)>(s: seq<T>, x: T): (i: nat)
    requires x in s
    ensures i < |s| && s[i] == x && x !in s[..i]
    ensures forall j :: 0 <= j < i ==> s[j] != x
  {
    if s[0] == x then 0
    else
      assert s[1..] == s[..][1..];
      var j := FirstIndex(s[1..], x);
      assert s[..j + 1] == [s[0]] + s[1..][..j];
      j + 1
  }

  lemma FirstIndexPrefix<T(!new)>(s: seq<T>, y: T, x: T)
    requires x in s
    ensures x in s + [y] && FirstIndex(s + [y], x) == FirstIndex(s, x)
  {
    var i, k := FirstIndex(s, x), FirstIndex(s + [y], x);
    assert (s + [y])[i] == x;
    assert k <= i;
    assert s[k] == (s + [y])[k];
  }

  /** The values come out in the order of their first occurrence. */
  lemma {:induction false} UniqueFirstAppearance<T(!new)>(s: seq<T>)
    ensures forall i, j :: 0 <= i < j < |Unique(s)| ==>
      FirstIndex(s, Unique(s)[i]) < FirstIndex(s, Unique(s)[j])
  {
    if |s| > 0 {
      var p := s[..|s| - 1];
      var x := s[|s| - 1];
      assert s == p + [x];
      UniqueFirstAppearance(p);
      var u := Unique(p);
      forall i, j | 0 <= i < j < |Unique(s)| ensures FirstIndex(s, Unique(s)[i]) < FirstIndex(s, Unique(s)[j]) {
        assert Unique(s)[i] == u[i];
        FirstIndexPrefix(p, x, u[i]);
        if j < |u| {
          assert Unique(s)[j] == u[j];
          FirstIndexPrefix(p, x, u[j]);
        } else {
          assert Unique(s)[j] == x && x !in p;
          assert FirstIndex(s, x) == |p|;
        }
      }
    }
  }

  // ---------------------------------------------------------------------
  // `Series.value_counts()`: the distinct values with their number of
  // occurrences, most frequent first.

  datatype ValueCounts<T> = ValueCounts(values: seq<T>, counts: seq<nat>)

  /** More occurrences in `s`. */
  function MoreFrequent<T(==,!new)>(s: seq<T>): (T, T) -> bool
  {
    (a: T, b: T) => multiset(s)[a] > multiset(s)[b]
  }

  function Counts<T(==,!new)>(values: seq<T>, s: seq<T>): (c: seq<nat>)
    ensures |c| == |values| && forall i :: 0 <= i < |values| ==> c[i] == multiset(s)[values[i]]
  {
    seq(|values|, i requires 0 <= i < |values| => multiset(s)[values[i]])
  }

  /** The distinct values, sorted by frequency with ties in order of first
      appearance, and their frequencies. */
  function CountValues<T(==,!new)>(s: seq<T>): (vc: ValueCounts<T>)
    ensures |vc.values| == |vc.counts|
  {
    var values := SortBy(Unique(s), MoreFrequent(s));
    ValueCounts(values, Counts(values, s))
  }

  function Sum(c: seq<nat>): nat
  {
    if |c| == 0 then 0 else Sum(c[..|c| - 1]) + c[|c| - 1]
  }

  lemma {:induction false} SumAppend(a: seq<nat>, b: seq<nat>)
    ensures Sum(a + b) == Sum(a) + Sum(b)
    decreases |b|
  {
    if |b| == 0 {
      assert a + b == a;
    } else {
      assert (a + b)[..|a + b| - 1] == a + b[..|b| - 1];
      SumAppend(a, b[..|b| - 1]);
    }
  }

  lemma CountsConcat<T(!new)>(a: seq<T>, b: seq<T>, s: seq<T>)
    ensures Counts(a + b, s) == Counts(a, s) + Counts(b, s)
    ensures Sum(Counts(a + b, s)) == Sum(Counts(a, s)) + Sum(Counts(b, s))
  {
    assert Counts(a + b, s) == Counts(a, s) + Counts(b, s);
    SumAppend(Counts(a, s), Counts(b, s));
  }

  lemma SumCountsSingle<T(!new)>(x: T, s: seq<T>)
    ensures Sum(Counts([x], s)) == multiset(s)[x]
  {
    assert Counts([x], s)[..0] == [];
  }

  /** Taking out the value at `k` takes out its count. */
  lemma SumCountsRemove<T(!new)>(b: seq<T>, k: nat, s: seq<T>)
    requires k < |b|
    ensures multiset(b) == multiset(b[..k] + b[k + 1..]) + multiset{b[k]}
    ensures Sum(Counts(b, s)) == Sum(Counts(b[..k] + b[k + 1..], s)) + multiset(s)[b[k]]
  {
    var p, x, q := b[..k], b[k], b[k + 1..];
    assert b == p + ([x] + q);
    assert multiset(b) == multiset(p) + multiset{x} + multiset(q);
    CountsConcat(p, [x] + q, s);
    CountsConcat([x], q, s);
    CountsConcat(p, q, s);
    SumCountsSingle(x, s);
  }

  /** The sum of the counts does not depend on the order of the values. */
  lemma {:induction false} SumCountsPermuted<T(!new)>(a: seq<T>, b: seq<T>, s: seq<T>)
    requires multiset(a) == multiset(b)
    ensures Sum(Counts(a, s)) == Sum(Counts(b, s))
    decreases |a|
  {
    if |a| > 0 {
      var x := a[|a| - 1];
      var a' := a[..|a| - 1];
      assert a == a' + [x];
      assert x in multiset(b);
      var k :| 0 <= k < |b| && b[k] == x;
      var b' := b[..k] + b[k + 1..];
      SumCountsRemove(b, k, s);
      CountsConcat(a', [x], s);
      SumCountsSingle(x, s);
      assert multiset(a) == multiset(a') + multiset{x};
      forall z ensures multiset(a')[z] == multiset(b')[z] {
        assert multiset(a)[z] == multiset(a')[z] + multiset{x}[z];
        assert multiset(b)[z] == multiset(b')[z] + multiset{x}[z];
      }
      assert multiset(a') == multiset(b');
      SumCountsPermuted(a', b', s);
    } else {
      assert |b| == 0;
    }
  }

  /** One more occurrence of `y` adds one to the counts of distinct values
      that include `y`, and nothing otherwise. */
  lemma {:induction false} SumCountsExtend<T(!new)>(u: seq<T>, s: seq<T>, y: T)
    requires Distinct(u)
    ensures Sum(Counts(u, s + [y])) == Sum(Counts(u, s)) + (if y in u then 1 else 0)
    decreases |u|
  {
    if |u| > 0 {
      var u' := u[..|u| - 1];
      var x := u[|u| - 1];
      assert u == u' + [x];
      assert Distinct(u') by {
        forall i, j | 0 <= i < j < |u'| ensures u'[i] != u'[j] {
          assert u'[i] == u[i] && u'[j] == u[j];
        }
      }
      SumCountsExtend(u', s, y);
      assert Counts(u, s + [y]) == Counts(u', s + [y]) + [multiset(s + [y])[x]];
      assert Counts(u, s) == Counts(u', s) + [multiset(s)[x]];
      SumAppend(Counts(u', s + [y]), [multiset(s + [y])[x]]);
      SumAppend(Counts(u', s), [multiset(s)[x]]);
      if x == y {
        assert y !in u';
      }
    }
  }

  /** Every row is counted once. */
  lemma {:induction false} SumCountsUnique<T(!new)>(s: seq<T>)
    ensures Sum(Counts(Unique(s), s)) == |s|
  {
    if |s| > 0 {
      var p := s[..|s| - 1];
      var y := s[|s| - 1];
      assert s == p + [y];
      SumCountsUnique(p);
      var u := Unique(p);
      SumCountsExtend(u, p, y);
      if y !in u {
        assert Unique(s) == u + [y];
        assert Counts(Unique(s), s) == Counts(u, s) + [multiset(s)[y]];
        SumAppend(Counts(u, s), [multiset(s)[y]]);
        assert y !in p;
        assert multiset(s)[y] == 1;
      }
    }
  }

  lemma MoreFrequentIsWeakOrder<T(!new)>(s: seq<T>)
    ensures StrictWeakOrder(MoreFrequent(s))
  {
  }

  lemma CountValuesPositive<T(!new)>(s: seq<T>)
    ensures forall i :: 0 <= i < |CountValues(s).counts| ==> CountValues(s).counts[i] >= 1
  {
    var vc := CountValues(s);
    forall i | 0 <= i < |vc.counts| ensures vc.counts[i] >= 1 {
      var v := vc.values[i];
      assert v in multiset(vc.values);
      assert v in Unique(s);
      assert v in multiset(s);
    }
  }

  lemma CountValuesTotal<T(!new)>(s: seq<T>)
    ensures Sum(CountValues(s).counts) == |s|
  {
    SumCountsUnique(s);
    SumCountsPermuted(CountValues(s).values, Unique(s), s);
  }

  lemma CountValuesNonIncreasing<T(!new)>(s: seq<T>)
    ensures var c := CountValues(s).counts;
      forall i, j :: 0 <= i < j < |c| ==> c[i] >= c[j]
  {
    var vc := CountValues(s);
    MoreFrequentIsWeakOrder(s);
    SortBySorted(Unique(s), MoreFrequent(s));
    forall i, j | 0 <= i < j < |vc.counts| ensures vc.counts[i] >= vc.counts[j] {
      assert !MoreFrequent(s)(vc.values[j], vc.values[i]);
    }
  }

  /** `publications_count`: two lists of the same length; every count is
      positive, the counts add up to the number of rows and never increase
      along the list, and every value is counted exactly once. */
  lemma CountValuesSound<T(!new)>(s: seq<T>)
    ensures var vc := CountValues(s);
      && (forall i :: 0 <= i < |vc.counts| ==> vc.counts[i] >= 1)
      && Sum(vc.counts) == |s|
      && (forall i, j :: 0 <= i < j < |vc.counts| ==> vc.counts[i] >= vc.counts[j])
      && multiset(vc.values) == multiset(Unique(s))
  {
    CountValuesPositive(s);
    CountValuesTotal(s);
    CountValuesNonIncreasing(s);
  }

  /** Values that occur equally often stay in order of first appearance. */
  lemma CountValuesTies<T(!new)>(s: seq<T>, x: T)
    ensures TiedWith(CountValues(s).values, x, MoreFrequent(s)) == TiedWith(Unique(s), x, MoreFrequent(s))
  {
    MoreFrequentIsWeakOrder(s);
    SortByStable(Unique(s), x, MoreFrequent(s));
  }

  // ---------------------------------------------------------------------
  // `Series.replace(to_replace=from, value=to)` with two lists: the masks
  // `cell == from[k]` are all taken on the original cell, then applied in
  // list order, so a later pair overrides an earlier one and a replaced
  // value is never replaced again.

  /** The cell after applying the pairs from position 0 on, starting from
      `current`; `original` is the value the masks test. */
  function ReplacePairs(original: Cell, current: Cell, from: seq<Cell>, to: seq<Cell>): Cell
    requires |from| == |to|
    decreases |from|
  {
    if |from| == 0 then current
    else ReplacePairs(original, if from[0] == original then to[0] else current, from[1..], to[1..])
  }

  /** The last position of `x` in `s`, if any. */
  function LastIndex(s: seq<Cell>, x: Cell): (r: Option<nat>)
    ensures r.Some? ==> r.value < |s| && s[r.value] == x && forall k :: r.value < k < |s| ==> s[k] != x
    ensures r.None? ==> x !in s
  {
    if |s| == 0 then None
    else if s[|s| - 1] == x then Some(|s| - 1)
    else LastIndex(s[..|s| - 1], x)
  }

  /** The mapped value of one cell: the replacement of the last matching
      key, or the cell itself. */
  function MapCell(c: Cell, from: seq<Cell>, to: seq<Cell>): Cell
    requires |from| == |to|
  {
    match LastIndex(from, c)
    case Some(k) => to[k]
    case None => c
  }

  /** Applying the masks in order amounts to taking the last matching pair. */
  lemma {:induction false} ReplacePairsLastMatch(original: Cell, current: Cell, from: seq<Cell>, to: seq<Cell>)
    requires |from| == |to|
    ensures ReplacePairs(original, current, from, to)
         == match LastIndex(from, original) case Some(k) => to[k] case None => current
    decreases |from|
  {
    if |from| > 0 {
      var next := if from[0] == original then to[0] else current;
      ReplacePairsLastMatch(original, next, from[1..], to[1..]);
      match LastIndex(from[1..], original)
      case Some(k) =>
        assert from[k + 1] == original && to[1..][k] == to[k + 1];
        forall j | k + 1 < j < |from| ensures from[j] != original {
          assert from[j] == from[1..][j - 1];
        }
        LastIndexUnique(from, original, k + 1);
      case None =>
        forall j | 0 < j < |from| ensures from[j] != original {
          assert from[j] == from[1..][j - 1];
        }
        if from[0] == original {
          LastIndexUnique(from, original, 0);
        }
    }
  }

  lemma LastIndexUnique(s: seq<Cell>, x: Cell, k: nat)
    requires k < |s| && s[k] == x && forall j :: k < j < |s| ==> s[j] != x
    ensures LastIndex(s, x) == Some(k)
  {
    var r := LastIndex(s, x);
    assert r.Some?;
    if r.value < k {
    }
  }

  /** The new column of `MapColumn`. */
  function Mapped(col: seq<Cell>, from: seq<Cell>, to: seq<Cell>): (r: seq<Cell>)
    requires |from| == |to|
    ensures |r| == |col| && forall i :: 0 <= i < |col| ==> r[i] == MapCell(col[i], from, to)
  {
    seq(|col|, i requires 0 <= i < |col| => MapCell(col[i], from, to))
  }

  /** A cell equal to `from[k]`, with no later equal key, becomes `to[k]`;
      a cell equal to no key is copied. */
  lemma MappedCells(col: seq<Cell>, from: seq<Cell>, to: seq<Cell>, i: nat, k: nat)
    requires |from| == |to| && i < |col| && k < |from|
    requires col[i] == from[k] && forall j :: k < j < |from| ==> from[j] != col[i]
    ensures Mapped(col, from, to)[i] == to[k]
  {
    LastIndexUnique(from, col[i], k);
  }

  lemma MappedUnmatched(col: seq<Cell>, from: seq<Cell>, to: seq<Cell>, i: nat)
    requires |from| == |to| && i < |col| && col[i] !in from
    ensures Mapped(col, from, to)[i] == col[i]
  {
  }
}
