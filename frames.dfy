/** The pandas DataFrame the tm_dash modules work on: named columns of
    equal length, assigned in place, and the row reordering of
    `sort_values`. */
module Frames {
  import opened Common
  import opened Sorting

  /** A calendar day, as `pd.to_datetime` produces it from `YYYY-MM-DD`. */
  datatype Date = Date(year: int, month: int, day: int)

  /** A cell: a string, a timestamp, a token list (a row of an array of
      lists) or a missing value (NaN). */
  datatype Cell = Text(s: string) | Stamp(date: Date) | Tokens(tokens: seq<string>) | Missing

  /** Strictly earlier, day by day. */
  predicate DateLess(a: Date, b: Date)
  {
    a.year < b.year
    || (a.year == b.year && a.month < b.month)
    || (a.year == b.year && a.month == b.month && a.day < b.day)
  }

  /** A value of the frame: column order, columns by name, row count. */
  datatype Table = Table(names: seq<string>, columns: map<string, seq<Cell>>, height: nat)
  {
    ghost predicate Valid()
    {
      && Distinct(names)
      && (forall n :: n in columns <==> n in names)
      && (forall n :: n in columns ==> |columns[n]| == height)
    }

    /** `df[name] = values`. A frame without rows takes the length of a
        non-empty list and pads its other columns with missing values;
        otherwise the lengths must agree. */
    function With(name: string, values: seq<Cell>): (t: Table)
      requires Valid()
      requires |values| == height || height == 0
      ensures t.Valid()
      ensures t.height == |values|
      ensures t.names == names + (if name in columns then [] else [name])
      ensures t.columns.Keys == columns.Keys + {name}
      ensures t.columns[name] == values
      ensures forall n :: n in columns && n != name ==>
        t.columns[n] == (if |values| == height then columns[n] else Blank(|values|))
    {
      var names' := names + (if name in columns then [] else [name]);
      if |values| == height then Table(names', columns[name := values], height)
      else Table(names', (map n | n in columns :: Blank(|values|))[name := values], |values|)
    }

    /** The rows at positions `order`, in that order. */
    function Take(order: seq<nat>): (t: Table)
      requires Valid()
      requires forall i :: 0 <= i < |order| ==> order[i] < height
      ensures t.Valid()
      ensures t.names == names && t.columns.Keys == columns.Keys && t.height == |order|
      ensures forall n, i :: n in columns && 0 <= i < |order| ==> t.columns[n][i] == columns[n][order[i]]
    {
      Table(names, map n | n in columns :: Pick(columns[n], order), |order|)
    }
  }

  /** A column of `n` missing values. */
  function Blank(n: nat): (c: seq<Cell>)
    ensures |c| == n && forall i :: 0 <= i < n ==> c[i] == Missing
  {
    seq(n, i => Missing)
  }

  function Pick(col: seq<Cell>, order: seq<nat>): (r: seq<Cell>)
    requires forall i :: 0 <= i < |order| ==> order[i] < |col|
    ensures |r| == |order| && forall i :: 0 <= i < |order| ==> r[i] == col[order[i]]
  {
    seq(|order|, i requires 0 <= i < |order| => col[order[i]])
  }

  /** `order` lists every row position below `n` exactly once. */
  predicate IsPermutation(order: seq<nat>, n: nat)
  {
    && |order| == n
    && Distinct(order)
    && (forall i :: 0 <= i < |order| ==> order[i] < n)
  }

  /** The `DataFrame` a module builds with `to_pandas()` and then changes. */
  class Frame {
    var names: seq<string>
    var columns: map<string, seq<Cell>>
    var height: nat

    function Value(): Table
      reads this
    {
      Table(names, columns, height)
    }

    ghost predicate Valid()
      reads this
    {
      Value().Valid()
    }

    constructor (t: Table)
      requires t.Valid()
      ensures Valid() && Value() == t
    {
      names, columns, height := t.names, t.columns, t.height;
    }

    /** `df[name]`: the column, or a `KeyError`. */
    method Get(name: string) returns (r: Result<seq<Cell>>)
      requires Valid()
      ensures name in columns <==> r.Success?
      ensures r.Success? ==> r.value == columns[name] && |r.value| == height
      ensures r.Failure? ==> r.error == MissingColumn(name)
    {
      if name in columns {
        r := Success(columns[name]);
      } else {
        r := Failure(MissingColumn(name));
      }
    }

    /** `df[name] = values`: replaces or appends the column, or raises a
        `ValueError` and leaves the frame as it was. */
    method Assign(name: string, values: seq<Cell>) returns (err: Option<Error>)
      requires Valid()
      modifies this
      ensures Valid()
      ensures err.None? <==> |values| == old(height) || old(height) == 0
      ensures err.Some? ==> err.value == LengthMismatch(old(height), |values|) && Value() == old(Value())
      ensures err.None? ==> Value() == old(Value()).With(name, values)
    {
      if |values| != height && height != 0 {
        return Some(LengthMismatch(height, |values|));
      }
      if name !in columns {
        names := names + [name];
      }
      if |values| != height {
        columns := map n | n in columns :: Blank(|values|);
        height := |values|;
      }
      columns := columns[name := values];
      err := None;
    }
  }

  /** The date of row `i` of a timestamp column, for ordering. */
  function DateKey(col: seq<Cell>, i: nat): Date
  {
    if i < |col| && col[i].Stamp? then col[i].date else Date(0, 0, 0)
  }

  /** Row `i` holds an earlier date than row `j`. */
  function ByDate(col: seq<Cell>): (nat, nat) -> bool
  {
    (i: nat, j: nat) => DateLess(DateKey(col, i), DateKey(col, j))
  }

  /** `0, 1, ..., n - 1` */
  function Range(n: nat): (r: seq<nat>)
    ensures |r| == n && forall i :: 0 <= i < n ==> r[i] == i
  {
    seq(n, i requires 0 <= i => i as nat)
  }

  /** The row order of `sort_values(by=...)` on a timestamp column: the
      positions sorted by date, equal dates in their original order. */
  function DateOrder(col: seq<Cell>): (order: seq<nat>)
    ensures |order| == |col|
  {
    SortBy(Range(|col|), ByDate(col))
  }

  /** Along `col`, no date is earlier than one above it. */
  predicate DatesNonDecreasing(col: seq<Cell>)
  {
    forall i, j :: 0 <= i < j < |col| ==> !DateLess(DateKey(col, j), DateKey(col, i))
  }

  lemma ByDateIsWeakOrder(col: seq<Cell>)
    ensures StrictWeakOrder(ByDate(col))
  {
  }

  lemma {:induction false} DistinctCount<T>(s: seq<T>, x: T)
    requires Distinct(s)
    ensures multiset(s)[x] <= 1
  {
    if |s| > 0 {
      assert s == [s[0]] + s[1..];
      assert Distinct(s[1..]) by {
        forall i, j | 0 <= i < j < |s[1..]| ensures s[1..][i] != s[1..][j] {
          assert s[1..][i] == s[i + 1] && s[1..][j] == s[j + 1];
        }
      }
      DistinctCount(s[1..], x);
      if s[0] == x {
        assert x !in s[1..];
      }
    }
  }

  lemma RepeatedCount<T>(s: seq<T>, i: int, j: int)
    requires 0 <= i < j < |s| && s[i] == s[j]
    ensures multiset(s)[s[i]] >= 2
  {
    assert s == s[..j] + [s[j]] + s[j + 1..];
    assert s[i] in s[..j];
  }

  /** The sort reorders the row positions: each appears exactly once. */
  lemma DateOrderIsPermutation(col: seq<Cell>)
    ensures IsPermutation(DateOrder(col), |col|)
  {
    var order := DateOrder(col);
    var r := Range(|col|);
    assert Distinct(r);
    forall i | 0 <= i < |order| ensures order[i] < |col| {
      assert order[i] in multiset(r);
    }
    forall i, j | 0 <= i < j < |order| ensures order[i] != order[j] {
      if order[i] == order[j] {
        RepeatedCount(order, i, j);
        DistinctCount(r, order[i]);
        assert false;
      }
    }
  }

  /** After the sort the dates do not decrease along the rows. */
  lemma DateOrderSorts(col: seq<Cell>)
    ensures forall i :: 0 <= i < |col| ==> DateOrder(col)[i] < |col|
    ensures DatesNonDecreasing(Pick(col, DateOrder(col)))
  {
    DateOrderIsPermutation(col);
    var order := DateOrder(col);
    ByDateIsWeakOrder(col);
    SortBySorted(Range(|col|), ByDate(col));
    var sorted := Pick(col, order);
    forall i, j | 0 <= i < j < |sorted| ensures !DateLess(DateKey(sorted, j), DateKey(sorted, i)) {
      assert !ByDate(col)(order[j], order[i]);
      assert DateKey(sorted, j) == DateKey(col, order[j]);
      assert DateKey(sorted, i) == DateKey(col, order[i]);
    }
  }

  /** Rows with the same date keep their original relative order. */
  lemma DateOrderStable(col: seq<Cell>, k: nat)
    ensures TiedWith(DateOrder(col), k, ByDate(col)) == TiedWith(Range(|col|), k, ByDate(col))
  {
    ByDateIsWeakOrder(col);
    SortByStable(Range(|col|), k, ByDate(col));
  }
}
