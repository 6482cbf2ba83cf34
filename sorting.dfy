/** A stable sort parameterised by a "goes strictly before" relation.

    Python's `sorted(items, key=k, reverse=True)` is stable: items with equal
    keys keep their relative order. It is `SortBy(items, less)` with
    `less(a, b) == k(a) > k(b)`; the argsort behind `DataFrame.sort_values` is
    the same sort applied to row positions. */
module Sorting {

  /** `less` is a strict weak order: irreflexive, transitive, and
      incomparability is transitive (negative transitivity). */
  ghost predicate StrictWeakOrder<T(!new)>(less: (T, T) -> bool)
  {
    && (forall a :: !less(a, a))
    && (forall a, b, c :: less(a, b) && less(b, c) ==> less(a, c))
    && (forall a, b, c :: less(a, c) ==> less(a, b) || less(b, c))
  }

  /** No element goes strictly before an element that precedes it. */
  predicate SortedBy<T>(s: seq<T>, less: (T, T) -> bool)
  {
    forall i, j :: 0 <= i < j < |s| ==> !less(s[j], s[i])
  }

  /** Neither goes strictly before the other. */
  predicate Tied<T>(a: T, b: T, less: (T, T) -> bool)
  {
    !less(a, b) && !less(b, a)
  }

  /** The elements of `s` tied with `x`, in their order in `s`. */
  function TiedWith<T>(s: seq<T>, x: T, less: (T, T) -> bool): (r: seq<T>)
    ensures |r| <= |s|
  {
    if |s| == 0 then []
    else (if Tied(s[0], x, less) then [s[0]] else []) + TiedWith(s[1..], x, less)
  }

  /** Inserts `x` into `t` after every element that goes strictly before it
      and before all the others. */
  function Insert<T>(x: T, t: seq<T>, less: (T, T) -> bool): (r: seq<T>)
    ensures |r| == |t| + 1
    ensures multiset(r) == multiset(t) + multiset{x}
  {
    if |t| == 0 || !less(t[0], x) then [x] + t
    else
      assert t == [t[0]] + t[1..];
      [t[0]] + Insert(x, t[1..], less)
  }

  /** Stable insertion sort. */
  function SortBy<T>(s: seq<T>, less: (T, T) -> bool): (r: seq<T>)
    ensures |r| == |s|
    ensures multiset(r) == multiset(s)
  {
    if |s| == 0 then []
    else
      assert s == [s[0]] + s[1..];
      Insert(s[0], SortBy(s[1..], less), less)
  }

  /** Every element of an insertion comes from the sequence or is `x`. */
  lemma InsertFrom<T>(x: T, t: seq<T>, less: (T, T) -> bool, y: T)
    requires y in Insert(x, t, less)
    ensures y == x || y in t
  {
    assert y in multiset(Insert(x, t, less));
  }

  /** `x` in front of a sorted `t` whose head does not go before it. */
  lemma InsertFrontSorted<T(!new)>(x: T, t: seq<T>, less: (T, T) -> bool)
    requires StrictWeakOrder(less)
    requires SortedBy(t, less)
    requires |t| == 0 || !less(t[0], x)
    ensures SortedBy([x] + t, less)
  {
    var r := [x] + t;
    forall i, j | 0 <= i < j < |r| ensures !less(r[j], r[i]) {
      if i == 0 {
        assert r[j] == t[j - 1];
        if j > 1 {
          assert !less(t[j - 1], t[0]);
        }
      } else {
        assert r[j] == t[j - 1] && r[i] == t[i - 1];
      }
    }
  }

  /** The head of `t`, which goes before `x`, in front of the sorted
      insertion of `x` into the tail. */
  lemma InsertBehindHeadSorted<T(!new)>(x: T, t: seq<T>, less: (T, T) -> bool)
    requires StrictWeakOrder(less)
    requires SortedBy(t, less)
    requires |t| > 0 && less(t[0], x)
    requires SortedBy(Insert(x, t[1..], less), less)
    ensures SortedBy([t[0]] + Insert(x, t[1..], less), less)
  {
    var rest := Insert(x, t[1..], less);
    var r := [t[0]] + rest;
    forall i, j | 0 <= i < j < |r| ensures !less(r[j], r[i]) {
      if i == 0 {
        var y := rest[j - 1];
        InsertFrom(x, t[1..], less, y);
        if y != x {
          var k :| 0 <= k < |t[1..]| && t[1..][k] == y;
          assert t[k + 1] == y;
        }
      } else {
        assert r[j] == rest[j - 1] && r[i] == rest[i - 1];
      }
    }
  }

  lemma {:induction false} InsertSorted<T(!new)>(x: T, t: seq<T>, less: (T, T) -> bool)
    requires StrictWeakOrder(less)
    requires SortedBy(t, less)
    ensures SortedBy(Insert(x, t, less), less)
  {
    if |t| == 0 || !less(t[0], x) {
      InsertFrontSorted(x, t, less);
    } else {
      assert SortedBy(t[1..], less) by {
        forall i, j | 0 <= i < j < |t[1..]| ensures !less(t[1..][j], t[1..][i]) {
          assert t[1..][j] == t[j + 1] && t[1..][i] == t[i + 1];
        }
      }
      InsertSorted(x, t[1..], less);
      InsertBehindHeadSorted(x, t, less);
    }
  }

  /** The sort orders its output. */
  lemma {:induction false} SortBySorted<T(!new)>(s: seq<T>, less: (T, T) -> bool)
    requires StrictWeakOrder(less)
    ensures SortedBy(SortBy(s, less), less)
  {
    if |s| > 0 {
      SortBySorted(s[1..], less);
      InsertSorted(s[0], SortBy(s[1..], less), less);
    }
  }

  lemma {:induction false} TiedWithAppend<T>(a: seq<T>, b: seq<T>, x: T, less: (T, T) -> bool)
    ensures TiedWith(a + b, x, less) == TiedWith(a, x, less) + TiedWith(b, x, less)
  {
    if |a| > 0 {
      assert (a + b)[1..] == a[1..] + b;
      TiedWithAppend(a[1..], b, x, less);
    } else {
      assert a + b == b;
    }
  }

  /** What goes strictly before `y` goes strictly before anything tied
      with `y`. */
  lemma BeforeTied<T(!new)>(a: T, y: T, x: T, less: (T, T) -> bool)
    requires StrictWeakOrder(less)
    requires less(a, y) && Tied(y, x, less)
    ensures less(a, x)
  {
  }

  /** The step of `InsertStable` past a head that goes before `y`. */
  lemma InsertStableStep<T>(y: T, t: seq<T>, x: T, less: (T, T) -> bool)
    requires |t| > 0 && less(t[0], y)
    requires Tied(y, x, less) ==> !Tied(t[0], x, less)
    requires TiedWith(Insert(y, t[1..], less), x, less)
          == (if Tied(y, x, less) then [y] else []) + TiedWith(t[1..], x, less)
    ensures TiedWith(Insert(y, t, less), x, less)
         == (if Tied(y, x, less) then [y] else []) + TiedWith(t, x, less)
  {
    var r := Insert(y, t, less);
    var rest := TiedWith(t[1..], x, less);
    var head := if Tied(t[0], x, less) then [t[0]] else [];
    var mine := if Tied(y, x, less) then [y] else [];
    assert r[0] == t[0] && r[1..] == Insert(y, t[1..], less);
    assert TiedWith(r, x, less) == head + (mine + rest);
    assert TiedWith(t, x, less) == head + rest;
    if Tied(y, x, less) {
      assert head == [];
      assert head + (mine + rest) == mine + rest;
      assert head + rest == rest;
    } else {
      assert mine == [];
      assert mine + rest == rest;
      assert mine + (head + rest) == head + rest;
    }
  }

  lemma {:induction false} InsertStable<T(!new)>(y: T, t: seq<T>, x: T, less: (T, T) -> bool)
    requires StrictWeakOrder(less)
    ensures TiedWith(Insert(y, t, less), x, less)
         == (if Tied(y, x, less) then [y] else []) + TiedWith(t, x, less)
  {
    if |t| == 0 || !less(t[0], y) {
      var r := Insert(y, t, less);
      assert r[0] == y && r[1..] == t;
    } else {
      InsertStable(y, t[1..], x, less);
      if Tied(y, x, less) {
        BeforeTied(t[0], y, x, less);
      }
      InsertStableStep(y, t, x, less);
    }
  }

  /** Stability: for every `x`, the elements tied with `x` keep their order. */
  lemma {:induction false} SortByStable<T(!new)>(s: seq<T>, x: T, less: (T, T) -> bool)
    requires StrictWeakOrder(less)
    ensures TiedWith(SortBy(s, less), x, less) == TiedWith(s, x, less)
  {
    if |s| > 0 {
      SortByStable(s[1..], x, less);
      InsertStable(s[0], SortBy(s[1..], less), x, less);
    }
  }

  /** Sorting an already sorted sequence leaves it as it is. */
  lemma {:induction false} SortByIdentity<T>(s: seq<T>, less: (T, T) -> bool)
    requires SortedBy(s, less)
    ensures SortBy(s, less) == s
  {
    if |s| > 0 {
      assert SortedBy(s[1..], less) by {
        forall i, j | 0 <= i < j < |s[1..]| ensures !less(s[1..][j], s[1..][i]) {
          assert s[1..][j] == s[j + 1] && s[1..][i] == s[i + 1];
        }
      }
      SortByIdentity(s[1..], less);
      if |s| > 1 {
        assert !less(s[1], s[0]);
      }
      assert [s[0]] + s[1..] == s;
    }
  }
}
