/** The two regular-expression extractors `get_date` and `get_ref` of
    `FileNameMetadata`, over ASCII characters.

    `re.findall(pattern, file)[0]` is the first match of a left-to-right
    scan, that is the match with the leftmost start; with one group the
    value is that group's text. */
module FileNames {
  import opened Common

  /** `\d` */
  predicate IsDigit(c: char)
  {
    '0' <= c <= '9'
  }

  /** `\w`: letters, digits and the underscore. */
  predicate IsWordChar(c: char)
  {
    IsDigit(c) || ('a' <= c <= 'z') || ('A' <= c <= 'Z') || c == '_'
  }

  /** `\d{4}-\d{2}-\d{2}`: ten characters. */
  predicate DateShape(d: string)
  {
    && |d| == 10
    && IsDigit(d[0]) && IsDigit(d[1]) && IsDigit(d[2]) && IsDigit(d[3])
    && d[4] == '-'
    && IsDigit(d[5]) && IsDigit(d[6])
    && d[7] == '-'
    && IsDigit(d[8]) && IsDigit(d[9])
  }

  /** `_\d{4}-\d{2}-\d{2}_` occurs at position `i`. */
  predicate DateAt(s: string, i: int)
  {
    && 0 <= i && i + 12 <= |s|
    && s[i] == '_'
    && DateShape(s[i + 1..i + 11])
    && s[i + 11] == '_'
  }

  /** `(\w+\d+)_\d{4}-\d{2}-\d{2}_` matches at `p` with the group ending at
      `r`: at least two word characters, the last a digit, then the date. */
  predicate RefAt(s: string, p: int, r: int)
  {
    && 0 <= p && p + 2 <= r
    && DateAt(s, r)
    && IsDigit(s[r - 1])
    && (forall k :: p <= k < r ==> IsWordChar(s[k]))
  }

  /** The leftmost position at or after `from` where the date pattern occurs. */
  function FindDate(s: string, from: nat): (r: Option<nat>)
    ensures r.Some? ==> from <= r.value && DateAt(s, r.value)
    ensures r.Some? ==> forall j :: from <= j < r.value ==> !DateAt(s, j)
    ensures r.None? ==> forall j :: from <= j ==> !DateAt(s, j)
    decreases |s| - from
  {
    if from + 12 > |s| then None
    else if DateAt(s, from) then Some(from)
    else FindDate(s, from + 1)
  }

  /** `get_date`: the ten-character date of the leftmost `_DDDD-DD-DD_`, or
      the processing error naming the file. */
  function GetDate(file: string): (r: Result<string>)
    ensures r.Failure? ==> r.error == InvalidFileName(file) && forall i :: !DateAt(file, i)
    ensures r.Success? ==> DateShape(r.value)
    ensures r.Success? ==> exists i :: && DateAt(file, i)
                                      && r.value == file[i + 1..i + 11]
                                      && (forall j :: 0 <= j < i ==> !DateAt(file, j))
  {
    match FindDate(file, 0)
    case Some(i) =>
      assert DateAt(file, i);
      Success(file[i + 1..i + 11])
    case None => Failure(InvalidFileName(file))
  }

  /** The end of the run of word characters that starts at `p`. */
  function WordRunEnd(s: string, p: nat): (e: nat)
    requires p <= |s|
    ensures p <= e <= |s|
    ensures forall k :: p <= k < e ==> IsWordChar(s[k])
    ensures e == |s| || !IsWordChar(s[e])
    decreases |s| - p
  {
    if p == |s| || !IsWordChar(s[p]) then p else WordRunEnd(s, p + 1)
  }

  /** For a start `p` the group can end at one place only: the greedy word
      run swallows `_DDDD` and stops at the `-` that follows. */
  lemma RefEndUnique(s: string, p: nat, r: int)
    requires RefAt(s, p, r)
    ensures r + 5 == WordRunEnd(s, p)
  {
    var e := WordRunEnd(s, p);
    var d := s[r + 1..r + 11];
    assert d[4] == s[r + 5];
    assert !IsWordChar(s[r + 5]);
    forall k | r <= k < r + 5 ensures IsWordChar(s[k]) {
      if k > r {
        assert s[k] == d[k - r - 1];
      }
    }
  }

  /** Whether the ref pattern matches at `p`, and where its group ends. */
  function RefFrom(s: string, p: nat): (r: Option<nat>)
    requires p <= |s|
    ensures r.Some? ==> RefAt(s, p, r.value)
    ensures r.None? ==> forall q :: !RefAt(s, p, q)
  {
    var e := WordRunEnd(s, p);
    if e >= p + 7 && RefAt(s, p, e - 5) then Some(e - 5)
    else
      assert forall q :: RefAt(s, p, q) ==> q + 5 == e by {
        forall q | RefAt(s, p, q) ensures q + 5 == e {
          RefEndUnique(s, p, q);
        }
      }
      None
  }

  /** The leftmost start at or after `from` where the ref pattern matches,
      with the end of its group. */
  function FindRef(s: string, from: nat): (r: Option<(nat, nat)>)
    requires from <= |s|
    ensures r.Some? ==> from <= r.value.0 && RefAt(s, r.value.0, r.value.1)
    ensures r.Some? ==> forall j, q :: from <= j < r.value.0 ==> !RefAt(s, j, q)
    ensures r.None? ==> forall j, q :: from <= j ==> !RefAt(s, j, q)
    decreases |s| - from
  {
    match RefFrom(s, from)
    case Some(q) => Some((from, q))
    case None =>
      if from == |s| then None else FindRef(s, from + 1)
  }

  /** `get_ref`: the group of the leftmost match of the ref pattern, or the
      processing error naming the file. */
  function GetRef(file: string): (r: Result<string>)
    ensures r.Failure? ==> r.error == InvalidFileName(file) && forall p, q :: !RefAt(file, p, q)
    ensures r.Success? ==> exists p, q :: && RefAt(file, p, q)
                                         && r.value == file[p..q]
                                         && (forall j, k :: 0 <= j < p ==> !RefAt(file, j, k))
  {
    match FindRef(file, 0)
    case Some(m) => Success(file[m.0..m.1])
    case None => Failure(InvalidFileName(file))
  }

  /** A ref is a run of at least two word characters ending in a digit. */
  predicate RefShape(ref: string)
  {
    && |ref| >= 2
    && IsDigit(ref[|ref| - 1])
    && (forall k :: 0 <= k < |ref| ==> IsWordChar(ref[k]))
  }

  /** What `get_ref` returns has the shape of a ref and is followed in the
      file name by the date pattern. */
  lemma GetRefShape(file: string, ref: string)
    requires GetRef(file) == Success(ref)
    ensures RefShape(ref)
    ensures exists q :: DateAt(file, q) && |ref| <= q && file[q - |ref|..q] == ref
  {
    var p, q :| RefAt(file, p, q) && ref == file[p..q];
    forall k | 0 <= k < |ref| ensures IsWordChar(ref[k]) {
      assert ref[k] == file[p + k];
    }
    assert ref[|ref| - 1] == file[q - 1];
    assert q == p + |ref|;
  }

  /** The file name `<ref>_<date>_<rest>` of the LCCN pattern. */
  function ComposeName(ref: string, date: string, rest: string): (file: string)
    requires |date| == 10
    ensures |file| == |ref| + 12 + |rest|
    ensures file[..|ref|] == ref && file[|ref| + 1..|ref| + 11] == date
  {
    ref + "_" + date + "_" + rest
  }

  lemma ComposedDateAt(ref: string, date: string, rest: string)
    requires DateShape(date)
    ensures DateAt(ComposeName(ref, date, rest), |ref|)
  {
    var file := ComposeName(ref, date, rest);
    var n := |ref|;
    assert file[n] == '_' && file[n + 11] == '_';
    assert file[n + 1..n + 11] == date;
  }

  /** No date pattern starts inside the ref. */
  lemma NoDateBefore(ref: string, date: string, rest: string, i: int)
    requires RefShape(ref) && DateShape(date)
    requires 0 <= i < |ref|
    ensures !DateAt(ComposeName(ref, date, rest), i)
  {
    var file := ComposeName(ref, date, rest);
    var n := |ref|;
    if i + 5 < n {
      assert file[i + 5] == ref[i + 5];
    } else if i + 5 == n {
      assert file[i + 5] == '_';
    } else {
      assert file[i + 5] == date[i + 4 - n];
    }
    if i + 12 <= |file| {
      var d := file[i + 1..i + 11];
      assert d[4] == file[i + 5];
    }
  }

  /** The scan stops at the first occurrence. */
  lemma {:induction false} FindDateFirst(s: string, from: nat, n: nat)
    requires from <= n && DateAt(s, n)
    requires forall j :: from <= j < n ==> !DateAt(s, j)
    ensures FindDate(s, from) == Some(n)
    decreases n - from
  {
    if from < n {
      FindDateFirst(s, from + 1, n);
    }
  }

  lemma ComposedGetDate(ref: string, date: string, rest: string)
    requires RefShape(ref) && DateShape(date)
    ensures GetDate(ComposeName(ref, date, rest)) == Success(date)
  {
    var file := ComposeName(ref, date, rest);
    var n := |ref|;
    ComposedDateAt(ref, date, rest);
    forall i | 0 <= i < n ensures !DateAt(file, i) {
      NoDateBefore(ref, date, rest, i);
    }
    FindDateFirst(file, 0, n);
  }

  lemma ComposedGetRef(ref: string, date: string, rest: string)
    requires RefShape(ref) && DateShape(date)
    ensures GetRef(ComposeName(ref, date, rest)) == Success(ref)
  {
    var file := ComposeName(ref, date, rest);
    var n := |ref|;
    ComposedDateAt(ref, date, rest);
    forall k | 0 <= k < n ensures IsWordChar(file[k]) {
      assert file[k] == ref[k];
    }
    assert file[n - 1] == ref[n - 1];
    assert RefAt(file, 0, n);
    RefEndUnique(file, 0, n);
    assert RefFrom(file, 0) == Some(n);
    assert FindRef(file, 0) == Some((0, n));
  }

  /** A file name `<ref>_<date>_<rest>` in the LCCN pattern gives back its
      date and its ref. */
  lemma ComposedNameRoundTrip(ref: string, date: string, rest: string)
    requires RefShape(ref) && DateShape(date)
    ensures GetDate(ComposeName(ref, date, rest)) == Success(date)
    ensures GetRef(ComposeName(ref, date, rest)) == Success(ref)
  {
    ComposedGetDate(ref, date, rest);
    ComposedGetRef(ref, date, rest);
  }
}
