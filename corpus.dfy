/** The tm_dash corpus modules: `FileNameMetadata` (and its older copy that
    also reports `publications_count`), `MapColumn` and `AddColumn`. Each
    `process` converts its input table to a fresh DataFrame and assigns
    columns to it in place. */
module Corpus {
  import opened Common
  import opened FileNames
  import opened Frames
  import opened Columns
  import opened Dates

  const FileNameColumn := "file_name"
  const DateColumn := "date"
  const PublicationColumn := "publication"
  const TokensColumn := "preprocessed_tokens"

  /** What `get_date` puts in a cell of the `date` column. */
  function DateCell(c: Cell): (r: Result<Cell>)
  {
    if !c.Text? then Failure(NotText(FileNameColumn))
    else match GetDate(c.s)
      case Success(d) => Success(Text(d))
      case Failure(e) => Failure(e)
  }

  /** What `get_ref` puts in a cell of the `publication` column. */
  function RefCell(column: string): Cell -> Result<Cell>
  {
    (c: Cell) =>
      if !c.Text? then Failure(NotText(column))
      else match GetRef(c.s)
        case Success(ref) => Success(Text(ref))
        case Failure(e) => Failure(e)
  }

  /** `pd.to_datetime` on one cell of the `date` column. */
  function StampCell(c: Cell): (r: Result<Cell>)
  {
    if !c.Text? then Failure(NotText(DateColumn))
    else match ParseDate(c.s)
      case Success(d) => Success(Stamp(d))
      case Failure(e) => Failure(e)
  }

  /** The outputs of `FileNameMetadata`. */
  datatype Metadata = Metadata(table: Table, publications: seq<Cell>)

  /** The outputs of the older `FileNameMetadata`, which also reports the
      value counts of the `publication` column. */
  datatype CountedMetadata = CountedMetadata(table: Table, publications: seq<Cell>, counts: ValueCounts<Cell>)

  /** The frame after its three column assignments, before the sort. */
  function Annotated(t: Table, columnName: string): (r: Result<Table>)
    requires t.Valid()
    ensures r.Success? ==> && r.value.Valid() && r.value.height == t.height
                           && DateColumn in r.value.columns && PublicationColumn in r.value.columns
  {
    if FileNameColumn !in t.columns then Failure(MissingColumn(FileNameColumn))
    else match Apply(t.columns[FileNameColumn], DateCell)
      case Failure(e) => Failure(e)
      case Success(dates) =>
        var t1 := t.With(DateColumn, dates);
        if columnName !in t1.columns then Failure(MissingColumn(columnName))
        else match Apply(t1.columns[columnName], RefCell(columnName))
          case Failure(e) => Failure(e)
          case Success(refs) =>
            var t2 := t1.With(PublicationColumn, refs);
            match Apply(t2.columns[DateColumn], StampCell)
            case Failure(e) => Failure(e)
            case Success(stamps) => Success(t2.With(DateColumn, stamps))
  }

  /** What `FileNameMetadata.process` outputs: the annotated frame sorted by
      date, and the distinct publications of the sorted frame. */
  function MetadataOf(t: Table, columnName: string): (r: Result<Metadata>)
    requires t.Valid()
  {
    match Annotated(t, columnName)
    case Failure(e) => Failure(e)
    case Success(a) =>
      DateOrderIsPermutation(a.columns[DateColumn]);
      var sorted := a.Take(DateOrder(a.columns[DateColumn]));
      Success(Metadata(sorted, Unique(sorted.columns[PublicationColumn])))
  }

  /** The first part of `FileNameMetadata.process`: the `date`,
      `publication` and again `date` assignments on a fresh frame. */
  method Annotate(t: Table, columnName: string) returns (r: Result<Table>)
    requires t.Valid()
    ensures r == Annotated(t, columnName)
  {
    var df := new Frame(t);
    var files := df.Get(FileNameColumn);
    if files.Failure? {
      return Failure(files.error);
    }
    var dates := Apply(files.value, DateCell);
    if dates.Failure? {
      return Failure(dates.error);
    }
    var err := df.Assign(DateColumn, dates.value);
    ghost var t1 := t.With(DateColumn, dates.value);
    assert df.Value() == t1;
    var source := df.Get(columnName);
    if source.Failure? {
      return Failure(source.error);
    }
    var refs := Apply(source.value, RefCell(columnName));
    if refs.Failure? {
      return Failure(refs.error);
    }
    err := df.Assign(PublicationColumn, refs.value);
    ghost var t2 := t1.With(PublicationColumn, refs.value);
    assert df.Value() == t2;
    var raw := df.Get(DateColumn);
    var stamps := Apply(raw.value, StampCell);
    if stamps.Failure? {
      return Failure(stamps.error);
    }
    err := df.Assign(DateColumn, stamps.value);
    r := Success(df.Value());
  }

  /** `FileNameMetadata.process` (tm_dash.py). */
  method FileNameMetadata(t: Table, columnName: string) returns (r: Result<Metadata>)
    requires t.Valid()
    ensures r == MetadataOf(t, columnName)
  {
    var a := Annotate(t, columnName);
    if a.Failure? {
      return Failure(a.error);
    }
    var df := a.value;
    DateOrderIsPermutation(df.columns[DateColumn]);
    var sorted := df.Take(DateOrder(df.columns[DateColumn]));
    r := Success(Metadata(sorted, Unique(sorted.columns[PublicationColumn])));
  }

  /** `FileNameMetadata.process` of the older copy (mariella.py). */
  method FileNameMetadataCounted(t: Table, columnName: string) returns (r: Result<CountedMetadata>)
    requires t.Valid()
    ensures r.Success? <==> MetadataOf(t, columnName).Success?
    ensures r.Failure? ==> r.error == MetadataOf(t, columnName).error
    ensures r.Success? ==> var m := MetadataOf(t, columnName).value;
      r.value == CountedMetadata(m.table, m.publications, CountValues(m.table.columns[PublicationColumn]))
  {
    var m := FileNameMetadata(t, columnName);
    if m.Failure? {
      return Failure(m.error);
    }
    var table := m.value.table;
    r := Success(CountedMetadata(table, m.value.publications, CountValues(table.columns[PublicationColumn])));
  }

  // ---------------------------------------------------------------------
  // What `FileNameMetadata` promises.

  /** Every row of the annotated frame carries the date of its file name,
      parsed; the date comes from `file_name` whatever `columnName` is. */
  lemma AnnotatedDates(t: Table, columnName: string, k: nat)
    requires t.Valid() && Annotated(t, columnName).Success? && k < t.height
    ensures FileNameColumn in t.columns
    ensures var file := t.columns[FileNameColumn][k];
      && file.Text?
      && GetDate(file.s).Success?
      && ParseDate(GetDate(file.s).value).Success?
      && Annotated(t, columnName).value.columns[DateColumn][k] == Stamp(ParseDate(GetDate(file.s).value).value)
  {
    var dates := Apply(t.columns[FileNameColumn], DateCell).value;
    var t1 := t.With(DateColumn, dates);
    var refs := Apply(t1.columns[columnName], RefCell(columnName)).value;
    var t2 := t1.With(PublicationColumn, refs);
    assert DateCell(t.columns[FileNameColumn][k]).Success?;
    assert StampCell(t2.columns[DateColumn][k]).Success?;
  }

  /** Every row of the annotated frame carries the ref of its `columnName`
      cell, read after the `date` column was written. */
  lemma AnnotatedRefs(t: Table, columnName: string, k: nat)
    requires t.Valid() && Annotated(t, columnName).Success? && k < t.height
    requires columnName != DateColumn
    ensures columnName in t.columns
    ensures var cell := t.columns[columnName][k];
      && cell.Text?
      && GetRef(cell.s).Success?
      && Annotated(t, columnName).value.columns[PublicationColumn][k] == Text(GetRef(cell.s).value)
  {
    var dates := Apply(t.columns[FileNameColumn], DateCell).value;
    var t1 := t.With(DateColumn, dates);
    assert t1.columns[columnName] == t.columns[columnName];
    assert RefCell(columnName)(t.columns[columnName][k]).Success?;
  }

  /** The other columns are those of the input. */
  lemma AnnotatedKeeps(t: Table, columnName: string)
    requires t.Valid() && Annotated(t, columnName).Success?
    ensures var a := Annotated(t, columnName).value;
      forall n :: n in t.columns && n != DateColumn && n != PublicationColumn ==> n in a.columns && a.columns[n] == t.columns[n]
  {
  }

  /** The output table is the annotated frame with its rows reordered by a
      permutation, dates non-decreasing; `publications_ref` lists each
      publication of the table once, in order of first appearance. */
  lemma MetadataSorted(t: Table, columnName: string)
    requires t.Valid() && MetadataOf(t, columnName).Success?
    ensures var a := Annotated(t, columnName).value;
      var m := MetadataOf(t, columnName).value;
      && IsPermutation(DateOrder(a.columns[DateColumn]), t.height)
      && m.table == a.Take(DateOrder(a.columns[DateColumn]))
      && DatesNonDecreasing(m.table.columns[DateColumn])
      && m.table.height == t.height
    ensures var m := MetadataOf(t, columnName).value;
      && Distinct(m.publications)
      && (forall p :: p in m.publications <==> p in m.table.columns[PublicationColumn])
      && (forall i, j :: 0 <= i < j < |m.publications| ==>
            FirstIndex(m.table.columns[PublicationColumn], m.publications[i])
            < FirstIndex(m.table.columns[PublicationColumn], m.publications[j]))
  {
    var a := Annotated(t, columnName).value;
    var col := a.columns[DateColumn];
    DateOrderIsPermutation(col);
    DateOrderSorts(col);
    var m := MetadataOf(t, columnName).value;
    assert m.table.columns[DateColumn] == Pick(col, DateOrder(col));
    UniqueFirstAppearance(m.table.columns[PublicationColumn]);
  }

  /** Without a `file_name` column the module fails before anything else. */
  lemma MetadataNeedsFileNames(t: Table, columnName: string)
    requires t.Valid() && FileNameColumn !in t.columns
    ensures MetadataOf(t, columnName) == Failure(MissingColumn(FileNameColumn))
  {
  }

  /** A file name without the date pattern stops the module with the
      processing error naming the first such file. */
  lemma MetadataRejectsName(t: Table, columnName: string, k: nat)
    requires t.Valid() && FileNameColumn in t.columns && k < t.height
    requires forall j :: 0 <= j < k ==> DateCell(t.columns[FileNameColumn][j]).Success?
    requires t.columns[FileNameColumn][k].Text? && GetDate(t.columns[FileNameColumn][k].s).Failure?
    ensures MetadataOf(t, columnName) == Failure(InvalidFileName(t.columns[FileNameColumn][k].s))
  {
    var col := t.columns[FileNameColumn];
    var r := Apply(col, DateCell);
    assert !DateCell(col[k]).Success?;
    var i :| 0 <= i < |col| && DateCell(col[i]) == Failure(r.error) && forall j :: 0 <= j < i ==> DateCell(col[j]).Success?;
    assert i == k;
  }

  /** Taking the refs from the `date` column, which by then holds bare dates,
      fails on any non-empty table. */
  lemma RefsFromDateColumnFail(t: Table)
    requires t.Valid() && t.height > 0
    ensures MetadataOf(t, DateColumn).Failure?
  {
    if FileNameColumn in t.columns {
      var col := t.columns[FileNameColumn];
      var dates := Apply(col, DateCell);
      if dates.Success? {
        var d := dates.value[0];
        assert d == DateCell(col[0]).value;
        assert |d.s| == 10;
        assert forall p, q :: !RefAt(d.s, p, q);
        assert !RefCell(DateColumn)(d).Success?;
      }
    }
  }

  /** `publications_count`: one positive count per distinct publication,
      summing to the number of rows, most frequent first. */
  lemma PublicationCounts(t: Table, columnName: string)
    requires t.Valid() && MetadataOf(t, columnName).Success?
    ensures var m := MetadataOf(t, columnName).value;
      var vc := CountValues(m.table.columns[PublicationColumn]);
      && |vc.values| == |vc.counts| == |m.publications|
      && multiset(vc.values) == multiset(m.publications)
      && (forall i :: 0 <= i < |vc.counts| ==> vc.counts[i] >= 1)
      && Sum(vc.counts) == t.height
      && (forall i, j :: 0 <= i < j < |vc.counts| ==> vc.counts[i] >= vc.counts[j])
  {
    var m := MetadataOf(t, columnName).value;
    CountValuesSound(m.table.columns[PublicationColumn]);
  }

  // ---------------------------------------------------------------------
  // `MapColumn` and `AddColumn`.

  /** `MapColumn.process`: `df[output] = df[column].replace(keys[0], keys[1])`.
      A missing column is a `KeyError`, fewer than two lists an
      `IndexError`, lists of different lengths a `ValueError`. */
  function MapColumnOf(t: Table, columnName: string, keys: seq<seq<Cell>>, output: string): (r: Result<Table>)
    requires t.Valid()
  {
    if columnName !in t.columns then Failure(MissingColumn(columnName))
    else if |keys| < 2 || |keys[0]| != |keys[1]| then Failure(MalformedMapping)
    else Success(t.With(output, Mapped(t.columns[columnName], keys[0], keys[1])))
  }

  method MapColumn(t: Table, columnName: string, keys: seq<seq<Cell>>, output: string) returns (r: Result<Table>)
    requires t.Valid()
    ensures r == MapColumnOf(t, columnName, keys, output)
  {
    var df := new Frame(t);
    var source := df.Get(columnName);
    if source.Failure? {
      return Failure(source.error);
    }
    if |keys| < 2 || |keys[0]| != |keys[1]| {
      return Failure(MalformedMapping);
    }
    var err := df.Assign(output, Mapped(source.value, keys[0], keys[1]));
    r := Success(df.Value());
  }

  /** The new column maps every cell through the pairs; the rows, the
      other columns and, unless it is the output, the source column stay
      as they were. */
  lemma MapColumnResult(t: Table, columnName: string, keys: seq<seq<Cell>>, output: string)
    requires t.Valid() && MapColumnOf(t, columnName, keys, output).Success?
    ensures |keys| >= 2 && |keys[0]| == |keys[1]| && columnName in t.columns
    ensures var u := MapColumnOf(t, columnName, keys, output).value;
      && u.height == t.height
      && output in u.columns
      && (forall i :: 0 <= i < t.height ==>
            u.columns[output][i] == (match LastIndex(keys[0], t.columns[columnName][i])
                                     case Some(k) => keys[1][k]
                                     case None => t.columns[columnName][i]))
      && (forall n :: n in t.columns && n != output ==> n in u.columns && u.columns[n] == t.columns[n])
  {
  }

  /** Each cell of the new column is what pandas computes, the pairs
      applied in order with the masks taken on the original cell. */
  lemma MapColumnSequential(t: Table, columnName: string, keys: seq<seq<Cell>>, output: string, i: nat)
    requires t.Valid() && MapColumnOf(t, columnName, keys, output).Success? && i < t.height
    ensures |keys| >= 2 && |keys[0]| == |keys[1]| && columnName in t.columns
    ensures MapColumnOf(t, columnName, keys, output).value.columns[output][i]
         == ReplacePairs(t.columns[columnName][i], t.columns[columnName][i], keys[0], keys[1])
  {
    var c := t.columns[columnName][i];
    ReplacePairsLastMatch(c, c, keys[0], keys[1]);
  }

  /** `AddColumn.process`: `df['preprocessed_tokens'] = array.to_pylist()`. */
  method AddColumn(t: Table, values: seq<Cell>) returns (r: Result<Table>)
    requires t.Valid()
    ensures r.Success? <==> |values| == t.height || t.height == 0
    ensures r.Failure? ==> r.error == LengthMismatch(t.height, |values|)
    ensures r.Success? ==> && r.value.Valid()
                           && r.value.height == |values|
                           && r.value.columns.Keys == t.columns.Keys + {TokensColumn}
                           && r.value.columns[TokensColumn] == values
                           && (|values| == t.height ==>
                                 forall n :: n in t.columns && n != TokensColumn ==> r.value.columns[n] == t.columns[n])
                           && (t.height == 0 < |values| ==>
                                 forall n :: n in t.columns && n != TokensColumn ==> r.value.columns[n] == Blank(|values|))
  {
    var df := new Frame(t);
    var err := df.Assign(TokensColumn, values);
    if err.Some? {
      return Failure(err.value);
    }
    r := Success(df.Value());
  }
}
