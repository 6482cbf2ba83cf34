/** `VizDataQuery.process`: the SQL text for one aggregation period, with the
    publication column name spliced in verbatim. */
module VizQuery {
  import opened Common

  /** A query template: literal text and the places where the column name
      goes. */
  datatype Piece = Lit(text: string) | Hole

  function Render(t: seq<Piece>, col: string): (q: string)
    ensures |q| == LitLength(t) + Holes(t) * |col|
  {
    if |t| == 0 then []
    else
      (match t[0] case Lit(s) => s case Hole => col) + Render(t[1..], col)
  }

  function LitLength(t: seq<Piece>): nat
  {
    if |t| == 0 then 0 else (match t[0] case Lit(s) => |s| case Hole => 0) + LitLength(t[1..])
  }

  function Holes(t: seq<Piece>): nat
  {
    if |t| == 0 then 0 else (if t[0].Hole? then 1 else 0) + Holes(t[1..])
  }

  const MonthTemplate: seq<Piece> := [
    Lit("SELECT strptime(concat(month, '/', year), '%m/%Y') as date, "), Hole,
    Lit(" as publication_name, count FROM (SELECT YEAR(date) as year, MONTH(date) as month, "), Hole,
    Lit(", count(*) as count FROM data GROUP BY "), Hole,
    Lit(", YEAR(date), MONTH(date))")]

  const YearTemplate: seq<Piece> := [
    Lit("SELECT strptime(year, '%Y') as date, "), Hole,
    Lit(" as publication_name, count FROM (SELECT YEAR(date) as year, "), Hole,
    Lit(", count(*) as count FROM data GROUP BY "), Hole,
    Lit(", YEAR(date))")]

  const DayTemplate: seq<Piece> := [
    Lit("SELECT strptime(concat('01/', month, '/', year), '%d/%m/%Y') as date, "), Hole,
    Lit(" as publication_name, count FROM (SELECT YEAR(date) as year, MONTH(date) as month, "), Hole,
    Lit(", count(*) as count FROM data GROUP BY "), Hole,
    Lit(", YEAR(date), MONTH(date), DAY(date))")]

  /** The template of each aggregation the module knows. */
  function Template(agg: string): (t: Option<seq<Piece>>)
    ensures t.Some? <==> agg == "month" || agg == "year" || agg == "day"
  {
    if agg == "month" then Some(MonthTemplate)
    else if agg == "year" then Some(YearTemplate)
    else if agg == "day" then Some(DayTemplate)
    else None
  }

  /** The query, or the `UnboundLocalError` an unknown period raises when
      the output is set. */
  function VizDataQuery(agg: string, col: string): (r: Result<string>)
    ensures r.Success? <==> agg == "month" || agg == "year" || agg == "day"
    ensures r.Failure? ==> r.error == UnknownAggregation(agg)
  {
    match Template(agg)
    case Some(t) => Success(Render(t, col))
    case None => Failure(UnknownAggregation(agg))
  }

  /** Reads the column name back out of a query rendered from `t`: it sits
      right after the first literal, and the three holes share the length
      the literals leave over. */
  function ColumnOf(t: seq<Piece>, q: string): string
  {
    if |t| < 2 || !t[0].Lit? || Holes(t) == 0 || |q| < LitLength(t) then []
    else
      var k := (|q| - LitLength(t)) / Holes(t);
      if |t[0].text| + k <= |q| then q[|t[0].text|..|t[0].text| + k] else []
  }

  lemma RenderLitHole(t: seq<Piece>, col: string)
    requires |t| >= 2 && t[0].Lit? && t[1].Hole?
    ensures Render(t, col) == t[0].text + col + Render(t[2..], col)
  {
    assert t[1..][1..] == t[2..];
  }

  lemma TemplateShape(agg: string)
    requires Template(agg).Some?
    ensures var t := Template(agg).value;
      |t| >= 2 && t[0].Lit? && t[1].Hole? && Holes(t) == 3
  {
  }

  /** Reading back what a three-hole template of that shape rendered. */
  lemma RenderRoundTrip(t: seq<Piece>, col: string)
    requires |t| >= 2 && t[0].Lit? && t[1].Hole? && Holes(t) == 3
    ensures ColumnOf(t, Render(t, col)) == col
  {
    RenderLitHole(t, col);
    var q := Render(t, col);
    assert |q| - LitLength(t) == 3 * |col|;
    assert q[|t[0].text|..|t[0].text| + |col|] == col;
  }

  /** The query determines the column name: rendering and reading back are
      inverse, so distinct column names give distinct queries. */
  lemma QueryRoundTrip(agg: string, col: string)
    requires VizDataQuery(agg, col).Success?
    ensures ColumnOf(Template(agg).value, VizDataQuery(agg, col).value) == col
  {
    TemplateShape(agg);
    RenderRoundTrip(Template(agg).value, col);
  }

  /** Different column names, different queries. */
  lemma QueryInjective(agg: string, col1: string, col2: string)
    requires VizDataQuery(agg, col1).Success?
    requires VizDataQuery(agg, col1) == VizDataQuery(agg, col2)
    ensures col1 == col2
  {
    QueryRoundTrip(agg, col1);
    QueryRoundTrip(agg, col2);
  }

  /** The column name is spliced in three times, unescaped: the query is
      the literal text plus three copies of the name. */
  lemma QueryLength(agg: string, col: string)
    requires VizDataQuery(agg, col).Success?
    ensures |VizDataQuery(agg, col).value| == LitLength(Template(agg).value) + 3 * |col|
  {
    TemplateShape(agg);
  }
}
