/** `parseWeekJisseki`: the project-hours table of one week (工数実績入力表)
    read into seven day records (total work, unaccounted time, and hours per
    project) and the map from project id to project name. The table is given
    already parsed: the header rows by their cells' second `span`, the body
    rows by their cells' text and the texts of their `div/span` elements.

    The numeric generation (`src/command-get.ts`, copied in `src/cli.ts`)
    turns every figure into a number; the string generation
    (`src/commands/get.ts`) keeps them as written.
 */
module Hours {
  import opened Wrappers
  import opened Decimals
  import opened Sequences
  import opened OrderedMap

  /** The second `span` of a header cell: its whole text, and its first text
      node (what an XPath ending in `/text()` finds first). */
  datatype Span = Span(content: string, firstText: Option<string>)

  /** A `th`, by its second `span` if it has one. */
  datatype HeadCell = HeadCell(span2: Option<Span>)

  /** A `td`: its text, and the texts of the `span`s of its `div`s. */
  datatype BodyCell = BodyCell(text: string, spans: seq<string>)

  /** The header rows and the body rows of the table. */
  datatype HoursTable = HoursTable(head: seq<seq<HeadCell>>, body: seq<seq<BodyCell>>)

  /** Why a table is rejected. Header rows and columns are numbered from 1,
      as in the XPath expressions; a body column is its `td` number. */
  datatype HoursError =
    | AnchorMissing(row: nat, col: nat)
    | AnchorMismatch(row: nat, col: nat, expected: string, actual: string)
    | BadTotal(kind: string, text: string)
    | BadHours(col: nat, text: string)

  /** A day's figures: total work time, unaccounted time and the hours of
      each project, any of which may be `undefined` (`None`). */
  datatype Hours<H, F, C> = Hours(sagyou: Option<H>, fumei: Option<F>, jisseki: OMap<Option<C>>)

  /** The seven days and the project names, by project id. */
  datatype HoursWeek<H, F, C> = HoursWeek(records: seq<Hours<H, F, C>>, projects: OMap<Option<string>>)

  // ---------------------------------------------------------------- header

  /** The first text node of the second span of header cell (`row`, `col`). */
  function AnchorText(t: HoursTable, row: nat, col: nat): Option<string> {
    if 1 <= row <= |t.head| && 1 <= col <= |t.head[row - 1]| && t.head[row - 1][col - 1].span2.Some? then
      t.head[row - 1][col - 1].span2.value.firstText
    else None
  }

  /** The four header cells whose text fixes the table's layout. */
  const Anchors: seq<(nat, nat, string)> :=
    [(2, 6, "作業時間"), (3, 6, "不明時間"), (4, 4, "項目No"), (4, 5, "名称")]

  /** `assertText`: the anchor must exist and hold exactly its text. */
  function CheckAnchor(t: HoursTable, a: (nat, nat, string)): (c: Check<HoursError>)
    ensures c.Pass? <==> AnchorText(t, a.0, a.1) == Some(a.2)
  {
    match AnchorText(t, a.0, a.1)
    case None => Fail(AnchorMissing(a.0, a.1))
    case Some(text) => if text == a.2 then Pass else Fail(AnchorMismatch(a.0, a.1, a.2, text))
  }

  predicate AnchorsOk(t: HoursTable) {
    forall k :: 0 <= k < |Anchors| ==> AnchorText(t, Anchors[k].0, Anchors[k].1) == Some(Anchors[k].2)
  }

  /** The four anchors in order; the first that fails is reported. */
  function CheckAnchors(t: HoursTable): (c: Check<HoursError>)
    ensures c.Pass? <==> AnchorsOk(t)
  {
    if CheckAnchor(t, Anchors[0]).Fail? then CheckAnchor(t, Anchors[0])
    else if CheckAnchor(t, Anchors[1]).Fail? then CheckAnchor(t, Anchors[1])
    else if CheckAnchor(t, Anchors[2]).Fail? then CheckAnchor(t, Anchors[2])
    else CheckAnchor(t, Anchors[3])
  }

  /** The texts of the second spans of the cells that have one. */
  function SpanTexts(cells: seq<HeadCell>): (r: seq<string>)
    ensures |r| <= |cells|
  {
    if cells == [] then []
    else (if cells[0].span2.Some? then [cells[0].span2.value.content] else []) + SpanTexts(cells[1..])
  }

  /** `tr[row]/th/span[2]`: a header row's figures, label cells included. */
  function Series(t: HoursTable, row: nat): seq<string> {
    if 1 <= row <= |t.head| then SpanTexts(t.head[row - 1]) else []
  }

  // ---------------------------------------------------------------- body

  /** `tr/td[k]/div/span`: the span texts of column `k`, row after row, over
      the rows that have a `k`-th cell. */
  function SpanColumn(body: seq<seq<BodyCell>>, k: nat): seq<string>
    requires k >= 1
  {
    if body == [] then []
    else (if |body[0]| >= k then body[0][k - 1].spans else []) + SpanColumn(body[1..], k)
  }

  /** `tr/td[k]`: the texts of column `k` over the rows that have one. */
  function TextColumn(body: seq<seq<BodyCell>>, k: nat): seq<string>
    requires k >= 1
  {
    if body == [] then []
    else (if |body[0]| >= k then [body[0][k - 1].text] else []) + TextColumn(body[1..], k)
  }

  function ProjectIds(t: HoursTable): seq<string> {
    SpanColumn(t.body, 4)
  }

  function ProjectNames(t: HoursTable): seq<string> {
    SpanColumn(t.body, 5)
  }

  /** The day columns `td[7]` to `td[13]`, each converted in row order; the
      columns are taken left to right and the first failure is reported. */
  function ReadColumns<C>(t: HoursTable, cell: nat -> string -> Result<C, HoursError>, k: nat): (r: Result<seq<seq<C>>, HoursError>)
    requires 7 <= k <= 14
    ensures r.Success? <==> forall j :: k <= j < 14 ==> MapResult(TextColumn(t.body, j), cell(j)).Success?
    ensures r.Success? ==> |r.value| == 14 - k
    ensures r.Success? ==> forall j :: k <= j < 14 ==> r.value[j - k] == MapResult(TextColumn(t.body, j), cell(j)).value
    decreases 14 - k
  {
    if k == 14 then Success([])
    else
      var col :- MapResult(TextColumn(t.body, k), cell(k));
      var rest :- ReadColumns(t, cell, k + 1);
      Success([col] + rest)
  }

  /** The value at index `j` of a converted list, `undefined` past its end. */
  function Entries<C>(xs: seq<C>, n: nat): (r: seq<Option<C>>)
    ensures |r| == n && forall j :: 0 <= j < n ==> r[j] == At(xs, j)
  {
    seq(n, j requires 0 <= j < n => At(xs, j))
  }

  /** The converted figures: the header totals and the seven day columns. */
  datatype Figures<H, F, C> = Figures(sagyous: seq<H>, fumeis: seq<F>, cols: seq<seq<C>>)

  /** The checks and conversions, in the source's order: the anchors, the
      work-time totals, the unaccounted-time totals, then the day columns. */
  function ReadFigures<H, F, C>(
    t: HoursTable,
    sagyou: string -> Result<H, HoursError>,
    fumei: string -> Result<F, HoursError>,
    cell: nat -> string -> Result<C, HoursError>
  ): (r: Result<Figures<H, F, C>, HoursError>)
    ensures r.Success? ==> AnchorsOk(t) && |r.value.cols| == 7
  {
    var anchors := CheckAnchors(t);
    :- anchors;
    var sagyous :- MapResult(Series(t, 2), sagyou);
    var fumeis :- MapResult(Series(t, 3), fumei);
    var cols :- ReadColumns(t, cell, 7);
    Success(Figures(sagyous, fumeis, cols))
  }

  /** The seven records (the totals after the five label columns) and the
      project names, each keyed by project id in row order. */
  function Assemble<H, F, C>(t: HoursTable, fig: Figures<H, F, C>): (w: HoursWeek<H, F, C>)
    requires |fig.cols| == 7
    ensures |w.records| == 7
  {
    var ids := ProjectIds(t);
    var n := |ids|;
    var records := seq(7, i requires 0 <= i < 7 =>
      Hours(At(Shift(fig.sagyous, 5), i), At(Shift(fig.fumeis, 5), i), FromAssignments(ids, Entries(fig.cols[i], n))));
    HoursWeek(records, FromAssignments(ids, Entries(ProjectNames(t), n)))
  }

  /** The shared parser. */
  function ParseHours<H, F, C>(
    t: HoursTable,
    sagyou: string -> Result<H, HoursError>,
    fumei: string -> Result<F, HoursError>,
    cell: nat -> string -> Result<C, HoursError>
  ): (r: Result<HoursWeek<H, F, C>, HoursError>)
    ensures r.Success? ==> AnchorsOk(t) && |r.value.records| == 7
  {
    var fig :- ReadFigures(t, sagyou, fumei, cell);
    Success(Assemble(t, fig))
  }

  /** Every text of `xs` converts. */
  predicate AllConvert<C>(xs: seq<string>, f: string -> Result<C, HoursError>) {
    forall j :: 0 <= j < |xs| ==> f(xs[j]).Success?
  }

  /** The converted value at index `j`, `undefined` past the end. */
  function Converted<C>(xs: seq<string>, f: string -> Result<C, HoursError>, j: nat): (r: Option<C>)
    requires AllConvert(xs, f)
  {
    if j < |xs| then Some(f(xs[j]).value) else None
  }

  /** The table is accepted exactly when its anchors hold and every figure
      converts; how many figures there are does not matter. */
  lemma ParseHoursAccepts<H, F, C>(
    t: HoursTable,
    sagyou: string -> Result<H, HoursError>,
    fumei: string -> Result<F, HoursError>,
    cell: nat -> string -> Result<C, HoursError>)
    ensures ParseHours(t, sagyou, fumei, cell).Success? <==>
      AnchorsOk(t) && AllConvert(Series(t, 2), sagyou) && AllConvert(Series(t, 3), fumei)
      && forall j :: 7 <= j < 14 ==> AllConvert(TextColumn(t.body, j), cell(j))
  {
    assert ParseHours(t, sagyou, fumei, cell).Success? <==> ReadFigures(t, sagyou, fumei, cell).Success?;
    forall j | 7 <= j < 14
      ensures MapResult(TextColumn(t.body, j), cell(j)).Success? <==> AllConvert(TextColumn(t.body, j), cell(j))
    {
    }
  }

  /** What a successful parse read, before assembling. */
  lemma ReadFiguresValues<H, F, C>(
    t: HoursTable,
    sagyou: string -> Result<H, HoursError>,
    fumei: string -> Result<F, HoursError>,
    cell: nat -> string -> Result<C, HoursError>)
    requires ParseHours(t, sagyou, fumei, cell).Success?
    ensures ReadFigures(t, sagyou, fumei, cell).Success?
    ensures var fig := ReadFigures(t, sagyou, fumei, cell).value;
      ParseHours(t, sagyou, fumei, cell).value == Assemble(t, fig)
      && AllConvert(Series(t, 2), sagyou) && AllConvert(Series(t, 3), fumei)
      && fig.sagyous == MapResult(Series(t, 2), sagyou).value
      && fig.fumeis == MapResult(Series(t, 3), fumei).value
      && forall i :: 0 <= i < 7 ==>
           (AllConvert(TextColumn(t.body, 7 + i), cell(7 + i))
            && fig.cols[i] == MapResult(TextColumn(t.body, 7 + i), cell(7 + i)).value)
  {
    forall j | 7 <= j < 14
      ensures AllConvert(TextColumn(t.body, j), cell(j))
    {
      assert MapResult(TextColumn(t.body, j), cell(j)).Success?;
    }
  }

  /** Record `i` holds the sixth and later header totals at `i` (the first
      five belong to the label columns), `undefined` where the header row is
      short. */
  lemma ParseHoursTotals<H, F, C>(
    t: HoursTable,
    sagyou: string -> Result<H, HoursError>,
    fumei: string -> Result<F, HoursError>,
    cell: nat -> string -> Result<C, HoursError>,
    i: nat)
    requires ParseHours(t, sagyou, fumei, cell).Success? && i < 7
    ensures AllConvert(Series(t, 2), sagyou) && AllConvert(Series(t, 3), fumei)
    ensures var w := ParseHours(t, sagyou, fumei, cell).value;
      w.records[i].sagyou == Converted(Series(t, 2), sagyou, 5 + i)
      && w.records[i].fumei == Converted(Series(t, 3), fumei, 5 + i)
  {
    ReadFiguresValues(t, sagyou, fumei, cell);
  }

  /** Record `i` maps each project id, and only those, to the figure in
      column `td[7 + i]` of the row where the id last occurs (`undefined`
      when that column is short); the names map likewise. Later rows with
      the same id overwrite earlier ones. */
  lemma ParseHoursProjects<H, F, C>(
    t: HoursTable,
    sagyou: string -> Result<H, HoursError>,
    fumei: string -> Result<F, HoursError>,
    cell: nat -> string -> Result<C, HoursError>,
    i: nat, k: string)
    requires ParseHours(t, sagyou, fumei, cell).Success? && i < 7
    ensures AllConvert(TextColumn(t.body, 7 + i), cell(7 + i))
    ensures var w := ParseHours(t, sagyou, fumei, cell).value;
      UniqueKeys(w.records[i].jisseki) && UniqueKeys(w.projects)
      && (k in Keys(w.records[i].jisseki) <==> k in ProjectIds(t))
      && (k in Keys(w.projects) <==> k in ProjectIds(t))
      && (k in ProjectIds(t) ==>
            Find(w.records[i].jisseki, k) == Some(Converted(TextColumn(t.body, 7 + i), cell(7 + i), LastIndex(ProjectIds(t), k)))
            && Find(w.projects, k) == Some(At(ProjectNames(t), LastIndex(ProjectIds(t), k))))
  {
    ReadFiguresValues(t, sagyou, fumei, cell);
    var fig := ReadFigures(t, sagyou, fumei, cell).value;
    var ids := ProjectIds(t);
    var n := |ids|;
    var cs := Entries(fig.cols[i], n);
    var ns := Entries(ProjectNames(t), n);
    FromAssignmentsFind(ids, cs, k);
    FromAssignmentsFind(ids, ns, k);
    if k in ids {
      var j := LastIndex(ids, k);
      assert cs[j] == Converted(TextColumn(t.body, 7 + i), cell(7 + i), j);
    }
  }

  // ---------------------------------------------------------------- the two generations

  /** A work-time total: "" and the row's label become the sentinel -1. */
  function SagyouNumber(s: string): (r: Result<Decimal, HoursError>)
    ensures (s == "" || s == "作業時間") ==> r == Success(Decimal(-1, 0))
    ensures !(s == "" || s == "作業時間") ==> (r.Success? <==> ParseFloat(s).Some?)
    ensures !(s == "" || s == "作業時間") && r.Success? ==> r.value == ParseFloat(s).value
  {
    if s == "" || s == "作業時間" then Success(Decimal(-1, 0))
    else
      match ParseFloat(s)
      case None => Failure(BadTotal("作業時間", s))
      case Some(v) => Success(v)
  }

  /** An unaccounted-time total: "" and the row's label become `null`. */
  function FumeiNumber(s: string): (r: Result<Option<Decimal>, HoursError>)
    ensures (s == "" || s == "不明時間") ==> r == Success(None)
    ensures !(s == "" || s == "不明時間") ==> (r.Success? <==> ParseFloat(s).Some?)
    ensures !(s == "" || s == "不明時間") && r.Success? ==> r.value == ParseFloat(s)
  {
    if s == "" || s == "不明時間" then Success(None)
    else
      match ParseFloat(s)
      case None => Failure(BadTotal("不明時間", s))
      case Some(v) => Success(Some(v))
  }

  /** A project's hours in column `k`: a number, or an error. */
  function HoursNumber(k: nat): string -> Result<Decimal, HoursError> {
    s => match ParseFloat(s) case None => Failure(BadHours(k, s)) case Some(v) => Success(v)
  }

  /** The string generation's conversion: the text as written. */
  function Verbatim(s: string): Result<string, HoursError> {
    Success(s)
  }

  function VerbatimColumn(k: nat): string -> Result<string, HoursError> {
    Verbatim
  }

  /** The numeric generation. */
  function ParseWeekJisseki(t: HoursTable): Result<HoursWeek<Decimal, Option<Decimal>, Decimal>, HoursError> {
    ParseHours(t, SagyouNumber, FumeiNumber, HoursNumber)
  }

  /** The string generation. */
  function ParseWeekJisseki010(t: HoursTable): Result<HoursWeek<string, string, string>, HoursError> {
    ParseHours(t, Verbatim, Verbatim, VerbatimColumn)
  }

  // ---------------------------------------------------------------- what each generation accepts

  /** A header total the numeric generation accepts: blank, the row's own
      label, or text `parseFloat` reads as a number. */
  predicate TotalOk(s: string, heading: string) {
    s == "" || s == heading || ParseFloat(s).Some?
  }

  /** The number a project's cell in column `k`, row `j`, holds;
      `undefined` when the column is shorter than the id list. */
  function CellFigure(t: HoursTable, k: nat, j: nat): Option<Decimal>
    requires k >= 1
  {
    var col := TextColumn(t.body, k);
    if j < |col| then ParseFloat(col[j]) else None
  }

  /** The numeric generation accepts a table exactly when the anchors hold,
      every header total is blank, a label or a number, and every cell of
      the seven day columns is a number. */
  lemma ParseWeekJissekiAccepts(t: HoursTable)
    ensures ParseWeekJisseki(t).Success? <==>
      AnchorsOk(t)
      && (forall j :: 0 <= j < |Series(t, 2)| ==> TotalOk(Series(t, 2)[j], "作業時間"))
      && (forall j :: 0 <= j < |Series(t, 3)| ==> TotalOk(Series(t, 3)[j], "不明時間"))
      && (forall k, j :: 7 <= k < 14 && 0 <= j < |TextColumn(t.body, k)| ==> ParseFloat(TextColumn(t.body, k)[j]).Some?)
  {
    ParseHoursAccepts(t, SagyouNumber, FumeiNumber, HoursNumber);
    assert AllConvert(Series(t, 2), SagyouNumber) <==> forall j :: 0 <= j < |Series(t, 2)| ==> TotalOk(Series(t, 2)[j], "作業時間");
    assert AllConvert(Series(t, 3), FumeiNumber) <==> forall j :: 0 <= j < |Series(t, 3)| ==> TotalOk(Series(t, 3)[j], "不明時間");
    forall k | 7 <= k < 14
      ensures AllConvert(TextColumn(t.body, k), HoursNumber(k)) <==>
        forall j :: 0 <= j < |TextColumn(t.body, k)| ==> ParseFloat(TextColumn(t.body, k)[j]).Some?
    {
      var col := TextColumn(t.body, k);
      assert forall j :: 0 <= j < |col| ==> (HoursNumber(k)(col[j]).Success? <==> ParseFloat(col[j]).Some?);
    }
  }

  /** In an accepted table, day `i` holds the sixth and later header totals:
      -1 for a blank or label work-time total, `null` for a blank or label
      unaccounted-time total, the number otherwise, and `undefined` where the
      header row is short. */
  lemma ParseWeekJissekiTotals(t: HoursTable, i: nat)
    requires ParseWeekJisseki(t).Success? && i < 7
    ensures var rec := ParseWeekJisseki(t).value.records[i];
      var ss := Series(t, 2);
      && (5 + i >= |ss| ==> rec.sagyou.None?)
      && (5 + i < |ss| && (ss[5 + i] == "" || ss[5 + i] == "作業時間") ==> rec.sagyou == Some(Decimal(-1, 0)))
      && (5 + i < |ss| && !(ss[5 + i] == "" || ss[5 + i] == "作業時間") ==> rec.sagyou == ParseFloat(ss[5 + i]))
    ensures var rec := ParseWeekJisseki(t).value.records[i];
      var fs := Series(t, 3);
      && (5 + i >= |fs| ==> rec.fumei.None?)
      && (5 + i < |fs| && (fs[5 + i] == "" || fs[5 + i] == "不明時間") ==> rec.fumei == Some(None))
      && (5 + i < |fs| && !(fs[5 + i] == "" || fs[5 + i] == "不明時間") ==> rec.fumei == Some(ParseFloat(fs[5 + i])))
  {
    ParseHoursTotals(t, SagyouNumber, FumeiNumber, HoursNumber, i);
  }

  /** ... and, per project id, the number in column `td[7 + i]` of the row
      where the id last occurs; no other key. */
  lemma ParseWeekJissekiCells(t: HoursTable, i: nat, k: string)
    requires ParseWeekJisseki(t).Success? && i < 7
    ensures var rec := ParseWeekJisseki(t).value.records[i];
      && (k in ProjectIds(t) ==> Find(rec.jisseki, k) == Some(CellFigure(t, 7 + i, LastIndex(ProjectIds(t), k))))
      && (k !in ProjectIds(t) ==> Find(rec.jisseki, k).None?)
  {
    ParseHoursProjects(t, SagyouNumber, FumeiNumber, HoursNumber, i, k);
    var ids := ProjectIds(t);
    var rec := ParseHours(t, SagyouNumber, FumeiNumber, HoursNumber).value.records[i];
    if k in ids {
      var j := LastIndex(ids, k);
      ConvertedCell(t, 7 + i, j);
      assert Find(rec.jisseki, k) == Some(CellFigure(t, 7 + i, j));
    }
  }

  /** In a column every cell of which converts, the converted figure of a
      row is the number its cell holds. */
  lemma ConvertedCell(t: HoursTable, k: nat, j: nat)
    requires k >= 1 && AllConvert(TextColumn(t.body, k), HoursNumber(k))
    ensures Converted(TextColumn(t.body, k), HoursNumber(k), j) == CellFigure(t, k, j)
  {
    var col := TextColumn(t.body, k);
    if j < |col| {
      assert HoursNumber(k)(col[j]).Success?;
    }
  }

  /** The string generation accepts a table exactly when its anchors hold. */
  lemma ParseWeekJisseki010Accepts(t: HoursTable)
    ensures ParseWeekJisseki010(t).Success? <==> AnchorsOk(t)
  {
    ParseHoursAccepts(t, Verbatim, Verbatim, VerbatimColumn);
  }

  /** ... and keeps every text as it stands. */
  lemma ParseWeekJisseki010Values(t: HoursTable, i: nat, k: string)
    requires ParseWeekJisseki010(t).Success? && i < 7
    ensures var w := ParseWeekJisseki010(t).value;
      && w.records[i].sagyou == At(Series(t, 2), 5 + i)
      && w.records[i].fumei == At(Series(t, 3), 5 + i)
      && (k in ProjectIds(t) ==> Find(w.records[i].jisseki, k) == Some(At(TextColumn(t.body, 7 + i), LastIndex(ProjectIds(t), k))))
      && (k in ProjectIds(t) ==> Find(w.projects, k) == Some(At(ProjectNames(t), LastIndex(ProjectIds(t), k))))
  {
    ParseHoursTotals(t, Verbatim, Verbatim, VerbatimColumn, i);
    ParseHoursProjects(t, Verbatim, Verbatim, VerbatimColumn, i, k);
  }
}
