/** `parseWeekKinmu`: the attendance table of one week (勤務時間表) read into
    seven day records, one per date column, each `null` (`None`) for a day
    outside the month. The table is given already parsed: six rows of cells,
    each cell with its text and the parts of it the parsers look at.

    Two generations exist. The numeric one (`src/command-get.ts`, copied in
    `src/cli.ts`) reads the holiday from a `label` and turns the break into a
    number; the string one (`src/commands/get.ts`) reads the holiday from the
    selected `option` and keeps the break as written.
 */
module Attendance {
  import opened Wrappers
  import opened Decimals
  import opened Sequences
  import opened DatePattern

  /** A `td`: its text, the attributes of its first `input` (if any), the
      text of its first `label` (if any) and the text of its first
      `option[selected="selected"]` (if any). */
  datatype Cell = Cell(
    text: string,
    input: Option<map<string, string>>,
    firstLabel: Option<string>,
    selectedOption: Option<string>)

  /** The rows (`tr`) of the table, each a list of its cells (`td`). */
  type Table = seq<seq<Cell>>

  /** The text each row's first cell must hold: date, arrival, leaving,
      next-day flag, break, holiday. */
  const RowLabels: seq<string> := ["", "出社", "退社", "翌日", "休憩", "休み"]

  /** Why a table is rejected; rows are numbered from 1 and day columns
      from 1, as in the source's messages. */
  datatype KinmuError =
    | RowCount(rows: nat)
    | CellCount(row: nat, cells: nat)
    | RowLabel(row: nat, header: string)
    | BadDate(col: nat, text: string)
    | NoValue(row: nat, col: nat)
    | BadAriaChecked(col: nat, ariaChecked: Option<string>)
    | BadYasumi(col: nat, option: string)
    | BadKyukei(text: string)

  /** One day: date, arrival, leaving, whether leaving is on the next day,
      break (a number or a text, by generation) and holiday kind. */
  datatype Kinmu<K> = Kinmu(date: string, begin: string, end: string, yokujitsu: bool, kyukei: K, yasumi: string)

  /** A day column: its index among the row's cells counted from 0 (1 to 7,
      the number the source's messages show) and the cell. */
  datatype Column = Column(index: nat, cell: Cell)

  // ---------------------------------------------------------------- shape

  /** Six rows, each of eight cells whose first cell holds the row's label. */
  predicate Shaped(t: Table) {
    |t| == 6 && RowShaped(t, 0) && RowShaped(t, 1) && RowShaped(t, 2)
    && RowShaped(t, 3) && RowShaped(t, 4) && RowShaped(t, 5)
  }

  predicate RowShaped(t: Table, r: nat)
    requires r < |t| && r < 6
  {
    |t[r]| == 8 && t[r][0].text == RowLabels[r]
  }

  /** `checkTds`: eight cells, the first holding the row's label. */
  function CheckTds(t: Table, r: nat): (c: Check<KinmuError>)
    requires r < |t| && r < 6
    ensures c.Pass? <==> RowShaped(t, r)
    ensures |t[r]| != 8 ==> c == Fail(CellCount(r + 1, |t[r]|))
  {
    if |t[r]| != 8 then Fail(CellCount(r + 1, |t[r]|))
    else if t[r][0].text != RowLabels[r] then Fail(RowLabel(r + 1, t[r][0].text))
    else Pass
  }

  /** Day `i` (0 to 6) of a row: the cell after the header cell and `i` more. */
  function DayColumn(row: seq<Cell>, i: nat): (c: Column)
    requires i + 1 < |row|
    ensures c.cell == row[i + 1]
  {
    Column(i + 1, row[i + 1])
  }

  /** The day columns of a row: every cell after the first. */
  function Columns(row: seq<Cell>): (cs: seq<Column>)
    requires |row| == 8
    ensures |cs| == 7 && forall i :: 0 <= i < 7 ==> cs[i] == DayColumn(row, i)
  {
    seq(7, i requires 0 <= i < 7 => DayColumn(row, i))
  }

  /** Checks row `r` and reads its day columns with `f`, left to right. */
  function ReadRow<T>(t: Table, r: nat, f: Column -> Result<T, KinmuError>): (res: Result<seq<T>, KinmuError>)
    requires r < |t| && r < 6
    ensures res.Success? <==> CheckTds(t, r).Pass? && forall i :: 0 <= i < 7 ==> f(DayColumn(t[r], i)).Success?
    ensures res.Success? ==> |res.value| == 7
    ensures res.Success? ==> forall i :: 0 <= i < 7 ==> res.value[i] == f(DayColumn(t[r], i)).value
  {
    var shape := CheckTds(t, r);
    :- shape;
    MapResult(Columns(t[r]), f)
  }

  // ---------------------------------------------------------------- cells

  /** Row 1: the date the cell's text holds; no date is an error. */
  function DateOf(c: Column): (r: Result<string, KinmuError>)
    ensures r.Success? <==> FindDate(c.cell.text).Some?
    ensures r.Success? ==> r.value == FindDate(c.cell.text).value
  {
    match FindDate(c.cell.text)
    case None => Failure(BadDate(c.index, c.cell.text))
    case Some(d) => Success(d)
  }

  /** Rows 2, 3 and 5: the `value` attribute of the cell's input; `None` for a
      cell without an input, an error for an input without `value`. */
  function ValueOf(row: nat, c: Column): (r: Result<Option<string>, KinmuError>)
    ensures r.Failure? <==> c.cell.input.Some? && "value" !in c.cell.input.value
    ensures r.Success? ==> (r.value.None? <==> c.cell.input.None?)
    ensures r.Success? && r.value.Some? ==> r.value.value == c.cell.input.value["value"]
  {
    match c.cell.input
    case None => Success(None)
    case Some(attrs) =>
      if "value" in attrs then Success(Some(attrs["value"])) else Failure(NoValue(row, c.index))
  }

  function ValueReader(row: nat): Column -> Result<Option<string>, KinmuError> {
    c => ValueOf(row, c)
  }

  /** Row 4: the input's `aria-checked`, which must be "true" or "false". */
  function AriaOf(c: Column): (r: Result<Option<bool>, KinmuError>)
    ensures r.Failure? <==> (c.cell.input.Some?
      && !("aria-checked" in c.cell.input.value && c.cell.input.value["aria-checked"] in {"true", "false"}))
    ensures r.Success? ==> (r.value.None? <==> c.cell.input.None?)
    ensures r.Success? && r.value.Some? ==> (r.value.value <==> c.cell.input.value["aria-checked"] == "true")
  {
    match c.cell.input
    case None => Success(None)
    case Some(attrs) =>
      var found := if "aria-checked" in attrs then Some(attrs["aria-checked"]) else None;
      if found == Some("true") then Success(Some(true))
      else if found == Some("false") then Success(Some(false))
      else Failure(BadAriaChecked(c.index, found))
  }

  /** The holiday kinds; "" is a working day. */
  predicate IsYasumi(s: string) {
    s == "" || s == "全休" || s == "午前" || s == "午後"
  }

  /** Row 6, numeric generation: the text of the cell's label, "&nbsp;"
      meaning a working day. */
  function YasumiLabel(c: Column): (r: Result<Option<string>, KinmuError>)
    ensures r.Failure? <==> c.cell.firstLabel.Some? && !(c.cell.firstLabel.value == "&nbsp;" || (IsYasumi(c.cell.firstLabel.value) && c.cell.firstLabel.value != ""))
    ensures r.Success? ==> (r.value.None? <==> c.cell.firstLabel.None?)
    ensures r.Success? && r.value.Some? ==> IsYasumi(r.value.value)
    ensures r.Success? && r.value.Some? ==>
      r.value.value == if c.cell.firstLabel.value == "&nbsp;" then "" else c.cell.firstLabel.value
  {
    match c.cell.firstLabel
    case None => Success(None)
    case Some(text) =>
      if text == "&nbsp;" then Success(Some(""))
      else if text == "全休" || text == "午前" || text == "午後" then Success(Some(text))
      else Failure(BadYasumi(c.index, text))
  }

  /** Row 6, string generation: the text of the selected option, kept as is. */
  function YasumiSelected(c: Column): (r: Result<Option<string>, KinmuError>)
    ensures r.Failure? <==> c.cell.selectedOption.Some? && !IsYasumi(c.cell.selectedOption.value)
    ensures r.Success? ==> r.value == c.cell.selectedOption
  {
    match c.cell.selectedOption
    case None => Success(None)
    case Some(text) => if IsYasumi(text) then Success(Some(text)) else Failure(BadYasumi(c.index, text))
  }

  // ---------------------------------------------------------------- days

  /** What the six rows hold for one day column. */
  datatype Day = Day(
    date: string, begin: Option<string>, end: Option<string>, yokujitsu: Option<bool>,
    kyukei: Option<string>, yasumi: Option<string>)

  predicate Complete(d: Day) {
    d.begin.Some? && d.end.Some? && d.yokujitsu.Some? && d.kyukei.Some? && d.yasumi.Some?
  }

  /** A day is `null` when any of its five values is missing, and never
      partially filled; the break is converted only for a complete day. */
  function MergeDay<K>(d: Day, kyukei: string -> Result<K, KinmuError>): (r: Result<Option<Kinmu<K>>, KinmuError>)
    ensures r.Failure? <==> Complete(d) && kyukei(d.kyukei.value).Failure?
    ensures r.Success? ==> (r.value.Some? <==> Complete(d))
    ensures r.Success? && r.value.Some? ==>
      r.value.value == Kinmu(d.date, d.begin.value, d.end.value, d.yokujitsu.value, kyukei(d.kyukei.value).value, d.yasumi.value)
  {
    if !Complete(d) then Success(None)
    else
      var k :- kyukei(d.kyukei.value);
      Success(Some(Kinmu(d.date, d.begin.value, d.end.value, d.yokujitsu.value, k, d.yasumi.value)))
  }

  function Merger<K>(kyukei: string -> Result<K, KinmuError>): Day -> Result<Option<Kinmu<K>>, KinmuError> {
    d => MergeDay(d, kyukei)
  }

  /** The break as a number: `parseFloat`, with `NaN` an error. */
  function KyukeiNumber(s: string): (r: Result<Decimal, KinmuError>)
    ensures r.Success? <==> ParseFloat(s).Some?
    ensures r.Success? ==> r.value == ParseFloat(s).value
  {
    match ParseFloat(s)
    case None => Failure(BadKyukei(s))
    case Some(v) => Success(v)
  }

  /** The break as written. */
  function KyukeiText(s: string): (r: Result<string, KinmuError>)
    ensures r == Success(s)
  {
    Success(s)
  }

  /** Every row's reader accepts the cell of day `i`. */
  predicate ColumnsRead(t: Table, yasumi: Column -> Result<Option<string>, KinmuError>, i: nat)
    requires Shaped(t) && i < 7
  {
    DateOf(DayColumn(t[0], i)).Success? && ValueReader(2)(DayColumn(t[1], i)).Success?
    && ValueReader(3)(DayColumn(t[2], i)).Success? && AriaOf(DayColumn(t[3], i)).Success?
    && ValueReader(5)(DayColumn(t[4], i)).Success? && yasumi(DayColumn(t[5], i)).Success?
  }

  /** What the rows' readers give for day `i`. */
  function DayAt(t: Table, yasumi: Column -> Result<Option<string>, KinmuError>, i: nat): Day
    requires Shaped(t) && i < 7 && ColumnsRead(t, yasumi, i)
  {
    Day(DateOf(DayColumn(t[0], i)).value, ValueReader(2)(DayColumn(t[1], i)).value,
      ValueReader(3)(DayColumn(t[2], i)).value, AriaOf(DayColumn(t[3], i)).value,
      ValueReader(5)(DayColumn(t[4], i)).value, yasumi(DayColumn(t[5], i)).value)
  }

  /** The six rows read in order, each checked and then read left to right;
      the first problem found is reported. */
  function ReadDays(t: Table, yasumi: Column -> Result<Option<string>, KinmuError>): (r: Result<seq<Day>, KinmuError>)
    requires |t| == 6
  {
    var dates :- ReadRow(t, 0, DateOf);
    var begins :- ReadRow(t, 1, ValueReader(2));
    var ends :- ReadRow(t, 2, ValueReader(3));
    var yokujitsus :- ReadRow(t, 3, AriaOf);
    var kyukeis :- ReadRow(t, 4, ValueReader(5));
    var yasumis :- ReadRow(t, 5, yasumi);
    Success(seq(7, i requires 0 <= i < 7 =>
      Day(dates[i], begins[i], ends[i], yokujitsus[i], kyukeis[i], yasumis[i])))
  }

  /** `ReadDays` succeeds exactly on a well-shaped table whose every cell its
      row's reader accepts, and then gives each day what its cells hold. */
  lemma ReadDaysSpec(t: Table, yasumi: Column -> Result<Option<string>, KinmuError>)
    requires |t| == 6
    ensures ReadDays(t, yasumi).Success? <==> Shaped(t) && forall i :: 0 <= i < 7 ==> ColumnsRead(t, yasumi, i)
    ensures ReadDays(t, yasumi).Success? ==>
      |ReadDays(t, yasumi).value| == 7 && forall i :: 0 <= i < 7 ==> ReadDays(t, yasumi).value[i] == DayAt(t, yasumi, i)
  {
    var rows := [ReadRow(t, 0, DateOf).Success?, ReadRow(t, 1, ValueReader(2)).Success?,
      ReadRow(t, 2, ValueReader(3)).Success?, ReadRow(t, 3, AriaOf).Success?,
      ReadRow(t, 4, ValueReader(5)).Success?, ReadRow(t, 5, yasumi).Success?];
    assert ReadDays(t, yasumi).Success? <==> rows == [true, true, true, true, true, true];
    if Shaped(t) {
      forall i | 0 <= i < 7 ensures ColumnsRead(t, yasumi, i) <==>
        DateOf(DayColumn(t[0], i)).Success? && ValueReader(2)(DayColumn(t[1], i)).Success?
        && ValueReader(3)(DayColumn(t[2], i)).Success? && AriaOf(DayColumn(t[3], i)).Success?
        && ValueReader(5)(DayColumn(t[4], i)).Success? && yasumi(DayColumn(t[5], i)).Success?
      {
      }
    }
  }

  /** The shared parser: the row count, then each row's shape and cells in
      row order, then the seven days left to right. */
  function ParseKinmu<K>(
    t: Table,
    yasumi: Column -> Result<Option<string>, KinmuError>,
    kyukei: string -> Result<K, KinmuError>
  ): (r: Result<seq<Option<Kinmu<K>>>, KinmuError>)
    ensures |t| != 6 ==> r == Failure(RowCount(|t|))
    ensures r.Success? ==> Shaped(t) && |r.value| == 7
  {
    var rows := Need(|t| == 6, RowCount(|t|));
    :- rows;
    ReadDaysSpec(t, yasumi);
    var days :- ReadDays(t, yasumi);
    MapResult(days, Merger(kyukei))
  }

  /** The numeric generation (`src/command-get.ts`, `src/cli.ts`). */
  function ParseWeekKinmu(t: Table): Result<seq<Option<Kinmu<Decimal>>>, KinmuError> {
    ParseKinmu(t, YasumiLabel, KyukeiNumber)
  }

  /** The string generation (`src/commands/get.ts`). */
  function ParseWeekKinmu010(t: Table): Result<seq<Option<Kinmu<string>>>, KinmuError> {
    ParseKinmu(t, YasumiSelected, KyukeiText)
  }

  // ---------------------------------------------------------------- numeric generation

  /** The cell of row `r` for day `i`. */
  function At(t: Table, r: nat, i: nat): Cell
    requires Shaped(t) && r < 6 && i < 7
  {
    t[r][i + 1]
  }

  /** An input's attribute, `None` when it is absent (`getAttribute` gives
      `null`). */
  function Attr(c: Cell, name: string): Option<string>
    requires c.input.Some?
  {
    if name in c.input.value then Some(c.input.value[name]) else None
  }

  /** Day `i` has its five values: inputs in rows 2 to 5 and a label in row 6. */
  predicate Present(t: Table, i: nat)
    requires Shaped(t) && i < 7
  {
    At(t, 1, i).input.Some? && At(t, 2, i).input.Some? && At(t, 3, i).input.Some?
    && At(t, 4, i).input.Some? && At(t, 5, i).firstLabel.Some?
  }

  /** Every cell of day `i` is acceptable. */
  predicate CellsValid(t: Table, i: nat)
    requires Shaped(t) && i < 7
  {
    FindDate(At(t, 0, i).text).Some?
    && (At(t, 1, i).input.Some? ==> Attr(At(t, 1, i), "value").Some?)
    && (At(t, 2, i).input.Some? ==> Attr(At(t, 2, i), "value").Some?)
    && (At(t, 3, i).input.Some? ==> Attr(At(t, 3, i), "aria-checked") in {Some("true"), Some("false")})
    && (At(t, 4, i).input.Some? ==> Attr(At(t, 4, i), "value").Some?)
    && (At(t, 5, i).firstLabel.Some? ==> At(t, 5, i).firstLabel.value in {"&nbsp;", "全休", "午前", "午後"})
  }

  /** Every cell of day `i` is acceptable, and the break of a present day is
      a number. */
  predicate DayValid(t: Table, i: nat)
    requires Shaped(t) && i < 7
  {
    CellsValid(t, i) && (Present(t, i) ==> ParseFloat(Attr(At(t, 4, i), "value").value).Some?)
  }

  /** The record day `i` yields, read straight from its cells. */
  function ExpectedDay(t: Table, i: nat): Option<Kinmu<Decimal>>
    requires Shaped(t) && i < 7 && DayValid(t, i)
  {
    if !Present(t, i) then None
    else
      var text := At(t, 5, i).firstLabel.value;
      Some(Kinmu(
        FindDate(At(t, 0, i).text).value,
        Attr(At(t, 1, i), "value").value,
        Attr(At(t, 2, i), "value").value,
        Attr(At(t, 3, i), "aria-checked") == Some("true"),
        ParseFloat(Attr(At(t, 4, i), "value").value).value,
        if text == "&nbsp;" then "" else text))
  }

  /** The numeric parser accepts exactly the well-shaped tables whose every
      day is acceptable, and then returns, for each date column, the record
      its cells hold, or `None` when one of its five values is missing. */
  lemma ParseWeekKinmuSpec(t: Table)
    ensures ParseWeekKinmu(t).Success? <==> Shaped(t) && forall i :: 0 <= i < 7 ==> DayValid(t, i)
    ensures ParseWeekKinmu(t).Success? ==>
      |ParseWeekKinmu(t).value| == 7 && forall i :: 0 <= i < 7 ==> ParseWeekKinmu(t).value[i] == ExpectedDay(t, i)
  {
    if |t| == 6 {
      ReadDaysSpec(t, YasumiLabel);
      if Shaped(t) {
        forall i | 0 <= i < 7
          ensures ColumnsRead(t, YasumiLabel, i) ==>
            (Complete(DayAt(t, YasumiLabel, i)) <==> Present(t, i))
          ensures ColumnsRead(t, YasumiLabel, i) && MergeDay(DayAt(t, YasumiLabel, i), KyukeiNumber).Success?
            <==> DayValid(t, i)
        {
          DayStep(t, i);
        }
        var days := ReadDays(t, YasumiLabel);
        if days.Success? {
          var m := MapResult(days.value, Merger(KyukeiNumber));
          assert ParseWeekKinmu(t) == m;
          forall i | 0 <= i < 7 ensures Merger(KyukeiNumber)(days.value[i]) == MergeDay(DayAt(t, YasumiLabel, i), KyukeiNumber) {
          }
        }
      }
    }
  }

  lemma DayStep(t: Table, i: nat)
    requires Shaped(t) && i < 7
    ensures ColumnsRead(t, YasumiLabel, i) ==>
      (Complete(DayAt(t, YasumiLabel, i)) <==> Present(t, i))
    ensures ColumnsRead(t, YasumiLabel, i) && MergeDay(DayAt(t, YasumiLabel, i), KyukeiNumber).Success?
      <==> DayValid(t, i)
    ensures ColumnsRead(t, YasumiLabel, i) && MergeDay(DayAt(t, YasumiLabel, i), KyukeiNumber).Success? ==>
      MergeDay(DayAt(t, YasumiLabel, i), KyukeiNumber).value == ExpectedDay(t, i)
  {
    DayStepRead(t, i);
    if ColumnsRead(t, YasumiLabel, i) {
      DayStepMerged(t, i);
    }
  }

  /** The readers of day `i` all succeed exactly when its cells are
      acceptable apart from the break, and then the day is complete exactly
      when it is present. */
  lemma DayStepRead(t: Table, i: nat)
    requires Shaped(t) && i < 7
    ensures ColumnsRead(t, YasumiLabel, i) <==> CellsValid(t, i)
    ensures ColumnsRead(t, YasumiLabel, i) ==>
      (Complete(DayAt(t, YasumiLabel, i)) <==> Present(t, i))
  {
  }

  /** Once the readers succeed, merging decides on the break alone. */
  lemma DayStepMerged(t: Table, i: nat)
    requires Shaped(t) && i < 7 && ColumnsRead(t, YasumiLabel, i)
    requires Complete(DayAt(t, YasumiLabel, i)) <==> Present(t, i)
    ensures MergeDay(DayAt(t, YasumiLabel, i), KyukeiNumber).Success? <==> DayValid(t, i)
    ensures MergeDay(DayAt(t, YasumiLabel, i), KyukeiNumber).Success? ==>
      MergeDay(DayAt(t, YasumiLabel, i), KyukeiNumber).value == ExpectedDay(t, i)
  {
  }

  // ---------------------------------------------------------------- string generation

  /** Day `i` has its five values: inputs in rows 2 to 5 and a selected
      option in row 6. */
  predicate Present010(t: Table, i: nat)
    requires Shaped(t) && i < 7
  {
    At(t, 1, i).input.Some? && At(t, 2, i).input.Some? && At(t, 3, i).input.Some?
    && At(t, 4, i).input.Some? && At(t, 5, i).selectedOption.Some?
  }

  /** Every cell of day `i` is acceptable; the break is not checked. */
  predicate DayValid010(t: Table, i: nat)
    requires Shaped(t) && i < 7
  {
    FindDate(At(t, 0, i).text).Some?
    && (At(t, 1, i).input.Some? ==> Attr(At(t, 1, i), "value").Some?)
    && (At(t, 2, i).input.Some? ==> Attr(At(t, 2, i), "value").Some?)
    && (At(t, 3, i).input.Some? ==> Attr(At(t, 3, i), "aria-checked") in {Some("true"), Some("false")})
    && (At(t, 4, i).input.Some? ==> Attr(At(t, 4, i), "value").Some?)
    && (At(t, 5, i).selectedOption.Some? ==> IsYasumi(At(t, 5, i).selectedOption.value))
  }

  /** The record day `i` yields in the string generation. */
  function ExpectedDay010(t: Table, i: nat): Option<Kinmu<string>>
    requires Shaped(t) && i < 7 && DayValid010(t, i)
  {
    if !Present010(t, i) then None
    else
      Some(Kinmu(
        FindDate(At(t, 0, i).text).value,
        Attr(At(t, 1, i), "value").value,
        Attr(At(t, 2, i), "value").value,
        Attr(At(t, 3, i), "aria-checked") == Some("true"),
        Attr(At(t, 4, i), "value").value,
        At(t, 5, i).selectedOption.value))
  }

  /** The string parser accepts exactly the well-shaped tables whose every
      cell is acceptable, whatever the break holds, and returns for each day
      its cells' texts, or `None` when one of its five values is missing. */
  lemma ParseWeekKinmu010Spec(t: Table)
    ensures ParseWeekKinmu010(t).Success? <==> Shaped(t) && forall i :: 0 <= i < 7 ==> DayValid010(t, i)
    ensures ParseWeekKinmu010(t).Success? ==>
      |ParseWeekKinmu010(t).value| == 7 && forall i :: 0 <= i < 7 ==> ParseWeekKinmu010(t).value[i] == ExpectedDay010(t, i)
  {
    if |t| == 6 {
      ReadDaysSpec(t, YasumiSelected);
      if Shaped(t) {
        forall i | 0 <= i < 7
          ensures ColumnsRead(t, YasumiSelected, i) && MergeDay(DayAt(t, YasumiSelected, i), KyukeiText).Success?
            <==> DayValid010(t, i)
        {
          DayStep010(t, i);
        }
        var days := ReadDays(t, YasumiSelected);
        if days.Success? {
          assert ParseWeekKinmu010(t) == MapResult(days.value, Merger(KyukeiText));
          forall i | 0 <= i < 7 ensures Merger(KyukeiText)(days.value[i]) == MergeDay(DayAt(t, YasumiSelected, i), KyukeiText) {
          }
        }
      }
    }
  }

  lemma DayStep010(t: Table, i: nat)
    requires Shaped(t) && i < 7
    ensures ColumnsRead(t, YasumiSelected, i) && MergeDay(DayAt(t, YasumiSelected, i), KyukeiText).Success?
      <==> DayValid010(t, i)
    ensures ColumnsRead(t, YasumiSelected, i) && MergeDay(DayAt(t, YasumiSelected, i), KyukeiText).Success? ==>
      MergeDay(DayAt(t, YasumiSelected, i), KyukeiText).value == ExpectedDay010(t, i)
  {
  }

  /** A break that is not a number rejects the table in the numeric
      generation only when its day is present; the string generation never
      looks at it. */
  lemma KyukeiCheckedOnlyWhenPresent(t: Table, i: nat)
    requires Shaped(t) && i < 7
    requires At(t, 4, i).input.Some? && Attr(At(t, 4, i), "value").Some?
    requires ParseFloat(Attr(At(t, 4, i), "value").value).None?
    ensures Present(t, i) ==> ParseWeekKinmu(t).Failure?
    ensures ParseWeekKinmu010(t).Success? <==> forall j :: 0 <= j < 7 ==> DayValid010(t, j)
  {
    ParseWeekKinmuSpec(t);
    ParseWeekKinmu010Spec(t);
    if Present(t, i) {
      assert !DayValid(t, i);
    }
  }

  // ---------------------------------------------------------------- error order

  /** Row `k` is accepted: its shape and every one of its day cells. */
  predicate RowRead(t: Table, yasumi: Column -> Result<Option<string>, KinmuError>, k: nat)
    requires |t| == 6 && k < 6
  {
    if k == 0 then ReadRow(t, 0, DateOf).Success?
    else if k == 1 then ReadRow(t, 1, ValueReader(2)).Success?
    else if k == 2 then ReadRow(t, 2, ValueReader(3)).Success?
    else if k == 3 then ReadRow(t, 3, AriaOf).Success?
    else if k == 4 then ReadRow(t, 4, ValueReader(5)).Success?
    else ReadRow(t, 5, yasumi).Success?
  }

  /** Rows are checked top to bottom: when every row above row `r` is
      accepted, a wrong cell count in row `r` is the error reported, whatever
      the rows below hold. */
  lemma FirstBadRow<K>(t: Table, yasumi: Column -> Result<Option<string>, KinmuError>,
                       kyukei: string -> Result<K, KinmuError>, r: nat)
    requires |t| == 6 && r < 6
    requires forall k :: 0 <= k < r ==> RowRead(t, yasumi, k)
    requires |t[r]| != 8
    ensures ParseKinmu(t, yasumi, kyukei) == Failure(CellCount(r + 1, |t[r]|))
  {
    assert forall k :: 0 <= k < r ==> RowRead(t, yasumi, k);
    if r > 0 { assert RowRead(t, yasumi, 0); }
    if r > 1 { assert RowRead(t, yasumi, 1); }
    if r > 2 { assert RowRead(t, yasumi, 2); }
    if r > 3 { assert RowRead(t, yasumi, 3); }
    if r > 4 { assert RowRead(t, yasumi, 4); }
  }
}
