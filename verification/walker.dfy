/** The `get` command's walk over a month (`src/cli.ts`, and the older
    `src/commands/get.ts`): every calendar cell that starts a week is
    clicked, the week's two tables are parsed, each day that has attendance
    is merged with that day's hours, and the project names are collected.
    The result is written as a JSON document.

    The browser is an oracle: `render(i)` is the page shown after clicking
    calendar cell `i`, given by the elements the two table lookups match.
 */
module GetMonth {
  import opened Wrappers
  import opened Decimals
  import opened Sequences
  import opened OrderedMap
  import opened JsValues
  import opened Attendance
  import opened Hours
  import opened Lookup

  /** The text of an empty calendar cell (a day of the previous or next
      month): a single no-break space. */
  const Nbsp: string := "\U{00A0}"

  /** Calendar cell `i` starts a visit: it is not blank, and it is a Monday
      (the first column) or the first of the month. */
  predicate Selected(cal: seq<string>, i: nat)
    requires i < |cal|
  {
    cal[i] != Nbsp && (i % 7 == 0 || cal[i] == "1")
  }

  /** The cells visited from `i` on, in calendar order. */
  function Selection(cal: seq<string>, i: nat): (r: seq<nat>)
    requires i <= |cal|
    ensures forall j :: 0 <= j < |r| ==> i <= r[j] < |cal| && Selected(cal, r[j])
    ensures forall j, k :: 0 <= j < k < |r| ==> r[j] < r[k]
    ensures forall c :: i <= c < |cal| && Selected(cal, c) ==> c in r
    decreases |cal| - i
  {
    if i == |cal| then []
    else if Selected(cal, i) then [i] + Selection(cal, i + 1)
    else Selection(cal, i + 1)
  }

  /** The month view of the date picker: `offset` blank cells, the days
      "1" to `days`, then blank cells up to six rows of seven. */
  function MonthCalendar(offset: nat, days: nat): (cal: seq<string>)
    requires offset < 7 && 28 <= days <= 31
    ensures |cal| == 42
  {
    seq(42, i requires 0 <= i < 42 => if offset <= i < offset + days then NatToString(i - offset + 1) else Nbsp)
  }

  /** On a month's calendar the visits are the first of the month and every
      Monday after it within the month. */
  lemma CalendarSelection(offset: nat, days: nat, i: nat)
    requires offset < 7 && 28 <= days <= 31 && i < 42
    ensures Selected(MonthCalendar(offset, days), i) <==> i == offset || (offset < i < offset + days && i % 7 == 0)
  {
    var cal := MonthCalendar(offset, days);
    if offset <= i < offset + days {
      var s := NatToString(i - offset + 1);
      assert s != Nbsp by {
        assert AllDigits(s);
      }
      assert s == "1" <==> i == offset by {
        if s == "1" {
          assert DigitsValue(s) == 1;
        }
      }
    }
  }

  // ---------------------------------------------------------------- one week

  /** The page after clicking a calendar cell: the elements matching the
      attendance table's and the hours table's XPath. */
  datatype Page = Page(kinmuTables: seq<Table>, jissekiDivs: seq<HoursTable>)

  datatype GetError =
    | LookupFailed(thrown: Thrown)
    | KinmuFailed(kinmu: KinmuError)
    | JissekiFailed(jisseki: HoursError)
    | CalendarFailed(thrown: Thrown)

  function Lifted<T, E>(r: Result<T, E>, wrap: E -> GetError): (q: Result<T, GetError>)
    ensures q.Success? <==> r.Success?
    ensures q.Success? ==> q.value == r.value
    ensures q.Failure? ==> q.error == wrap(r.error)
  {
    match r
    case Success(v) => Success(v)
    case Failure(e) => Failure(wrap(e))
  }

  /** A week as the two parsers return it. */
  datatype WeekData<K, H, F, C> = WeekData(kinmus: seq<Option<Kinmu<K>>>, hours: HoursWeek<H, F, C>)

  const KinmuPath := "//table[@id=\"workResultView:j_idt69\"]"
  const JissekiPath := "//div[@id=\"workResultView:items\"]"

  /** The week shown: the attendance table looked up and parsed, then the
      hours table looked up and parsed; the first failure stops the walk. */
  function ReadWeek<K, H, F, C>(
    p: Page,
    kinmu: Table -> Result<seq<Option<Kinmu<K>>>, KinmuError>,
    jisseki: HoursTable -> Result<HoursWeek<H, F, C>, HoursError>
  ): (r: Result<WeekData<K, H, F, C>, GetError>)
    ensures r.Success? <==> |p.kinmuTables| == 1 && kinmu(p.kinmuTables[0]).Success?
                            && |p.jissekiDivs| == 1 && jisseki(p.jissekiDivs[0]).Success?
    ensures r.Success? ==> r.value == WeekData(kinmu(p.kinmuTables[0]).value, jisseki(p.jissekiDivs[0]).value)
    ensures |p.kinmuTables| != 1 ==> r == Failure(LookupFailed(X1(p.kinmuTables, KinmuPath, "勤務時間表の形式が不正です").error))
  {
    var kt :- Lifted(X1(p.kinmuTables, KinmuPath, "勤務時間表の形式が不正です"), e => LookupFailed(e));
    var kinmus :- Lifted(kinmu(kt), e => KinmuFailed(e));
    var ht :- Lifted(X1(p.jissekiDivs, JissekiPath, "工数実績入力表の形式が不正です"), e => LookupFailed(e));
    var hours :- Lifted(jisseki(ht), e => JissekiFailed(e));
    Success(WeekData(kinmus, hours))
  }

  /** `Object.assign({}, kinmu, jissekis[i])`: a day's attendance with its
      hours, which are `undefined` when the hours list is short. */
  datatype Kousu<K, H, F, C> = Kousu(kinmu: Kinmu<K>, hours: Option<Hours<H, F, C>>)

  /** The days of a week that have attendance, from column `i` on, each with
      the hours of the same column. */
  function Kept<K, H, F, C>(kinmus: seq<Option<Kinmu<K>>>, records: seq<Hours<H, F, C>>, i: nat): (r: seq<Kousu<K, H, F, C>>)
    requires i <= |kinmus|
    ensures |r| <= |kinmus| - i
    decreases |kinmus| - i
  {
    if i == |kinmus| then []
    else if kinmus[i].None? then Kept(kinmus, records, i + 1)
    else [Kousu(kinmus[i].value, Sequences.At(records, i))] + Kept(kinmus, records, i + 1)
  }

  /** The columns from `i` on whose day has attendance. */
  function Attended<K>(kinmus: seq<Option<Kinmu<K>>>, i: nat): (r: seq<nat>)
    requires i <= |kinmus|
    ensures forall j :: 0 <= j < |r| ==> i <= r[j] < |kinmus| && kinmus[r[j]].Some?
    ensures forall j, k :: 0 <= j < k < |r| ==> r[j] < r[k]
    ensures forall c :: i <= c < |kinmus| && kinmus[c].Some? ==> c in r
    decreases |kinmus| - i
  {
    if i == |kinmus| then []
    else if kinmus[i].None? then Attended(kinmus, i + 1)
    else [i] + Attended(kinmus, i + 1)
  }

  /** `r` holds, in order, the day of each column of `cs` with that column's
      hours. */
  ghost predicate PairedByColumn<K, H, F, C>(r: seq<Kousu<K, H, F, C>>, cs: seq<nat>, kinmus: seq<Option<Kinmu<K>>>, records: seq<Hours<H, F, C>>) {
    |r| == |cs| && forall j :: 0 <= j < |r| ==> (cs[j] < |kinmus| && kinmus[cs[j]].Some?
      && r[j] == Kousu(kinmus[cs[j]].value, Sequences.At(records, cs[j])))
  }

  lemma PairedCons<K, H, F, C>(r: seq<Kousu<K, H, F, C>>, cs: seq<nat>, kinmus: seq<Option<Kinmu<K>>>, records: seq<Hours<H, F, C>>, i: nat)
    requires PairedByColumn(r, cs, kinmus, records) && i < |kinmus| && kinmus[i].Some?
    ensures PairedByColumn([Kousu(kinmus[i].value, Sequences.At(records, i))] + r, [i] + cs, kinmus, records)
  {
    var r', cs' := [Kousu(kinmus[i].value, Sequences.At(records, i))] + r, [i] + cs;
    forall j | 1 <= j < |r'| ensures r'[j] == r[j - 1] && cs'[j] == cs[j - 1] {
    }
  }

  /** A week contributes one record per attended column, in column order:
      no `null` day is kept, and each day is paired with its own column's
      hours. */
  lemma {:induction false} KeptByColumn<K, H, F, C>(kinmus: seq<Option<Kinmu<K>>>, records: seq<Hours<H, F, C>>, i: nat)
    requires i <= |kinmus|
    ensures PairedByColumn(Kept(kinmus, records, i), Attended(kinmus, i), kinmus, records)
    decreases |kinmus| - i
  {
    if i < |kinmus| {
      KeptByColumn(kinmus, records, i + 1);
      if kinmus[i].Some? {
        PairedCons(Kept(kinmus, records, i + 1), Attended(kinmus, i + 1), kinmus, records, i);
      }
    }
  }

  // ---------------------------------------------------------------- the month

  /** What the walk has gathered: the merged days in visit order and the
      project names (later weeks overwrite earlier ones). */
  datatype Gathered<K, H, F, C> = Gathered(records: seq<Kousu<K, H, F, C>>, projects: OMap<Option<string>>)

  /** One week merged in: its kept days appended, its project names
      assigned over the earlier ones. */
  function Gather<K, H, F, C>(acc: Gathered<K, H, F, C>, w: WeekData<K, H, F, C>): Gathered<K, H, F, C> {
    Gathered(acc.records + Kept(w.kinmus, w.hours.records, 0), Assign(acc.projects, w.hours.projects))
  }

  /** The loop over the calendar cells from `i` on. */
  function Walk<K, H, F, C>(
    cal: seq<string>,
    render: nat -> Page,
    read: Page -> Result<WeekData<K, H, F, C>, GetError>,
    i: nat,
    acc: Gathered<K, H, F, C>
  ): (r: Result<Gathered<K, H, F, C>, GetError>)
    requires i <= |cal|
    decreases |cal| - i
  {
    if i == |cal| then Success(acc)
    else if !Selected(cal, i) then Walk(cal, render, read, i + 1, acc)
    else
      var w :- read(render(i));
      Walk(cal, render, read, i + 1, Gather(acc, w))
  }

  /** The weeks merged one after another. */
  function MergeAll<K, H, F, C>(acc: Gathered<K, H, F, C>, ws: seq<WeekData<K, H, F, C>>): Gathered<K, H, F, C>
    decreases |ws|
  {
    if ws == [] then acc else MergeAll(Gather(acc, ws[0]), ws[1..])
  }

  function Visitor<K, H, F, C>(render: nat -> Page, read: Page -> Result<WeekData<K, H, F, C>, GetError>): nat -> Result<WeekData<K, H, F, C>, GetError> {
    (c: nat) => read(render(c))
  }

  /** Walking from `i` is reading the weeks selected from `i` on, stopping
      at the first that fails, and merging them all. */
  ghost predicate SplitHolds<K, H, F, C>(
    cal: seq<string>,
    render: nat -> Page,
    read: Page -> Result<WeekData<K, H, F, C>, GetError>,
    i: nat,
    acc: Gathered<K, H, F, C>)
    requires i <= |cal|
  {
    var ws := MapResult(Selection(cal, i), Visitor(render, read));
    Walk(cal, render, read, i, acc) == if ws.Success? then Success(MergeAll(acc, ws.value)) else Failure(ws.error)
  }

  /** The walk reads the selected weeks in calendar order, stopping at the
      first that fails, and merges them all. */
  lemma {:induction false} WalkSplit<K, H, F, C>(
    cal: seq<string>,
    render: nat -> Page,
    read: Page -> Result<WeekData<K, H, F, C>, GetError>,
    i: nat,
    acc: Gathered<K, H, F, C>)
    requires i <= |cal|
    ensures SplitHolds(cal, render, read, i, acc)
    decreases |cal| - i, 1
  {
    if i < |cal| {
      if !Selected(cal, i) {
        WalkSkip(cal, render, read, i, acc);
      } else {
        WalkVisit(cal, render, read, i, acc);
      }
    } else {
      WalkEnd(cal, render, read, acc);
    }
  }

  lemma WalkEnd<K, H, F, C>(
    cal: seq<string>,
    render: nat -> Page,
    read: Page -> Result<WeekData<K, H, F, C>, GetError>,
    acc: Gathered<K, H, F, C>)
    ensures SplitHolds(cal, render, read, |cal|, acc)
  {
    assert Selection(cal, |cal|) == [];
  }

  /** The step of `WalkSplit` at a cell that is not selected. */
  lemma {:induction false} WalkSkip<K, H, F, C>(
    cal: seq<string>,
    render: nat -> Page,
    read: Page -> Result<WeekData<K, H, F, C>, GetError>,
    i: nat,
    acc: Gathered<K, H, F, C>)
    requires i < |cal| && !Selected(cal, i)
    ensures SplitHolds(cal, render, read, i, acc)
    decreases |cal| - i, 0
  {
    WalkSplit(cal, render, read, i + 1, acc);
    assert Selection(cal, i) == Selection(cal, i + 1);
    assert Walk(cal, render, read, i, acc) == Walk(cal, render, read, i + 1, acc);
  }

  /** The step of `WalkSplit` at a selected cell. */
  lemma {:induction false} WalkVisit<K, H, F, C>(
    cal: seq<string>,
    render: nat -> Page,
    read: Page -> Result<WeekData<K, H, F, C>, GetError>,
    i: nat,
    acc: Gathered<K, H, F, C>)
    requires i < |cal| && Selected(cal, i)
    ensures SplitHolds(cal, render, read, i, acc)
    decreases |cal| - i, 0
  {
    var f := Visitor(render, read);
    var rest := Selection(cal, i + 1);
    assert Selection(cal, i) == [i] + rest;
    MapResultCons(i, rest, f);
    var w := read(render(i));
    assert f(i) == w;
    if w.Success? {
      var acc' := Gather(acc, w.value);
      assert Walk(cal, render, read, i, acc) == Walk(cal, render, read, i + 1, acc');
      WalkSplit(cal, render, read, i + 1, acc');
      var tail := MapResult(rest, f);
      if tail.Success? {
        var ws := [w.value] + tail.value;
        assert ws[1..] == tail.value;
        assert MergeAll(acc, ws) == MergeAll(acc', tail.value);
      }
    }
  }

  // ---------------------------------------------------------------- the calendar looked up again

  /** Reading the text of a calendar cell that is no longer there: the
      element is `undefined`, and `elemDate.evaluate` throws
      (`src/cli.ts`, `src/command-get.ts`). */
  const EvaluateUndefined := TypeError("Cannot read properties of undefined (reading 'evaluate')")

  /** The same in the older generation, where the element is handed to the
      page and `el.innerText` throws there (`src/commands/get.ts`,
      `src/commands/put.ts`). */
  const InnerTextUndefined := TypeError("Cannot read properties of undefined (reading 'innerText')")

  /** The loop over the calendar as written: its bound is the number of
      cells found before the loop, but the cells are looked up again before
      every step, since clicking a cell redraws the page. `reread(i)` is
      what that lookup finds before step `i`; when it finds no cell `i`,
      reading the cell's text throws `vanished`. */
  function CalendarWalk<K, H, F, C>(
    bound: nat,
    reread: nat -> seq<string>,
    vanished: Thrown,
    render: nat -> Page,
    read: Page -> Result<WeekData<K, H, F, C>, GetError>,
    i: nat,
    acc: Gathered<K, H, F, C>
  ): (r: Result<Gathered<K, H, F, C>, GetError>)
    requires i <= bound
    decreases bound - i
  {
    if i == bound then Success(acc)
    else
      var cal := reread(i);
      if i >= |cal| then Failure(CalendarFailed(vanished))
      else if !Selected(cal, i) then CalendarWalk(bound, reread, vanished, render, read, i + 1, acc)
      else
        var w :- read(render(i));
        CalendarWalk(bound, reread, vanished, render, read, i + 1, Gather(acc, w))
  }

  /** While every lookup finds the calendar found before the loop, the loop
      is the walk over that calendar. */
  lemma {:induction false} CalendarWalkSteady<K, H, F, C>(
    cal: seq<string>,
    reread: nat -> seq<string>,
    vanished: Thrown,
    render: nat -> Page,
    read: Page -> Result<WeekData<K, H, F, C>, GetError>,
    i: nat,
    acc: Gathered<K, H, F, C>)
    requires i <= |cal|
    requires forall j :: i <= j < |cal| ==> reread(j) == cal
    ensures CalendarWalk(|cal|, reread, vanished, render, read, i, acc) == Walk(cal, render, read, i, acc)
    decreases |cal| - i
  {
    if i < |cal| {
      if !Selected(cal, i) {
        CalendarWalkSteady(cal, reread, vanished, render, read, i + 1, acc);
      } else if read(render(i)).Success? {
        CalendarWalkSteady(cal, reread, vanished, render, read, i + 1, Gather(acc, read(render(i)).value));
      }
    }
  }

  /** When the calendar stays put until step `k` and the lookup there finds
      fewer than `k + 1` cells, the loop is the walk over the first `k`
      cells, and then it throws, unless a week failed before. */
  lemma {:induction false} CalendarWalkShrinks<K, H, F, C>(
    cal: seq<string>,
    reread: nat -> seq<string>,
    vanished: Thrown,
    render: nat -> Page,
    read: Page -> Result<WeekData<K, H, F, C>, GetError>,
    i: nat,
    k: nat,
    acc: Gathered<K, H, F, C>)
    requires i <= k < |cal|
    requires forall j :: i <= j < k ==> reread(j) == cal
    requires |reread(k)| <= k
    ensures var before := Walk(cal[..k], render, read, i, acc);
      CalendarWalk(|cal|, reread, vanished, render, read, i, acc) ==
        if before.Success? then Failure(CalendarFailed(vanished)) else before
    decreases k - i
  {
    if i < k {
      assert cal[..k][i] == cal[i];
      assert Selected(cal[..k], i) == Selected(cal, i);
      if !Selected(cal, i) {
        CalendarWalkShrinks(cal, reread, vanished, render, read, i + 1, k, acc);
      } else if read(render(i)).Success? {
        CalendarWalkShrinks(cal, reread, vanished, render, read, i + 1, k, Gather(acc, read(render(i)).value));
      }
    }
  }

  /** The kept days of each week, week by week. */
  function KeptWeeks<K, H, F, C>(ws: seq<WeekData<K, H, F, C>>): (r: seq<seq<Kousu<K, H, F, C>>>)
    ensures |r| == |ws| && forall j :: 0 <= j < |ws| ==> r[j] == Kept(ws[j].kinmus, ws[j].hours.records, 0)
  {
    if ws == [] then [] else [Kept(ws[0].kinmus, ws[0].hours.records, 0)] + KeptWeeks(ws[1..])
  }

  /** The merged days are those gathered before, then each week's kept days
      in visit order. */
  lemma {:induction false} MergeAllRecords<K, H, F, C>(acc: Gathered<K, H, F, C>, ws: seq<WeekData<K, H, F, C>>)
    ensures MergeAll(acc, ws).records == acc.records + Flatten(KeptWeeks(ws))
    decreases |ws|
  {
    if ws != [] {
      var acc' := Gather(acc, ws[0]);
      MergeAllRecords(acc', ws[1..]);
      var parts := KeptWeeks(ws);
      assert parts == [parts[0]] + KeptWeeks(ws[1..]);
      assert ([parts[0]] + KeptWeeks(ws[1..]))[1..] == KeptWeeks(ws[1..]);
      assert Flatten(parts) == parts[0] + Flatten(KeptWeeks(ws[1..]));
      assert acc'.records == acc.records + parts[0];
    }
  }

  /** The last of the weeks `ws` whose project map holds `k`. */
  function LastNaming<K, H, F, C>(ws: seq<WeekData<K, H, F, C>>, k: string): (r: Option<nat>)
    ensures r.Some? ==> r.value < |ws| && k in Keys(ws[r.value].hours.projects)
    ensures r.Some? ==> forall j :: r.value < j < |ws| ==> k !in Keys(ws[j].hours.projects)
    ensures r.None? ==> forall j :: 0 <= j < |ws| ==> k !in Keys(ws[j].hours.projects)
  {
    if ws == [] then None
    else if k in Keys(ws[|ws| - 1].hours.projects) then Some(|ws| - 1)
    else LastNaming(ws[..|ws| - 1], k)
  }

  /** Project names are last-writer-wins across weeks: a project's name is
      the one the last week listing it gave, or the earlier name if no week
      lists it. */
  lemma {:induction false} MergeAllProjects<K, H, F, C>(acc: Gathered<K, H, F, C>, ws: seq<WeekData<K, H, F, C>>, k: string)
    requires forall j :: 0 <= j < |ws| ==> UniqueKeys(ws[j].hours.projects)
    ensures Find(MergeAll(acc, ws).projects, k) ==
      match LastNaming(ws, k)
      case Some(j) => Find(ws[j].hours.projects, k)
      case None => Find(acc.projects, k)
    decreases |ws|
  {
    if ws != [] {
      var acc' := Gather(acc, ws[0]);
      assert forall j :: 0 <= j < |ws| - 1 ==> ws[1..][j] == ws[j + 1];
      MergeAllProjects(acc', ws[1..], k);
      AssignFind(acc.projects, ws[0].hours.projects, k);
      LastNamingShift(ws, k);
      var t := LastNaming(ws[1..], k);
      if t.Some? {
        assert ws[1..][t.value] == ws[t.value + 1];
      }
    }
  }

  /** Looking in the tail, shifted by one. */
  lemma {:induction false} LastNamingShift<K, H, F, C>(ws: seq<WeekData<K, H, F, C>>, k: string)
    requires ws != []
    ensures LastNaming(ws[1..], k).Some? ==> LastNaming(ws, k) == Some(LastNaming(ws[1..], k).value + 1)
    ensures LastNaming(ws[1..], k).None? ==> LastNaming(ws, k) == if k in Keys(ws[0].hours.projects) then Some(0) else None
  {
    var r := LastNaming(ws, k);
    var t := LastNaming(ws[1..], k);
    if t.Some? {
      assert ws[1..][t.value] == ws[t.value + 1];
      assert k in Keys(ws[t.value + 1].hours.projects);
      assert r.Some? && r.value >= t.value + 1;
      assert r.value <= t.value + 1;
    } else {
      forall j | 1 <= j < |ws| ensures k !in Keys(ws[j].hours.projects) {
        assert ws[1..][j - 1] == ws[j];
      }
    }
  }

  // ---------------------------------------------------------------- the two generations

  /** The page after a click, read by the numeric generation. */
  function ReadWeekNumeric(p: Page): Result<WeekData<Decimal, Decimal, Option<Decimal>, Decimal>, GetError> {
    ReadWeek(p, ParseWeekKinmu, ParseWeekJisseki)
  }

  /** The page after a click, read by the string generation. */
  function ReadWeek010(p: Page): Result<WeekData<string, string, string, string>, GetError> {
    ReadWeek(p, ParseWeekKinmu010, ParseWeekJisseki010)
  }

  function Start<K, H, F, C>(): Gathered<K, H, F, C> {
    Gathered([], [])
  }

  /** `get` (`src/cli.ts`): the numeric generation over the calendar `cal`
      found before the loop, looked up again at every step. */
  function GetNumeric(cal: seq<string>, reread: nat -> seq<string>, render: nat -> Page): Result<Gathered<Decimal, Decimal, Option<Decimal>, Decimal>, GetError> {
    CalendarWalk(|cal|, reread, EvaluateUndefined, render, ReadWeekNumeric, 0, Start())
  }

  /** `get` (`src/commands/get.ts`): the string generation. */
  function Get010(cal: seq<string>, reread: nat -> seq<string>, render: nat -> Page): Result<Gathered<string, string, string, string>, GetError> {
    CalendarWalk(|cal|, reread, InnerTextUndefined, render, ReadWeek010, 0, Start())
  }

  /** Every week a parser accepts has seven days and seven hour records, so
      every merged day carries its hours. */
  lemma WeekSeven<K, H, F, C>(w: WeekData<K, H, F, C>, c: nat)
    requires |w.kinmus| == 7 && |w.hours.records| == 7 && c < 7
    ensures w.kinmus[c].Some? ==> Kousu(w.kinmus[c].value, Some(w.hours.records[c])) in Kept(w.kinmus, w.hours.records, 0)
  {
    KeptByColumn(w.kinmus, w.hours.records, 0);
    if w.kinmus[c].Some? {
      var cs := Attended(w.kinmus, 0);
      var j :| 0 <= j < |cs| && cs[j] == c;
      assert Kept(w.kinmus, w.hours.records, 0)[j] == Kousu(w.kinmus[c].value, Some(w.hours.records[c]));
    }
  }

  /** A week the numeric generation reads has seven of each. */
  lemma ReadWeekNumericSeven(p: Page)
    requires ReadWeekNumeric(p).Success?
    ensures |ReadWeekNumeric(p).value.kinmus| == 7 && |ReadWeekNumeric(p).value.hours.records| == 7
    ensures UniqueKeys(ReadWeekNumeric(p).value.hours.projects)
  {
    var ht := p.jissekiDivs[0];
    ParseHoursProjects(ht, SagyouNumber, FumeiNumber, HoursNumber, 0, "");
  }

  // ---------------------------------------------------------------- the document

  /** How each generation writes its figures as JSON. */
  datatype Encoding<!K, !H, !F, !C> = Encoding(kyukei: K -> Json, sagyou: H -> Json, fumei: F -> Json, hours: C -> Json)

  /** A map with its values converted, keys and order kept. */
  function MapValues<V>(m: OMap<Option<V>>, f: V -> Json): (r: OMap<Option<Json>>)
    ensures Keys(r) == Keys(m)
    ensures forall j :: 0 <= j < |m| ==> r[j].1 == if m[j].1.Some? then Some(f(m[j].1.value)) else None
  {
    seq(|m|, j requires 0 <= j < |m| => (m[j].0, if m[j].1.Some? then Some(f(m[j].1.value)) else None))
  }

  function Encoded<V>(v: Option<V>, f: V -> Json): Option<Json> {
    if v.Some? then Some(f(v.value)) else None
  }

  /** A merged day as an object: the attendance fields, then the hours
      fields; `undefined` members are left in and dropped when written. */
  function KousuFields<K, H, F, C>(k: Kousu<K, H, F, C>, enc: Encoding<K, H, F, C>): (r: OMap<Option<Json>>)
    ensures |r| == if k.hours.Some? then 9 else 6
    ensures Keys(r)[..6] == ["date", "begin", "end", "yokujitsu", "kyukei", "yasumi"]
    ensures k.hours.Some? ==> Keys(r)[6..] == ["sagyou", "fumei", "jisseki"]
  {
    var d := k.kinmu;
    var base := [("date", Some(JStr(d.date))), ("begin", Some(JStr(d.begin))), ("end", Some(JStr(d.end))),
                 ("yokujitsu", Some(JBool(d.yokujitsu))), ("kyukei", Some(enc.kyukei(d.kyukei))), ("yasumi", Some(JStr(d.yasumi)))];
    match k.hours
    case None => base
    case Some(h) =>
      base + [("sagyou", Encoded(h.sagyou, enc.sagyou)), ("fumei", Encoded(h.fumei, enc.fumei)),
              ("jisseki", Some(JObj(Defined(MapValues(h.jisseki, enc.hours)))))]
  }

  /** `JSON.stringify` of a merged day, as the value it denotes. */
  function KousuJson<K, H, F, C>(k: Kousu<K, H, F, C>, enc: Encoding<K, H, F, C>): Json {
    JObj(Defined(KousuFields(k, enc)))
  }

  /** The file `get` writes: the version, the project names and the merged
      days, as the JSON value the text denotes. */
  function Document<K, H, F, C>(version: string, g: Gathered<K, H, F, C>, enc: Encoding<K, H, F, C>): (doc: Json)
    ensures doc.JObj? && Keys(doc.fields) == ["version", "projects", "jissekis"]
    ensures doc.fields[2].1 == JArr(seq(|g.records|, j requires 0 <= j < |g.records| => KousuJson(g.records[j], enc)))
  {
    var projects := JObj(Defined(MapValues(g.projects, s => JStr(s))));
    var days := seq(|g.records|, j requires 0 <= j < |g.records| => KousuJson(g.records[j], enc));
    JObj([("version", JStr(version)), ("projects", projects), ("jissekis", JArr(days))])
  }

  function NumberJson(d: Decimal): Json {
    JNum(d)
  }

  function NullableJson(f: Option<Decimal>): Json {
    if f.Some? then JNum(f.value) else JNull
  }

  function TextJson(s: string): Json {
    JStr(s)
  }

  /** The numeric generation writes numbers, `null` for a blank
      unaccounted-time total. */
  const NumericEncoding: Encoding<Decimal, Decimal, Option<Decimal>, Decimal> :=
    Encoding(NumberJson, NumberJson, NullableJson, NumberJson)

  /** The string generation writes texts. */
  const TextEncoding: Encoding<string, string, string, string> :=
    Encoding(TextJson, TextJson, TextJson, TextJson)

  /** The document of `src/cli.ts`. */
  function DocumentNumeric(g: Gathered<Decimal, Decimal, Option<Decimal>, Decimal>): Json {
    Document("0.3.0", g, NumericEncoding)
  }

  /** The document of `src/commands/get.ts`. */
  function Document010(g: Gathered<string, string, string, string>): Json {
    Document("0.1.0", g, TextEncoding)
  }
}
