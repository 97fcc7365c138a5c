/** The older `put` command (`src/commands/put.ts`): it accepts only the
    "0.1.0" format, and in every visited week it types each figure the file
    has into its cell, whatever the cell shows, and then saves the week.
    The week shown is the same oracle as for the current `put`.
 */
module PutLegacy {
  import opened Wrappers
  import opened Sequences
  import opened OrderedMap
  import opened Decimals
  import opened NumberText
  import opened JsValues
  import opened Lookup
  import opened GetMonth
  import opened PutMonth

  datatype Flags = Flags(inCsv: Option<string>)

  const CsvRemoved := "--in-csv (KOUSU_IN_CSV) は 0.2.0 で削除され、--in-json のみサポートになりました"

  /** The file's records: the version must be exactly "0.1.0" (reading it off
      a top-level `null` throws), then `jissekis.reduce` must exist, which
      only an array has. */
  function LegacyItems(doc: Json): (r: Result<seq<Json>, Thrown>)
    ensures r.Success? <==> (!doc.JNull? && Member(doc, "version") == Some(JStr("0.1.0"))
      && Member(doc, "jissekis").Some? && Member(doc, "jissekis").value.JArr?)
    ensures r.Success? ==> r.value == Member(doc, "jissekis").value.items
    ensures !doc.JNull? && Member(doc, "version") != Some(JStr("0.1.0")) ==>
      r == Failure(AppError("invalid JSON: \"version\": expected \"0.1.0\", actual \"" + PropertyKey(Member(doc, "version")) + "\""))
  {
    if doc.JNull? then Failure(Get(Some(JNull), "version").error)
    else
      var version := Member(doc, "version");
      if version != Some(JStr("0.1.0")) then
        Failure(AppError("invalid JSON: \"version\": expected \"0.1.0\", actual \"" + PropertyKey(version) + "\""))
      else
        var jissekis := Member(doc, "jissekis");
        var reduce :- Get(jissekis, "reduce");
        if jissekis.value.JArr? then Success(jissekis.value.items)
        else Failure(TypeError("kousu.jissekis.reduce is not a function"))
  }

  /** A numeric version is reported as Number::toString writes it: 10^21
      appears as "1e+21". */
  lemma LegacyVersionExponent(doc: Json)
    requires !doc.JNull? && Member(doc, "version") == Some(JNum(Decimal(Limit, 0)))
    ensures LegacyItems(doc) == Failure(AppError("invalid JSON: \"version\": expected \"0.1.0\", actual \"1e+21\""))
  {
    NumberToStringLimit();
    var version := Member(doc, "version");
    assert PropertyKey(version) == "1e+21";
    assert version != Some(JStr("0.1.0"));
    assert "invalid JSON: \"version\": expected \"0.1.0\", actual \"" + "1e+21" + "\""
      == "invalid JSON: \"version\": expected \"0.1.0\", actual \"1e+21\"";
  }

  /** Before anything else, a `--in-csv` flag is refused; then the file is
      read and indexed by date as the current `put` does. */
  function LegacyIndex(flags: Flags, doc: Json): (r: Result<OMap<Json>, Thrown>)
    ensures flags.inCsv.Some? ==> r == Failure(AppError(CsvRemoved))
    ensures flags.inCsv.None? && LegacyItems(doc).Success? ==> r == DateIndex(LegacyItems(doc).value)
  {
    if flags.inCsv.Some? then Failure(AppError(CsvRemoved))
    else
      var items :- LegacyItems(doc);
      DateIndex(items)
  }

  /** `jisseki.jisseki[project]` for a job whose date is in the index; a
      missing figure is skipped. */
  function Figure(w: LiveWeek, index: OMap<Json>, job: (nat, nat)): (r: Result<Option<Json>, Thrown>)
    requires JobOf(w, job)
  {
    match Find(index, w.headRow[job.0 + 1])
    case None => Success(None)
    case Some(entry) =>
      var jisseki :- Get(Some(entry), "jisseki");
      Get(jisseki, w.projects[job.1])
  }

  /** One (date, project) step: a figure that exists makes the cell be
      looked up, and the figure, which must be a string, is typed into it. */
  function LegacyDecide(w: LiveWeek, index: OMap<Json>, job: (nat, nat)): (r: Result<Option<Action>, Thrown>)
    requires JobOf(w, job)
    ensures r.Success? <==> (Figure(w, index, job).Success?
      && (Figure(w, index, job).value.Some? ==> CellOf(job) in w.cells && Figure(w, index, job).value.value.JStr?))
    ensures r.Success? && r.value.Some? <==> r.Success? && Figure(w, index, job).value.Some?
    ensures r.Success? && r.value.Some? ==>
      r.value.value == Edit(CellOf(job).0, CellOf(job).1, Figure(w, index, job).value.value.s)
  {
    var figure :- Figure(w, index, job);
    if figure.None? then Success(None)
    else
      var key := CellOf(job);
      var cell :- X1(CellHandles(w, key), CellPath(key), FormMessage);
      if figure.value.JStr? then Success(Some(Edit(key.0, key.1, figure.value.s)))
      else Failure(TypeError("text is not iterable"))
  }

  /** The jobs in order, collecting edits, until one throws. */
  function LegacyReconcile(w: LiveWeek, index: OMap<Json>, jobs: seq<(nat, nat)>): (o: Outcome)
    requires forall j :: 0 <= j < |jobs| ==> JobOf(w, jobs[j])
    ensures forall a :: a in o.trace ==> a.Edit?
  {
    if jobs == [] then Outcome([], None)
    else
      match LegacyDecide(w, index, jobs[0])
      case Failure(e) => Outcome([], Some(e))
      case Success(a) =>
        var rest := LegacyReconcile(w, index, jobs[1..]);
        Outcome(Emitted(a) + rest.trace, rest.error)
  }

  /** A week: the first row must have eight cells; the jobs run; the week
      is saved unconditionally. */
  function LegacyWeek(w: LiveWeek, index: OMap<Json>): (o: Outcome)
    ensures |w.headRow| != 8 ==> o == Outcome([], Some(XN(w.headRow, DatesPath, 8, "勤務時間表の形式が不正です").error))
  {
    var head := XN(w.headRow, DatesPath, 8, "勤務時間表の形式が不正です");
    if head.Failure? then Outcome([], Some(head.error))
    else
      var o := LegacyReconcile(w, index, Jobs(0, |w.projects|));
      if o.error.Some? then o else Outcome(o.trace + [Save], None)
  }

  /** The loop over the calendar, the same walk as the current `put`'s. */
  function LegacyWalk(cal: seq<string>, reread: nat -> seq<string>, render: nat -> LiveWeek, index: OMap<Json>): Outcome {
    CalendarWeekWalk(|cal|, reread, InnerTextUndefined, (c: nat) => LegacyWeek(render(c), index), 0)
  }

  /** The older `put`. */
  function LegacyPut(flags: Flags, doc: Json, cal: seq<string>, reread: nat -> seq<string>, render: nat -> LiveWeek): (o: Outcome)
    ensures flags.inCsv.Some? ==> o == Outcome([], Some(AppError(CsvRemoved)))
  {
    match LegacyIndex(flags, doc)
    case Failure(e) => Outcome([], Some(e))
    case Success(index) => LegacyWalk(cal, reread, render, index)
  }

  // ---------------------------------------------------------------- properties

  /** A week that runs to the end is always saved, exactly once and last,
      even when it had nothing to type. */
  lemma LegacyWeekSaves(w: LiveWeek, index: OMap<Json>)
    requires LegacyWeek(w, index).error.None?
    ensures var t := LegacyWeek(w, index).trace;
      t != [] && t[|t| - 1] == Save && Save !in t[..|t| - 1]
      && forall m :: 0 <= m < |t| - 1 ==> t[m].Edit?
  {
    var o := LegacyReconcile(w, index, Jobs(0, |w.projects|));
    var t := LegacyWeek(w, index).trace;
    assert t == o.trace + [Save];
    assert t[..|t| - 1] == o.trace;
    forall m | 0 <= m < |t| - 1 ensures t[m].Edit? {
      assert t[m] == o.trace[m] && o.trace[m] in o.trace;
    }
  }

  /** Every job with a figure is typed, whatever its cell already shows. */
  lemma {:induction false} LegacyTypesEvery(w: LiveWeek, index: OMap<Json>, jobs: seq<(nat, nat)>, k: nat)
    requires forall j :: 0 <= j < |jobs| ==> JobOf(w, jobs[j])
    requires LegacyReconcile(w, index, jobs).error.None?
    requires k < |jobs| && Figure(w, index, jobs[k]).Success? && Figure(w, index, jobs[k]).value.Some?
    ensures Figure(w, index, jobs[k]).value.value.JStr?
    ensures Edit(CellOf(jobs[k]).0, CellOf(jobs[k]).1, Figure(w, index, jobs[k]).value.value.s) in LegacyReconcile(w, index, jobs).trace
    decreases |jobs|
  {
    var a := LegacyDecide(w, index, jobs[0]).value;
    var rest := LegacyReconcile(w, index, jobs[1..]);
    assert LegacyReconcile(w, index, jobs).trace == Emitted(a) + rest.trace;
    if k > 0 {
      assert jobs[1..][k - 1] == jobs[k];
      LegacyTypesEvery(w, index, jobs[1..], k - 1);
    }
  }

  /** And nothing else is typed: every edit is some job's figure. */
  lemma {:induction false} LegacyTypesOnly(w: LiveWeek, index: OMap<Json>, jobs: seq<(nat, nat)>)
    requires forall j :: 0 <= j < |jobs| ==> JobOf(w, jobs[j])
    ensures forall a :: a in LegacyReconcile(w, index, jobs).trace ==>
      exists j :: 0 <= j < |jobs| && LegacyDecide(w, index, jobs[j]) == Success(Some(a))
    decreases |jobs|
  {
    if jobs != [] && LegacyDecide(w, index, jobs[0]).Success? {
      LegacyTypesOnly(w, index, jobs[1..]);
      forall a | a in LegacyReconcile(w, index, jobs[1..]).trace
        ensures exists j :: 0 <= j < |jobs| && LegacyDecide(w, index, jobs[j]) == Success(Some(a))
      {
        var j :| 0 <= j < |jobs| - 1 && LegacyDecide(w, index, jobs[1..][j]) == Success(Some(a));
        assert jobs[1..][j] == jobs[j + 1];
      }
    }
  }

  /** A string figure is the current `put`'s target in the older format, so
      a cell the current `put` leaves alone already shows it. */
  lemma QuietCellShows(w: LiveWeek, index: OMap<Json>, job: (nat, nat))
    requires JobOf(w, job) && Figure(w, index, job).Success?
    requires Figure(w, index, job).value.Some? && Figure(w, index, job).value.value.JStr?
    requires Decide(w, index, true, job) == Success(None)
    ensures JobTarget(w, index, true, job) == Success(Some(Figure(w, index, job).value.value.s))
    ensures CellOf(job) in w.cells && w.cells[CellOf(job)] == Figure(w, index, job).value.value.s
  {
  }

  /** In a week that runs to the end, every figure is typed and the week is
      saved. */
  lemma LegacyWeekTypes(w: LiveWeek, index: OMap<Json>, k: nat)
    requires LegacyWeek(w, index).error.None?
    requires k < |Jobs(0, |w.projects|)|
    requires JobOf(w, Jobs(0, |w.projects|)[k])
    requires Figure(w, index, Jobs(0, |w.projects|)[k]).Success? && Figure(w, index, Jobs(0, |w.projects|)[k]).value.Some?
    ensures var job := Jobs(0, |w.projects|)[k];
      Figure(w, index, job).value.value.JStr?
      && Edit(CellOf(job).0, CellOf(job).1, Figure(w, index, job).value.value.s) in LegacyWeek(w, index).trace
      && Save in LegacyWeek(w, index).trace
  {
    var jobs := Jobs(0, |w.projects|);
    var o := LegacyReconcile(w, index, jobs);
    assert |w.headRow| == 8 && o.error.None?;
    LegacyTypesEvery(w, index, jobs, k);
    assert LegacyWeek(w, index).trace == o.trace + [Save];
  }

  /** A week whose every job decides to leave its cell alone is left alone. */
  lemma PutWeekQuiet(w: LiveWeek, index: OMap<Json>, compat: bool)
    requires |w.headRow| == 8
    requires forall j :: 0 <= j < |Jobs(0, |w.projects|)| ==>
      JobOf(w, Jobs(0, |w.projects|)[j]) && Decide(w, index, compat, Jobs(0, |w.projects|)[j]) == Success(None)
    ensures PutWeek(w, index, compat) == Outcome([], None)
  {
    ReconcileQuiet(w, index, compat, Jobs(0, |w.projects|));
  }

  /** The contrast with the current `put`: on a week whose every cell already
      shows its figure, the current `put` does nothing, while the older one
      types each figure again and saves. */
  lemma LegacyRetypesSettled(w: LiveWeek, index: OMap<Json>, k: nat)
    requires LegacyWeek(w, index).error.None?
    requires k < |Jobs(0, |w.projects|)|
    requires var job := Jobs(0, |w.projects|)[k];
      JobOf(w, job) && Figure(w, index, job).Success? && Figure(w, index, job).value.Some?
    requires forall j :: 0 <= j < |Jobs(0, |w.projects|)| ==>
      JobOf(w, Jobs(0, |w.projects|)[j]) && Decide(w, index, true, Jobs(0, |w.projects|)[j]) == Success(None)
    ensures PutWeek(w, index, true) == Outcome([], None)
    ensures var job := Jobs(0, |w.projects|)[k];
      CellOf(job) in w.cells
      && Edit(CellOf(job).0, CellOf(job).1, w.cells[CellOf(job)]) in LegacyWeek(w, index).trace
      && Save in LegacyWeek(w, index).trace
  {
    var job := Jobs(0, |w.projects|)[k];
    assert |w.headRow| == 8;
    PutWeekQuiet(w, index, true);
    LegacyWeekTypes(w, index, k);
    QuietCellShows(w, index, job);
  }
}
