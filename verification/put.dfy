/** The `put` command (`src/cli.ts`): the JSON file is checked and indexed
    by date, then every week of the month is visited and each hours cell
    whose text differs from the file's figure is edited; a week is saved
    only if something in it was edited.

    The browser is an oracle: `render(i)` is the week shown after clicking
    calendar cell `i`. What the program does to it is an action trace:
    visits, cell edits (click, type, commit) and saves.
 */
module PutMonth {
  import opened Wrappers
  import opened Decimals
  import opened Sequences
  import opened OrderedMap
  import opened JsValues
  import opened Lookup
  import opened GetMonth

  // ---------------------------------------------------------------- the file

  /** `doc[key]` for a value that is not `null`: a member of an object, and
      `undefined` for anything else (these keys are neither indices nor
      `length`). */
  function Member(doc: Json, key: string): Option<Json> {
    if doc.JObj? then Find(doc.fields, key) else None
  }

  function Invalid(msg: string): Thrown {
    AppError("invalid JSON: " + msg)
  }

  /** The six checks on the file's top level, in the order they are made. */
  predicate TopRule(doc: Json, k: nat)
    requires k < 6
  {
    if k == 0 then Member(doc, "version").Some?
    else if k == 1 then Member(doc, "version") == Some(JStr("0.1.0")) || Member(doc, "version") == Some(JStr("0.3.0"))
    else if k == 2 then Member(doc, "projects").Some?
    else if k == 3 then IsObject(Member(doc, "projects"))
    else if k == 4 then Member(doc, "jissekis").Some?
    else IsArray(Member(doc, "jissekis"))
  }

  /** The message of each check. The last one names "projects" although it
      is about "jissekis", as the source has it. */
  const TopMessages: seq<string> := [
    "\"version\" not defined, must be \"0.3.0\"",
    "\"version\" must be \"0.3.0\"",
    "\"projects\" not defined, must be object ({\"project\": \"projectName\"})",
    "\"projects\" must be object ({\"project\": \"projectName\"})",
    "\"jissekis\" not defined, must be array",
    "\"projects\" must be array"
  ]

  /** A file that passed: whether it is of the older "0.1.0" format, and its
      records. */
  datatype Validated = Validated(compat: bool, items: seq<Json>)

  /** The checks, failing on the first violation. Reading `version` off a
      top-level `null` throws; once that read succeeds the value is not
      `null`, so the later reads are plain member lookups (`GetMember`). */
  function ValidateTop(doc: Json): (r: Result<Validated, Thrown>)
    ensures doc.JNull? ==> r == Failure(Get(Some(JNull), "version").error)
  {
    if doc.JNull? then Failure(Get(Some(JNull), "version").error)
    else
      var version := Member(doc, "version");
      :- Need(version.Some?, Invalid(TopMessages[0]));
      :- Need(version == Some(JStr("0.1.0")) || version == Some(JStr("0.3.0")), Invalid(TopMessages[1]));
      var compat := version == Some(JStr("0.1.0"));
      var projects := Member(doc, "projects");
      :- Need(projects.Some?, Invalid(TopMessages[2]));
      :- Need(IsObject(projects), Invalid(TopMessages[3]));
      var jissekis := Member(doc, "jissekis");
      :- Need(jissekis.Some?, Invalid(TopMessages[4]));
      :- Need(IsArray(jissekis), Invalid(TopMessages[5]));
      Success(Validated(compat, jissekis.value.items))
  }

  /** Reading one of the three top-level keys off a value that is not `null`
      is `Member`: none of them is `length` or an array index. */
  lemma GetMember(doc: Json, key: string)
    requires !doc.JNull? && key in {"version", "projects", "jissekis"}
    ensures Get(Some(doc), key) == Success(Member(doc, key))
  {
    assert !IsDigit(key[0]);
    assert ArrayIndex(key).None?;
  }

  /** A file is accepted exactly when it passes all six checks; otherwise
      the error is that of the first check it fails. An accepted file is in
      the older format exactly when its version is "0.1.0". */
  lemma ValidateTopOrder(doc: Json)
    requires !doc.JNull?
    ensures ValidateTop(doc).Success? <==> forall k :: 0 <= k < 6 ==> TopRule(doc, k)
    ensures forall k :: 0 <= k < 6 && !TopRule(doc, k) && (forall k' :: 0 <= k' < k ==> TopRule(doc, k')) ==>
      ValidateTop(doc) == Failure(Invalid(TopMessages[k]))
    ensures ValidateTop(doc).Success? ==>
      ValidateTop(doc).value.compat == (Member(doc, "version") == Some(JStr("0.1.0")))
      && ValidateTop(doc).value.items == Member(doc, "jissekis").value.items
  {
    var r := ValidateTop(doc);
    if !TopRule(doc, 0) {
      assert r == Failure(Invalid(TopMessages[0]));
    } else if !TopRule(doc, 1) {
      assert r == Failure(Invalid(TopMessages[1]));
    } else if !TopRule(doc, 2) {
      assert r == Failure(Invalid(TopMessages[2]));
    } else if !TopRule(doc, 3) {
      assert r == Failure(Invalid(TopMessages[3]));
    } else if !TopRule(doc, 4) {
      assert r == Failure(Invalid(TopMessages[4]));
    } else if !TopRule(doc, 5) {
      assert r == Failure(Invalid(TopMessages[5]));
    } else {
      assert r.Success?;
    }
  }

  /** The file `get` writes passes the checks, as a current-format file
      holding the days `get` gathered. */
  lemma GetOutputAccepted(g: Gathered<Decimal, Decimal, Option<Decimal>, Decimal>)
    ensures ValidateTop(DocumentNumeric(g)).Success?
    ensures ValidateTop(DocumentNumeric(g)).value == Validated(false, DocumentNumeric(g).fields[2].1.items)
  {
    var doc := DocumentNumeric(g);
    var ks := Keys(doc.fields);
    assert ks[0] == "version" && ks[1] == "projects" && ks[2] == "jissekis";
    assert UniqueKeys(doc.fields);
    FindAt(doc.fields, 0);
    FindAt(doc.fields, 1);
    FindAt(doc.fields, 2);
    ValidateTopOrder(doc);
  }

  // ---------------------------------------------------------------- the date index

  /** `acc[jisseki.date]`: the key a record is filed under. Reading `date`
      off a `null` record throws. */
  function DateKey(item: Json): (r: Result<string, Thrown>)
    ensures r.Failure? <==> item.JNull?
  {
    var d :- Get(Some(item), "date");
    Success(PropertyKey(d))
  }

  /** `jissekis.reduce((acc, j) => { acc[j.date] = j; return acc; }, {})`. */
  function DateIndex(items: seq<Json>): (r: Result<OMap<Json>, Thrown>)
    ensures r.Success? <==> forall j :: 0 <= j < |items| ==> !items[j].JNull?
  {
    var keys :- MapResult(items, DateKey);
    Success(FromAssignments(keys, items))
  }

  /** A date is found in the index exactly when some record is filed under
      it, and then it finds the last such record. */
  lemma DateIndexLastWins(items: seq<Json>, date: string)
    requires DateIndex(items).Success?
    ensures var index := DateIndex(items).value;
      && (Find(index, date).None? <==> forall j :: 0 <= j < |items| ==> DateKey(items[j]).value != date)
      && (Find(index, date).Some? ==>
            exists j :: 0 <= j < |items| && DateKey(items[j]).value == date && Find(index, date) == Some(items[j])
              && forall j' :: j < j' < |items| ==> DateKey(items[j']).value != date)
  {
    var keys := MapResult(items, DateKey).value;
    FromAssignmentsFind(keys, items, date);
    if date in keys {
      var j := LastIndex(keys, date);
      assert DateKey(items[j]).value == date;
    } else {
      assert forall j :: 0 <= j < |items| ==> keys[j] == DateKey(items[j]).value;
    }
  }

  /** A record with a string date is filed under that date. */
  lemma DateKeyOfString(item: Json, date: string)
    requires item.JObj? && Member(item, "date") == Some(JStr(date))
    ensures DateKey(item) == Success(date)
  {
  }

  // ---------------------------------------------------------------- the target text

  /** `jisseki.jisseki[project]`, then the text to type: none when the
      project has no figure, a string only in the "0.1.0" format, a number
      with one fractional digit; anything else throws. */
  function Target(entry: Json, project: string, compat: bool): (r: Result<Option<string>, Thrown>) {
    var jisseki :- Get(Some(entry), "jisseki");
    var figure :- Get(jisseki, project);
    match figure
    case None => Success(None)
    case Some(JStr(s)) => if compat then Success(Some(s)) else Failure(AppError("BUG: jisseki.jisseki[project]: " + s))
    case Some(JNum(n)) => Success(Some(Fmt1(n)))
    case Some(JNull) => Failure(TypeError("Cannot read properties of null (reading 'toFixed')"))
    case Some(_) => Failure(TypeError("tmp.toFixed is not a function"))
  }

  /** The rule for a record whose `jisseki` is an object: no figure is
      skipped, a string is kept only in the older format, a number is
      written with one fractional digit, anything else throws. */
  lemma TargetRule(entry: Json, project: string, compat: bool)
    requires Member(entry, "jisseki").Some? && Member(entry, "jisseki").value.JObj?
    ensures var figure := Member(Member(entry, "jisseki").value, project);
      && (figure.None? ==> Target(entry, project, compat) == Success(None))
      && (figure.Some? && figure.value.JStr? ==>
            Target(entry, project, compat) == if compat then Success(Some(figure.value.s)) else Failure(AppError("BUG: jisseki.jisseki[project]: " + figure.value.s)))
      && (figure.Some? && figure.value.JNum? ==> Target(entry, project, compat) == Success(Some(Fmt1(figure.value.n))))
      && (figure.Some? && !figure.value.JStr? && !figure.value.JNum? ==> Target(entry, project, compat).Failure?)
  {
  }

  /** A number's target text reads back as the number rounded to tenths,
      and from 10^21 on as the number itself. */
  lemma TargetReadsBack(entry: Json, project: string, n: Decimal)
    requires Member(entry, "jisseki").Some? && Member(entry, "jisseki").value.JObj?
    requires Member(Member(entry, "jisseki").value, project) == Some(JNum(n))
    ensures Target(entry, project, false) == Success(Some(Fmt1(n)))
    ensures !IsBig(n) ==> ParseFloat(Fmt1(n)) == Some(Decimal(Signed(n.mantissa < 0, Tenths(n)), 1))
    ensures IsBig(n) ==> ParseFloat(Fmt1(n)).Some? && SameValue(ParseFloat(Fmt1(n)).value, n)
  {
    TargetRule(entry, project, false);
    Fmt1Parse(n);
  }

  // ---------------------------------------------------------------- a week

  /** The week shown: the texts of the attendance table's first-row cells
      (the row label, then the seven dates), the project id of each hours
      row, and the text of each hours cell by (row, column), numbered from 1
      as in the XPath. */
  datatype LiveWeek = LiveWeek(headRow: seq<string>, projects: seq<string>, cells: map<(nat, nat), string>)

  datatype Action = Visit(cell: nat) | Edit(row: nat, col: nat, text: string) | Save

  /** What was done, and the exception that stopped it, if any. */
  datatype Outcome = Outcome(trace: seq<Action>, error: Option<Thrown>)

  /** One job per (date column, project row), date by date. */
  function Jobs(d: nat, n: nat): (r: seq<(nat, nat)>)
    requires d <= 7
    ensures forall j :: 0 <= j < |r| ==> d <= r[j].0 < 7 && r[j].1 < n
    ensures forall a, b :: 0 <= a < b < |r| ==> r[a] != r[b]
    decreases 7 - d
  {
    if d == 7 then []
    else
      var here := seq(n, p requires 0 <= p < n => (d, p));
      assert forall p :: 0 <= p < n ==> here[p] == (d, p);
      here + Jobs(d + 1, n)
  }

  /** Every (date, project) pair has its job. */
  lemma {:induction false} JobsComplete(d: nat, n: nat, e: nat, p: nat)
    requires d <= e < 7 && p < n
    ensures (e, p) in Jobs(d, n)
    decreases 7 - d
  {
    var here := seq(n, p requires 0 <= p < n => (d, p));
    assert Jobs(d, n) == here + Jobs(d + 1, n);
    if e == d {
      assert Jobs(d, n)[p] == here[p] == (d, p);
    } else {
      JobsComplete(d + 1, n, e, p);
      assert (e, p) in Jobs(d + 1, n);
    }
  }

  /** The hours cell of project row `p` and date column `d`. */
  function CellOf(job: (nat, nat)): (nat, nat) {
    (job.1 + 1, job.0 + 7)
  }

  /** The elements `$x1` finds for a cell. */
  function CellHandles(w: LiveWeek, key: (nat, nat)): (hs: seq<string>)
    ensures |hs| == 1 <==> key in w.cells
  {
    if key in w.cells then [w.cells[key]] else []
  }

  function CellPath(key: (nat, nat)): string {
    "//tbody[@id=\"workResultView:items_data\"]/tr[" + NatToString(key.0) + "]/td[" + NatToString(key.1) + "]"
  }

  const FormMessage := "工数実績入力表の形式が不正です"

  /** Whether a week is well formed enough to be read: eight cells in the
      first row, and jobs within it. */
  predicate JobOf(w: LiveWeek, job: (nat, nat)) {
    |w.headRow| == 8 && job.0 < 7 && job.1 < |w.projects|
  }

  /** The target text of a job: nothing when the column's date is not in the
      index, otherwise the target rule. */
  function JobTarget(w: LiveWeek, index: OMap<Json>, compat: bool, job: (nat, nat)): Result<Option<string>, Thrown>
    requires JobOf(w, job)
  {
    match Find(index, w.headRow[job.0 + 1])
    case None => Success(None)
    case Some(entry) => Target(entry, w.projects[job.1], compat)
  }

  /** One (date, project) step: the cell is looked up only if there is a
      target text, and edited only if its text differs. */
  function Decide(w: LiveWeek, index: OMap<Json>, compat: bool, job: (nat, nat)): (r: Result<Option<Action>, Thrown>)
    requires JobOf(w, job)
    ensures r.Success? <==> (JobTarget(w, index, compat, job).Success?
      && (JobTarget(w, index, compat, job).value.Some? ==> CellOf(job) in w.cells))
    ensures r.Success? && r.value.Some? <==>
      r.Success? && JobTarget(w, index, compat, job).value.Some?
      && w.cells[CellOf(job)] != JobTarget(w, index, compat, job).value.value
    ensures r.Success? && r.value.Some? ==>
      r.value.value == Edit(CellOf(job).0, CellOf(job).1, JobTarget(w, index, compat, job).value.value)
  {
    var text :- JobTarget(w, index, compat, job);
    if text.None? then Success(None)
    else
      var key := CellOf(job);
      var cell :- X1(CellHandles(w, key), CellPath(key), FormMessage);
      if cell == text.value then Success(None) else Success(Some(Edit(key.0, key.1, text.value)))
  }

  /** The actions a decision contributes. */
  function Emitted(a: Option<Action>): (t: seq<Action>)
    ensures |t| <= 1 && (t == [] <==> a.None?)
  {
    if a.Some? then [a.value] else []
  }

  /** The jobs in order, collecting edits, until one throws. */
  function Reconcile(w: LiveWeek, index: OMap<Json>, compat: bool, jobs: seq<(nat, nat)>): (o: Outcome)
    requires forall j :: 0 <= j < |jobs| ==> JobOf(w, jobs[j])
    ensures forall a :: a in o.trace ==> a.Edit?
  {
    if jobs == [] then Outcome([], None)
    else
      match Decide(w, index, compat, jobs[0])
      case Failure(e) => Outcome([], Some(e))
      case Success(a) =>
        var rest := Reconcile(w, index, compat, jobs[1..]);
        Outcome(Emitted(a) + rest.trace, rest.error)
  }

  const DatesPath := "//table[@id=\"workResultView:j_idt69\"]//tr[1]/td"

  /** A week: the first row must have eight cells; the jobs run; the week is
      saved exactly when a cell was edited. */
  function PutWeek(w: LiveWeek, index: OMap<Json>, compat: bool): (o: Outcome)
    ensures |w.headRow| != 8 ==> o == Outcome([], Some(XN(w.headRow, DatesPath, 8, "勤務時間表の形式が不正です").error))
  {
    var head := XN(w.headRow, DatesPath, 8, "勤務時間表の形式が不正です");
    if head.Failure? then Outcome([], Some(head.error))
    else
      var o := Reconcile(w, index, compat, Jobs(0, |w.projects|));
      if o.error.Some? || o.trace == [] then o else Outcome(o.trace + [Save], None)
  }

  /** Every edit of a run of jobs is the decision of one of them. */
  lemma {:induction false} ReconcileEdits(w: LiveWeek, index: OMap<Json>, compat: bool, jobs: seq<(nat, nat)>, e: Action)
    requires forall j :: 0 <= j < |jobs| ==> JobOf(w, jobs[j])
    requires e in Reconcile(w, index, compat, jobs).trace
    ensures exists job :: job in jobs && JobOf(w, job) && Decide(w, index, compat, job) == Success(Some(e))
    decreases |jobs|
  {
    var a := Decide(w, index, compat, jobs[0]).value;
    var rest := Reconcile(w, index, compat, jobs[1..]);
    assert Reconcile(w, index, compat, jobs).trace == Emitted(a) + rest.trace;
    if e !in Emitted(a) {
      assert forall j :: 0 <= j < |jobs| - 1 ==> jobs[1..][j] == jobs[j + 1];
      ReconcileEdits(w, index, compat, jobs[1..], e);
      var job :| job in jobs[1..] && JobOf(w, job) && Decide(w, index, compat, job) == Success(Some(e));
      assert job in jobs;
    } else {
      assert JobOf(w, jobs[0]);
    }
  }

  /** The edits of a week are those of its jobs. */
  lemma PutWeekEdits(w: LiveWeek, index: OMap<Json>, compat: bool, a: Action)
    requires a in PutWeek(w, index, compat).trace && a.Edit?
    ensures |w.headRow| == 8 && a in Reconcile(w, index, compat, Jobs(0, |w.projects|)).trace
  {
    var o := Reconcile(w, index, compat, Jobs(0, |w.projects|));
    if o.trace != [] && o.error.None? {
      assert a in o.trace + [Save];
    }
  }

  /** What an edit decided for a job says about the job's cell. */
  lemma DecidedEdit(w: LiveWeek, index: OMap<Json>, compat: bool, job: (nat, nat), a: Action)
    requires JobOf(w, job) && Decide(w, index, compat, job) == Success(Some(a))
    ensures (a.row, a.col) == CellOf(job) && (a.row, a.col) in w.cells && w.cells[(a.row, a.col)] != a.text
    ensures Find(index, w.headRow[job.0 + 1]).Some? && JobTarget(w, index, compat, job) == Success(Some(a.text))
  {
  }

  /** Every edit of a week was decided by one of its jobs. */
  lemma PutWeekDecided(w: LiveWeek, index: OMap<Json>, compat: bool, a: Action)
    requires a in PutWeek(w, index, compat).trace && a.Edit?
    ensures exists job :: JobOf(w, job) && Decide(w, index, compat, job) == Success(Some(a))
  {
    PutWeekEdits(w, index, compat, a);
    ReconcileEdits(w, index, compat, Jobs(0, |w.projects|), a);
  }

  /** Diff-minimality: a week edits only cells whose text differs from
      their target, each at its project's row and its date's column. */
  lemma PutWeekMinimal(w: LiveWeek, index: OMap<Json>, compat: bool, a: Action)
    requires a in PutWeek(w, index, compat).trace && a.Edit?
    ensures (a.row, a.col) in w.cells && w.cells[(a.row, a.col)] != a.text
    ensures exists d: nat, p: nat :: (d < 7 && p < |w.projects| && (a.row, a.col) == (p + 1, d + 7)
      && Find(index, w.headRow[d + 1]).Some? && JobTarget(w, index, compat, (d, p)) == Success(Some(a.text)))
  {
    PutWeekDecided(w, index, compat, a);
    var job :| JobOf(w, job) && Decide(w, index, compat, job) == Success(Some(a));
    DecidedEdit(w, index, compat, job, a);
    assert job == (job.0, job.1);
  }

  /** A week that runs to the end is saved exactly once, last, when it
      edited something, and not at all otherwise. */
  lemma PutWeekSaves(w: LiveWeek, index: OMap<Json>, compat: bool)
    requires PutWeek(w, index, compat).error.None?
    ensures var t := PutWeek(w, index, compat).trace;
      (Save in t <==> exists a :: a in t && a.Edit?)
      && (t != [] ==> t[|t| - 1] == Save && forall m :: 0 <= m < |t| - 1 ==> t[m].Edit?)
  {
    var o := Reconcile(w, index, compat, Jobs(0, |w.projects|));
    var t := PutWeek(w, index, compat).trace;
    if t != [] {
      assert t == o.trace + [Save];
      assert o.trace[0] in o.trace && t[0] == o.trace[0];
      forall m | 0 <= m < |t| - 1 ensures t[m].Edit? {
        assert t[m] == o.trace[m] && o.trace[m] in o.trace;
      }
    }
  }

  // ---------------------------------------------------------------- idempotence

  /** One action's effect on the grid: an edit of an existing cell sets its
      text; anything else changes nothing. */
  function ApplyOne(cells: map<(nat, nat), string>, a: Action): (r: map<(nat, nat), string>) {
    if a.Edit? && (a.row, a.col) in cells then cells[(a.row, a.col) := a.text] else cells
  }

  /** The grid after a decision: its edit, if it made one. */
  function ApplyDecision(cells: map<(nat, nat), string>, a: Option<Action>): (r: map<(nat, nat), string>) {
    if a.Some? then ApplyOne(cells, a.value) else cells
  }

  /** The grid after the edits of a trace. */
  function Apply(cells: map<(nat, nat), string>, trace: seq<Action>): (r: map<(nat, nat), string>)
    decreases |trace|
  {
    if trace == [] then cells else Apply(ApplyOne(cells, trace[0]), trace[1..])
  }

  /** Edits elsewhere leave a cell as it is, and no edit adds a cell. */
  lemma {:induction false} ApplyElsewhere(cells: map<(nat, nat), string>, trace: seq<Action>, key: (nat, nat))
    requires forall a :: a in trace && a.Edit? ==> (a.row, a.col) != key
    ensures key in Apply(cells, trace) <==> key in cells
    ensures key in cells ==> Apply(cells, trace)[key] == cells[key]
    decreases |trace|
  {
    if trace != [] {
      assert forall a :: a in trace[1..] ==> a in trace;
      ApplyElsewhere(ApplyOne(cells, trace[0]), trace[1..], key);
    }
  }

  /** A save at the end changes no cell. */
  lemma {:induction false} ApplyTail(cells: map<(nat, nat), string>, trace: seq<Action>, last: Action)
    requires !last.Edit?
    ensures Apply(cells, trace + [last]) == Apply(cells, trace)
    decreases |trace|
  {
    if trace == [] {
      assert [last][1..] == [];
    } else {
      assert (trace + [last])[1..] == trace[1..] + [last];
      ApplyTail(ApplyOne(cells, trace[0]), trace[1..], last);
    }
  }

  /** A decision's edit, then the rest of the trace. */
  lemma ApplyEmitted(cells: map<(nat, nat), string>, a: Option<Action>, rest: seq<Action>)
    ensures Apply(cells, Emitted(a) + rest) == Apply(ApplyDecision(cells, a), rest)
  {
    if a.Some? {
      assert (Emitted(a) + rest)[0] == a.value;
      assert (Emitted(a) + rest)[1..] == rest;
    } else {
      assert Emitted(a) + rest == rest;
    }
  }

  /** A week that ran to the end decided every job without throwing. */
  lemma {:induction false} ReconcileDecided(w: LiveWeek, index: OMap<Json>, compat: bool, jobs: seq<(nat, nat)>, k: nat)
    requires forall j :: 0 <= j < |jobs| ==> JobOf(w, jobs[j])
    requires Reconcile(w, index, compat, jobs).error.None?
    requires k < |jobs|
    ensures Decide(w, index, compat, jobs[k]).Success?
    decreases |jobs|
  {
    if k > 0 {
      assert jobs[1..][k - 1] == jobs[k];
      ReconcileDecided(w, index, compat, jobs[1..], k - 1);
    }
  }

  /** Every edit of a run of jobs is at the cell of one of them. */
  lemma ReconcileCells(w: LiveWeek, index: OMap<Json>, compat: bool, jobs: seq<(nat, nat)>, e: Action)
    requires forall j :: 0 <= j < |jobs| ==> JobOf(w, jobs[j])
    requires e in Reconcile(w, index, compat, jobs).trace
    ensures exists j :: 0 <= j < |jobs| && (e.row, e.col) == CellOf(jobs[j])
  {
    ReconcileEdits(w, index, compat, jobs, e);
    var j :| 0 <= j < |jobs| && Decide(w, index, compat, jobs[j]) == Success(Some(e));
    DecidedEdit(w, index, compat, jobs[j], e);
  }

  /** No later job of a week edits the first job's cell. */
  lemma LaterEditsElsewhere(w: LiveWeek, index: OMap<Json>, compat: bool, jobs: seq<(nat, nat)>)
    requires forall j :: 0 <= j < |jobs| ==> JobOf(w, jobs[j])
    requires forall a, b :: 0 <= a < b < |jobs| ==> jobs[a] != jobs[b]
    requires jobs != []
    ensures forall e :: e in Reconcile(w, index, compat, jobs[1..]).trace && e.Edit? ==> (e.row, e.col) != CellOf(jobs[0])
  {
    var rest := jobs[1..];
    assert forall j :: 0 <= j < |rest| ==> rest[j] == jobs[j + 1];
    forall e | e in Reconcile(w, index, compat, rest).trace && e.Edit? ensures (e.row, e.col) != CellOf(jobs[0]) {
      ReconcileCells(w, index, compat, rest, e);
      var j :| 0 <= j < |rest| && (e.row, e.col) == CellOf(rest[j]);
      assert rest[j] == jobs[j + 1] != jobs[0];
    }
  }

  /** The first job's cell shows its target after its own decision. */
  lemma FirstDecided(w: LiveWeek, index: OMap<Json>, compat: bool, job: (nat, nat), cells: map<(nat, nat), string>)
    requires JobOf(w, job) && Decide(w, index, compat, job).Success?
    requires CellOf(job) in cells <==> CellOf(job) in w.cells
    requires CellOf(job) in cells ==> cells[CellOf(job)] == w.cells[CellOf(job)]
    requires JobTarget(w, index, compat, job).value.Some?
    ensures var a := Decide(w, index, compat, job).value;
      var cells' := ApplyDecision(cells, a);
      CellOf(job) in cells' && cells'[CellOf(job)] == JobTarget(w, index, compat, job).value.value
  {
  }

  /** The later jobs' edits leave the first job's cell as it is. */
  lemma LaterKeepFirst(w: LiveWeek, index: OMap<Json>, compat: bool, jobs: seq<(nat, nat)>, cells: map<(nat, nat), string>)
    requires forall j :: 0 <= j < |jobs| ==> JobOf(w, jobs[j])
    requires forall a, b :: 0 <= a < b < |jobs| ==> jobs[a] != jobs[b]
    requires jobs != [] && CellOf(jobs[0]) in cells
    ensures var after := Apply(cells, Reconcile(w, index, compat, jobs[1..]).trace);
      CellOf(jobs[0]) in after && after[CellOf(jobs[0])] == cells[CellOf(jobs[0])]
  {
    LaterEditsElsewhere(w, index, compat, jobs);
    ApplyElsewhere(cells, Reconcile(w, index, compat, jobs[1..]).trace, CellOf(jobs[0]));
  }

  /** `cells` holds, at the cell of every job, what the week shows there. */
  ghost predicate Agrees(w: LiveWeek, jobs: seq<(nat, nat)>, cells: map<(nat, nat), string>) {
    forall j :: 0 <= j < |jobs| ==>
      (CellOf(jobs[j]) in cells <==> CellOf(jobs[j]) in w.cells)
      && (CellOf(jobs[j]) in cells ==> cells[CellOf(jobs[j])] == w.cells[CellOf(jobs[j])])
  }

  /** An edit of the first job's cell leaves the later jobs' cells as they
      were. */
  lemma AgreesTail(w: LiveWeek, jobs: seq<(nat, nat)>, cells: map<(nat, nat), string>, a: Option<Action>)
    requires forall i, j :: 0 <= i < j < |jobs| ==> jobs[i] != jobs[j]
    requires jobs != [] && Agrees(w, jobs, cells)
    requires a.Some? ==> a.value.Edit? && (a.value.row, a.value.col) == CellOf(jobs[0])
    ensures Agrees(w, jobs[1..], ApplyDecision(cells, a))
  {
    var cells' := ApplyDecision(cells, a);
    forall j | 0 <= j < |jobs| - 1
      ensures CellOf(jobs[1..][j]) in cells' <==> CellOf(jobs[1..][j]) in w.cells
      ensures CellOf(jobs[1..][j]) in cells' ==> cells'[CellOf(jobs[1..][j])] == w.cells[CellOf(jobs[1..][j])]
    {
      assert jobs[1..][j] == jobs[j + 1] != jobs[0];
    }
  }

  /** A week that ran to the end decided its first job, and its grid
      afterwards is that of the other jobs applied after the first one's. */
  lemma ReconcileStep(w: LiveWeek, index: OMap<Json>, compat: bool, jobs: seq<(nat, nat)>, cells: map<(nat, nat), string>)
    requires forall j :: 0 <= j < |jobs| ==> JobOf(w, jobs[j])
    requires jobs != [] && Reconcile(w, index, compat, jobs).error.None?
    ensures Decide(w, index, compat, jobs[0]).Success?
    ensures Reconcile(w, index, compat, jobs[1..]).error.None?
    ensures Apply(cells, Reconcile(w, index, compat, jobs).trace)
      == Apply(ApplyDecision(cells, Decide(w, index, compat, jobs[0]).value), Reconcile(w, index, compat, jobs[1..]).trace)
  {
    var a := Decide(w, index, compat, jobs[0]).value;
    var rest := Reconcile(w, index, compat, jobs[1..]);
    assert Reconcile(w, index, compat, jobs).trace == Emitted(a) + rest.trace;
    ApplyEmitted(cells, a, rest.trace);
  }

  /** The later jobs are jobs of the week, and still distinct. */
  lemma JobsTail(w: LiveWeek, jobs: seq<(nat, nat)>)
    requires jobs != []
    requires forall j :: 0 <= j < |jobs| ==> JobOf(w, jobs[j])
    requires forall a, b :: 0 <= a < b < |jobs| ==> jobs[a] != jobs[b]
    ensures forall j :: 0 <= j < |jobs[1..]| ==> JobOf(w, jobs[1..][j])
    ensures forall a, b :: 0 <= a < b < |jobs[1..]| ==> jobs[1..][a] != jobs[1..][b]
  {
    assert forall j :: 0 <= j < |jobs| - 1 ==> jobs[1..][j] == jobs[j + 1];
  }

  /** After a week's edits every cell with a target shows it. */
  lemma {:induction false} ReconcileSettles(w: LiveWeek, index: OMap<Json>, compat: bool, jobs: seq<(nat, nat)>, cells: map<(nat, nat), string>, k: nat)
    requires forall j :: 0 <= j < |jobs| ==> JobOf(w, jobs[j])
    requires forall a, b :: 0 <= a < b < |jobs| ==> jobs[a] != jobs[b]
    requires Reconcile(w, index, compat, jobs).error.None?
    requires Agrees(w, jobs, cells)
    requires k < |jobs| && JobTarget(w, index, compat, jobs[k]).Success? && JobTarget(w, index, compat, jobs[k]).value.Some?
    ensures CellOf(jobs[k]) in Apply(cells, Reconcile(w, index, compat, jobs).trace)
    ensures Apply(cells, Reconcile(w, index, compat, jobs).trace)[CellOf(jobs[k])] == JobTarget(w, index, compat, jobs[k]).value.value
    decreases |jobs|
  {
    ReconcileStep(w, index, compat, jobs, cells);
    if k == 0 {
      SettleFirst(w, index, compat, jobs, cells);
    } else {
      AgreesAfterFirst(w, index, compat, jobs, cells);
      JobsTail(w, jobs);
      var cells' := ApplyDecision(cells, Decide(w, index, compat, jobs[0]).value);
      assert jobs[1..][k - 1] == jobs[k];
      ReconcileSettles(w, index, compat, jobs[1..], cells', k - 1);
    }
  }

  /** The first job's cell shows its target once the first job and then the
      later ones have been applied. */
  lemma SettleFirst(w: LiveWeek, index: OMap<Json>, compat: bool, jobs: seq<(nat, nat)>, cells: map<(nat, nat), string>)
    requires forall j :: 0 <= j < |jobs| ==> JobOf(w, jobs[j])
    requires forall a, b :: 0 <= a < b < |jobs| ==> jobs[a] != jobs[b]
    requires jobs != [] && Decide(w, index, compat, jobs[0]).Success? && Agrees(w, jobs, cells)
    requires JobTarget(w, index, compat, jobs[0]).Success? && JobTarget(w, index, compat, jobs[0]).value.Some?
    ensures var after := Apply(ApplyDecision(cells, Decide(w, index, compat, jobs[0]).value), Reconcile(w, index, compat, jobs[1..]).trace);
      CellOf(jobs[0]) in after && after[CellOf(jobs[0])] == JobTarget(w, index, compat, jobs[0]).value.value
  {
    assert CellOf(jobs[0]) in cells <==> CellOf(jobs[0]) in w.cells;
    FirstDecided(w, index, compat, jobs[0], cells);
    LaterKeepFirst(w, index, compat, jobs, ApplyDecision(cells, Decide(w, index, compat, jobs[0]).value));
  }

  /** Applying the first job's decision keeps the later jobs' cells as the
      week shows them. */
  lemma AgreesAfterFirst(w: LiveWeek, index: OMap<Json>, compat: bool, jobs: seq<(nat, nat)>, cells: map<(nat, nat), string>)
    requires forall j :: 0 <= j < |jobs| ==> JobOf(w, jobs[j])
    requires forall a, b :: 0 <= a < b < |jobs| ==> jobs[a] != jobs[b]
    requires jobs != [] && Decide(w, index, compat, jobs[0]).Success? && Agrees(w, jobs, cells)
    ensures Agrees(w, jobs[1..], ApplyDecision(cells, Decide(w, index, compat, jobs[0]).value))
  {
    var a := Decide(w, index, compat, jobs[0]).value;
    if a.Some? {
      DecidedEdit(w, index, compat, jobs[0], a.value);
    }
    AgreesTail(w, jobs, cells, a);
  }

  /** A week whose cells all show their targets is left alone. */
  lemma {:induction false} ReconcileQuiet(w: LiveWeek, index: OMap<Json>, compat: bool, jobs: seq<(nat, nat)>)
    requires forall j :: 0 <= j < |jobs| ==> JobOf(w, jobs[j]) && Decide(w, index, compat, jobs[j]) == Success(None)
    ensures Reconcile(w, index, compat, jobs) == Outcome([], None)
    decreases |jobs|
  {
    if jobs != [] {
      assert forall j :: 0 <= j < |jobs| - 1 ==> jobs[1..][j] == jobs[j + 1];
      ReconcileQuiet(w, index, compat, jobs[1..]);
    }
  }

  /** After a week's edits, deciding any of its jobs again edits nothing. */
  lemma JobQuiet(w: LiveWeek, index: OMap<Json>, compat: bool, jobs: seq<(nat, nat)>, k: nat)
    requires forall j :: 0 <= j < |jobs| ==> JobOf(w, jobs[j])
    requires forall a, b :: 0 <= a < b < |jobs| ==> jobs[a] != jobs[b]
    requires Reconcile(w, index, compat, jobs).error.None?
    requires k < |jobs|
    ensures Decide(w.(cells := Apply(w.cells, Reconcile(w, index, compat, jobs).trace)), index, compat, jobs[k]) == Success(None)
  {
    var w' := w.(cells := Apply(w.cells, Reconcile(w, index, compat, jobs).trace));
    ReconcileDecided(w, index, compat, jobs, k);
    assert JobTarget(w', index, compat, jobs[k]) == JobTarget(w, index, compat, jobs[k]);
    if JobTarget(w, index, compat, jobs[k]).value.Some? {
      ReconcileSettles(w, index, compat, jobs, w.cells, k);
    }
  }

  /** Idempotence: once a week's edits are made, putting the same file again
      edits nothing and saves nothing. */
  lemma PutWeekIdempotent(w: LiveWeek, index: OMap<Json>, compat: bool)
    requires PutWeek(w, index, compat).error.None?
    ensures var w' := w.(cells := Apply(w.cells, PutWeek(w, index, compat).trace));
      PutWeek(w', index, compat) == Outcome([], None)
  {
    var o := PutWeek(w, index, compat);
    var jobs := Jobs(0, |w.projects|);
    var r := Reconcile(w, index, compat, jobs);
    assert |w.headRow| == 8 && r.error.None?;
    var cells' := Apply(w.cells, r.trace);
    assert Apply(w.cells, o.trace) == cells' by {
      if r.trace != [] {
        ApplyTail(w.cells, r.trace, Save);
      }
    }
    var w' := w.(cells := cells');
    forall j | 0 <= j < |jobs| ensures JobOf(w', jobs[j]) && Decide(w', index, compat, jobs[j]) == Success(None) {
      JobQuiet(w, index, compat, jobs, j);
    }
    ReconcileQuiet(w', index, compat, jobs);
  }

  // ---------------------------------------------------------------- the month

  /** The walk over the calendar that both versions of `put` make: every
      selected cell is visited and its week processed by `week`, and the
      first week that throws ends the walk. */
  function WeekWalk(cal: seq<string>, week: nat -> Outcome, i: nat): (o: Outcome)
    requires i <= |cal|
    decreases |cal| - i
  {
    if i == |cal| then Outcome([], None)
    else if !Selected(cal, i) then WeekWalk(cal, week, i + 1)
    else if week(i).error.Some? then Outcome([Visit(i)] + week(i).trace, week(i).error)
    else
      var rest := WeekWalk(cal, week, i + 1);
      Outcome([Visit(i)] + week(i).trace + rest.trace, rest.error)
  }

  /** The walk as written: its bound is the number of cells found before
      the loop, and the cells are looked up again before every step;
      `reread(i)` is what that lookup finds before step `i`. When it finds
      no cell `i`, reading the cell's text throws `vanished`. */
  function CalendarWeekWalk(bound: nat, reread: nat -> seq<string>, vanished: Thrown, week: nat -> Outcome, i: nat): (o: Outcome)
    requires i <= bound
    decreases bound - i
  {
    if i == bound then Outcome([], None)
    else
      var cal := reread(i);
      if i >= |cal| then Outcome([], Some(vanished))
      else if !Selected(cal, i) then CalendarWeekWalk(bound, reread, vanished, week, i + 1)
      else if week(i).error.Some? then Outcome([Visit(i)] + week(i).trace, week(i).error)
      else
        var rest := CalendarWeekWalk(bound, reread, vanished, week, i + 1);
        Outcome([Visit(i)] + week(i).trace + rest.trace, rest.error)
  }

  /** While every lookup finds the calendar found before the loop, the loop
      is the walk over that calendar. */
  lemma {:induction false} CalendarWeekWalkSteady(cal: seq<string>, reread: nat -> seq<string>, vanished: Thrown, week: nat -> Outcome, i: nat)
    requires i <= |cal|
    requires forall j :: i <= j < |cal| ==> reread(j) == cal
    ensures CalendarWeekWalk(|cal|, reread, vanished, week, i) == WeekWalk(cal, week, i)
    decreases |cal| - i
  {
    if i < |cal| {
      CalendarWeekWalkSteady(cal, reread, vanished, week, i + 1);
    }
  }

  /** When the calendar stays put until step `k` and the lookup there finds
      fewer than `k + 1` cells, the loop does what the walk over the first
      `k` cells does, and then throws, unless a week threw before. */
  lemma {:induction false} CalendarWeekWalkShrinks(cal: seq<string>, reread: nat -> seq<string>, vanished: Thrown, week: nat -> Outcome, i: nat, k: nat)
    requires i <= k < |cal|
    requires forall j :: i <= j < k ==> reread(j) == cal
    requires |reread(k)| <= k
    ensures var before := WeekWalk(cal[..k], week, i);
      CalendarWeekWalk(|cal|, reread, vanished, week, i) ==
        if before.error.None? then Outcome(before.trace, Some(vanished)) else before
    decreases k - i
  {
    if i < k {
      assert cal[..k][i] == cal[i];
      assert Selected(cal[..k], i) == Selected(cal, i);
      CalendarWeekWalkShrinks(cal, reread, vanished, week, i + 1, k);
    }
  }

  /** The walk of `put` over the calendar `cal` found before the loop, each
      week reconciled against the file. */
  function PutWalk(cal: seq<string>, reread: nat -> seq<string>, render: nat -> LiveWeek, index: OMap<Json>, compat: bool): Outcome {
    CalendarWeekWalk(|cal|, reread, EvaluateUndefined, Weeks(render, index, compat), 0)
  }

  /** The step the walk takes at each selected cell. */
  function Weeks(render: nat -> LiveWeek, index: OMap<Json>, compat: bool): nat -> Outcome {
    (c: nat) => PutWeek(render(c), index, compat)
  }

  /** `put`: the file checked and indexed, then the walk. */
  function Put(doc: Json, cal: seq<string>, reread: nat -> seq<string>, render: nat -> LiveWeek): Outcome {
    match ValidateTop(doc)
    case Failure(e) => Outcome([], Some(e))
    case Success(v) =>
      match DateIndex(v.items)
      case Failure(e) => Outcome([], Some(e))
      case Success(index) => PutWalk(cal, reread, render, index, v.compat)
  }

  /** One visit per calendar cell, in order. */
  function Visits(sel: seq<nat>): (t: seq<Action>)
    ensures |t| == |sel| && forall j :: 0 <= j < |sel| ==> t[j] == Visit(sel[j])
  {
    if sel == [] then [] else [Visit(sel[0])] + Visits(sel[1..])
  }

  lemma VisitsCons(c: nat, rest: seq<nat>)
    ensures Visits([c] + rest) == [Visit(c)] + Visits(rest)
  {
    assert ([c] + rest)[1..] == rest;
  }

  /** An unselected cell adds nothing. */
  lemma WeekWalkSkip(cal: seq<string>, week: nat -> Outcome, i: nat)
    requires i < |cal| && !Selected(cal, i)
    ensures WeekWalk(cal, week, i) == WeekWalk(cal, week, i + 1)
    ensures Selection(cal, i) == Selection(cal, i + 1)
  {
  }

  /** A selected cell whose week is settled adds its visit and nothing else. */
  lemma WeekWalkQuietStep(cal: seq<string>, week: nat -> Outcome, i: nat)
    requires i < |cal| && Selected(cal, i)
    requires week(i) == Outcome([], None)
    ensures WeekWalk(cal, week, i).error == WeekWalk(cal, week, i + 1).error
    ensures WeekWalk(cal, week, i).trace == [Visit(i)] + WeekWalk(cal, week, i + 1).trace
  {
    var rest := WeekWalk(cal, week, i + 1);
    assert [Visit(i)] + [] + rest.trace == [Visit(i)] + rest.trace;
  }

  /** When every selected week is settled, the walk only visits: one visit
      per selected calendar cell, in order, and no error. */
  lemma {:induction false} WeekWalkSettled(cal: seq<string>, week: nat -> Outcome, i: nat)
    requires i <= |cal|
    requires forall c :: i <= c < |cal| && Selected(cal, c) ==> week(c) == Outcome([], None)
    ensures WeekWalk(cal, week, i) == Outcome(Visits(Selection(cal, i)), None)
    decreases |cal| - i
  {
    if i < |cal| {
      WeekWalkSettled(cal, week, i + 1);
      if Selected(cal, i) {
        WeekWalkQuietStep(cal, week, i);
        var rest := Selection(cal, i + 1);
        assert Selection(cal, i) == [i] + rest;
        VisitsCons(i, rest);
      } else {
        WeekWalkSkip(cal, week, i);
      }
    }
  }

  /** When every week already shows the file's figures, `put` only visits:
      the trace is one visit per selected calendar cell, with no edit and
      no save. */
  lemma PutWalkSettled(cal: seq<string>, reread: nat -> seq<string>, render: nat -> LiveWeek, index: OMap<Json>, compat: bool)
    requires forall j :: 0 <= j < |cal| ==> reread(j) == cal
    requires forall c :: 0 <= c < |cal| && Selected(cal, c) ==> PutWeek(render(c), index, compat) == Outcome([], None)
    ensures PutWalk(cal, reread, render, index, compat) == Outcome(Visits(Selection(cal, 0)), None)
  {
    SteadySettled(cal, reread, EvaluateUndefined, Weeks(render, index, compat));
  }

  /** A steady calendar whose selected weeks are all settled yields one
      visit per selected cell and no error. */
  lemma SteadySettled(cal: seq<string>, reread: nat -> seq<string>, vanished: Thrown, week: nat -> Outcome)
    requires forall j :: 0 <= j < |cal| ==> reread(j) == cal
    requires forall c :: 0 <= c < |cal| && Selected(cal, c) ==> week(c) == Outcome([], None)
    ensures CalendarWeekWalk(|cal|, reread, vanished, week, 0) == Outcome(Visits(Selection(cal, 0)), None)
  {
    CalendarWeekWalkSteady(cal, reread, vanished, week, 0);
    WeekWalkSettled(cal, week, 0);
  }
}
