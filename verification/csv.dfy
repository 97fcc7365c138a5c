/** The CSV output of the older `get` (`src/commands/get.ts`): a header row
    of the eight attendance and total columns and one column per project,
    then one row per gathered day, every field quoted. The fields are
    quoted by a function given as a parameter: the source's (`QuoteFirst`),
    which doubles only the first double quote of a value, or the quoting of
    section 2 of RFC 4180 (`QuoteAll`), which doubles all of them.
 */
module CsvExport {
  import opened Wrappers
  import opened Sequences
  import opened OrderedMap
  import opened JsValues
  import opened Attendance
  import opened Hours
  import opened GetMonth

  const Quote: char := '"'

  // ---------------------------------------------------------------- quoting

  /** The number of double quotes in a value. */
  function Quotes(v: string): nat {
    multiset(v)[Quote]
  }

  /** `r` is `v` with its first double quote doubled and everything around
      it kept. */
  predicate FirstDoubled(v: string, r: string) {
    exists i :: 0 <= i < |v| && v[i] == Quote && Quote !in v[..i] && r == v[..i + 1] + [Quote] + v[i + 1..]
  }

  /** `v.replace('"', '""')`: a string pattern, so only the first double
      quote is doubled. */
  function ReplaceFirst(v: string): (r: string)
    ensures |r| == |v| + (if Quote in v then 1 else 0)
    ensures Quote !in v ==> r == v
    ensures Quote in v ==> FirstDoubled(v, r)
  {
    if v == [] then []
    else if v[0] == Quote then
      HeadDoubled(v);
      [Quote, Quote] + v[1..]
    else
      var r := [v[0]] + ReplaceFirst(v[1..]);
      if Quote in v then
        ConsDoubled(v, ReplaceFirst(v[1..]));
        r
      else r
  }

  lemma HeadDoubled(v: string)
    requires v != [] && v[0] == Quote
    ensures FirstDoubled(v, [Quote, Quote] + v[1..])
  {
    assert v[..1] == [Quote] && v[..0] == [];
  }

  /** `FirstDoubled` with its witness named. */
  lemma DoubledAt(v: string, r: string, i: nat)
    requires i < |v| && v[i] == Quote && Quote !in v[..i]
    requires r == v[..i + 1] + [Quote] + v[i + 1..]
    ensures FirstDoubled(v, r)
  {
  }

  /** Putting a character in front shifts the doubled quote by one. */
  lemma ConsSplice(c: char, t: string, i: nat)
    requires i < |t|
    ensures [c] + (t[..i + 1] + [Quote] + t[i + 1..]) == ([c] + t)[..i + 2] + [Quote] + ([c] + t)[i + 2..]
  {
    assert ([c] + t)[..i + 2] == [c] + t[..i + 1];
    assert ([c] + t)[i + 2..] == t[i + 1..];
  }

  lemma ConsDoubled(v: string, rt: string)
    requires v != [] && v[0] != Quote && Quote in v
    requires Quote in v[1..] ==> FirstDoubled(v[1..], rt)
    ensures FirstDoubled(v, [v[0]] + rt)
  {
    var t := v[1..];
    var c := v[0];
    assert v == [c] + t;
    assert Quote in t;
    var i :| 0 <= i < |t| && t[i] == Quote && Quote !in t[..i] && rt == t[..i + 1] + [Quote] + t[i + 1..];
    assert v[..i + 1] == [c] + t[..i];
    ConsSplice(c, t, i);
    DoubledAt(v, [c] + rt, i + 1);
  }

  /** The field the source writes for a value. */
  function QuoteFirst(v: string): (f: string)
    ensures |f| == |v| + 2 + (if Quote in v then 1 else 0)
  {
    [Quote] + ReplaceFirst(v) + [Quote]
  }

  /** Every double quote doubled. */
  function Escape(v: string): (r: string)
    ensures |r| == |v| + Quotes(v)
    ensures Quote !in v ==> r == v
  {
    if v == [] then []
    else
      assert v == [v[0]] + v[1..];
      (if v[0] == Quote then [Quote, Quote] else [v[0]]) + Escape(v[1..])
  }

  /** The field RFC 4180 prescribes for a value. */
  function QuoteAll(v: string): (f: string)
    ensures |f| == |v| + Quotes(v) + 2
  {
    [Quote] + Escape(v) + [Quote]
  }

  /** The inside of a quoted field read back: a doubled quote is one quote,
      and a lone quote is malformed. */
  function Unescape(s: string): (r: Option<string>)
    ensures r.Some? ==> |r.value| <= |s|
  {
    if s == [] then Some([])
    else if s[0] != Quote then
      var rest :- Unescape(s[1..]);
      Some([s[0]] + rest)
    else if |s| >= 2 && s[1] == Quote then
      var rest :- Unescape(s[2..]);
      Some([Quote] + rest)
    else None
  }

  /** A quoted field read back, as a reader following RFC 4180 does. */
  function Unquote(f: string): (r: Option<string>)
    ensures r.Some? ==> |f| >= 2 && f[0] == Quote && f[|f| - 1] == Quote
  {
    if |f| >= 2 && f[0] == Quote && f[|f| - 1] == Quote then Unescape(f[1..|f| - 1]) else None
  }

  lemma {:induction false} UnescapeEscape(v: string)
    ensures Unescape(Escape(v)) == Some(v)
  {
    if v != [] {
      UnescapeEscape(v[1..]);
      var e := Escape(v[1..]);
      if v[0] == Quote {
        assert Escape(v) == [Quote, Quote] + e;
        assert ([Quote, Quote] + e)[2..] == e;
      } else {
        assert Escape(v) == [v[0]] + e;
        assert ([v[0]] + e)[1..] == e;
      }
      assert v == [v[0]] + v[1..];
    }
  }

  lemma {:induction false} EscapeUnescape(s: string, v: string)
    requires Unescape(s) == Some(v)
    ensures Escape(v) == s
    decreases |s|
  {
    if s != [] {
      if s[0] != Quote {
        var rest := Unescape(s[1..]).value;
        EscapeUnescape(s[1..], rest);
        EscapeCons(s[0], rest);
        assert s == [s[0]] + s[1..];
      } else {
        var rest := Unescape(s[2..]).value;
        EscapeUnescape(s[2..], rest);
        EscapeCons(Quote, rest);
        assert s == [Quote, Quote] + s[2..];
      }
    }
  }

  lemma EscapeCons(c: char, rest: string)
    ensures Escape([c] + rest) == (if c == Quote then [Quote, Quote] else [c]) + Escape(rest)
  {
    assert ([c] + rest)[1..] == rest;
  }

  /** The inside of a quoted field, between its two outer quotes. */
  lemma QuoteAllInside(v: string)
    ensures var q := QuoteAll(v);
      |q| >= 2 && q[0] == Quote && q[|q| - 1] == Quote && q[1..|q| - 1] == Escape(v)
  {
  }

  /** RFC 4180 quoting is undone exactly: a field reads back as `v` if and
      only if it is the quoting of `v`. */
  lemma QuoteAllRoundTrip(v: string, f: string)
    ensures Unquote(QuoteAll(v)) == Some(v)
    ensures Unquote(f) == Some(v) <==> f == QuoteAll(v)
  {
    QuoteAllReads(v);
    if Unquote(f) == Some(v) {
      UnquoteOnly(f, v);
    }
  }

  lemma QuoteAllReads(v: string)
    ensures Unquote(QuoteAll(v)) == Some(v)
  {
    QuoteAllInside(v);
    UnescapeEscape(v);
  }

  /** Only the quoting of `v` reads back as `v`. */
  lemma UnquoteOnly(f: string, v: string)
    requires Unquote(f) == Some(v)
    ensures f == QuoteAll(v)
  {
    var n := |f|;
    var inside := f[1..n - 1];
    assert Unescape(inside) == Some(v);
    EscapeUnescape(inside, v);
    Reframe(f);
  }

  /** A text of two or more characters is its first, middle and last ones. */
  lemma Reframe(f: string)
    requires |f| >= 2
    ensures f == [f[0]] + f[1..|f| - 1] + [f[|f| - 1]]
  {
  }

  /** The source's quoting is right for a value with at most one double
      quote. */
  lemma {:induction false} QuoteFirstAgrees(v: string)
    requires Quotes(v) <= 1
    ensures QuoteFirst(v) == QuoteAll(v)
    ensures Unquote(QuoteFirst(v)) == Some(v)
  {
    assert ReplaceFirst(v) == Escape(v) by {
      ReplaceFirstAgrees(v);
    }
    QuoteAllRoundTrip(v, QuoteAll(v));
  }

  lemma {:induction false} ReplaceFirstAgrees(v: string)
    requires Quotes(v) <= 1
    ensures ReplaceFirst(v) == Escape(v)
  {
    if v != [] {
      assert v == [v[0]] + v[1..];
      assert multiset(v) == multiset([v[0]]) + multiset(v[1..]);
      if v[0] == Quote {
        assert Quote !in v[1..];
      } else {
        ReplaceFirstAgrees(v[1..]);
      }
    }
  }

  /** The source's quoting reads back as the value exactly when the value
      holds at most one double quote. */
  lemma QuoteFirstReadsBack(v: string)
    ensures Unquote(QuoteFirst(v)) == Some(v) <==> Quotes(v) <= 1
  {
    if Quotes(v) <= 1 {
      QuoteFirstAgrees(v);
    } else if Unquote(QuoteFirst(v)) == Some(v) {
      assert Quote in multiset(v);
      UnquoteOnly(QuoteFirst(v), v);
      assert false;
    }
  }

  /** The source's quoting breaks on a value with two double quotes: `""`
      becomes five double quotes, which no RFC 4180 reader accepts. */
  lemma QuoteFirstBreaks()
    ensures QuoteFirst("\"\"") == "\"\"\"\"\""
    ensures Unquote(QuoteFirst("\"\"")) == None
    ensures Unquote(QuoteAll("\"\"")) == Some("\"\"")
  {
    var v := "\"\"";
    assert ReplaceFirst(v) == [Quote, Quote] + v[1..];
    var f := QuoteFirst(v);
    assert f[1..|f| - 1] == "\"\"\"";
    assert Unescape("\"\"\"") == None by {
      assert "\"\"\""[2..] == "\"";
      assert Unescape("\"") == None;
    }
    QuoteAllRoundTrip(v, QuoteAll(v));
  }

  // ---------------------------------------------------------------- the table

  const Columns: seq<string> := ["date", "begin", "end", "yokujitsu", "kyukei", "yasumi", "sagyou", "fumei"]

  /** Calling `replace` on `undefined`. */
  const Undefined := TypeError("Cannot read properties of undefined (reading 'replace')")

  /** A value quoted, or the exception for an undefined one. */
  function Field(v: Option<string>, quote: string -> string): (r: Result<string, Thrown>)
    ensures r.Success? <==> v.Some?
    ensures r.Success? ==> r.value == quote(v.value)
    ensures r.Failure? ==> r.error == Undefined
  {
    if v.None? then Failure(Undefined) else Success(quote(v.value))
  }

  /** The header's values: the eight column names, then `projects[id]` for
      every project id, in the order the ids were first seen. */
  function HeaderValues(projects: OMap<Option<string>>): (r: seq<Option<string>>)
    ensures |r| == 8 + |projects|
    ensures forall j :: 0 <= j < 8 ==> r[j] == Some(Columns[j])
  {
    var ids := Keys(projects);
    seq(8, j requires 0 <= j < 8 => Some(Columns[j]))
      + seq(|ids|, j requires 0 <= j < |ids| => Find(projects, ids[j]).value)
  }

  /** Each project's column is headed by the project's name. */
  lemma HeaderNames(projects: OMap<Option<string>>, j: nat)
    requires UniqueKeys(projects) && j < |projects|
    ensures HeaderValues(projects)[8 + j] == projects[j].1
  {
    FindAt(projects, j);
  }

  /** `kousu.jisseki[id]`: the day's figure for a project, undefined when the
      day has none. */
  function FigureOf(jisseki: OMap<Option<string>>, id: string): (r: Option<string>)
    ensures r.Some? ==> Find(jisseki, id) == Some(r)
    ensures Find(jisseki, id).None? ==> r.None?
  {
    match Find(jisseki, id)
    case None => None
    case Some(v) => v
  }

  /** A day's values: its attendance, its totals, then its figure for each
      project id. Reading a figure off a day with no hours throws. */
  function RowValues(k: Kousu<string, string, string, string>, ids: seq<string>): (r: Result<seq<Option<string>>, Thrown>)
    ensures r.Failure? <==> k.hours.None? && ids != []
    ensures r.Success? ==> |r.value| == 8 + |ids|
    ensures r.Success? ==> r.value[..6] == [Some(k.kinmu.date), Some(k.kinmu.begin), Some(k.kinmu.end),
      Some(if k.kinmu.yokujitsu then "true" else "false"), Some(k.kinmu.kyukei), Some(k.kinmu.yasumi)]
    ensures r.Success? && k.hours.None? ==> r.value[6..] == [None, None]
    ensures r.Success? && k.hours.Some? ==> (r.value[6] == k.hours.value.sagyou && r.value[7] == k.hours.value.fumei
      && forall j :: 0 <= j < |ids| ==> r.value[8 + j] == FigureOf(k.hours.value.jisseki, ids[j]))
  {
    var d := k.kinmu;
    var base := [Some(d.date), Some(d.begin), Some(d.end), Some(if d.yokujitsu then "true" else "false"), Some(d.kyukei), Some(d.yasumi)];
    match k.hours
    case None =>
      if ids == [] then Success(base + [None, None])
      else Failure(TypeError("Cannot read properties of undefined (reading '" + ids[0] + "')"))
    case Some(h) =>
      Success(base + [h.sagyou, h.fumei] + seq(|ids|, j requires 0 <= j < |ids| => FigureOf(h.jisseki, ids[j])))
  }

  /** Every value quoted; the first undefined one throws. */
  function Fields(values: seq<Option<string>>, quote: string -> string): (r: Result<seq<string>, Thrown>)
    ensures r.Success? <==> forall j :: 0 <= j < |values| ==> values[j].Some?
    ensures r.Success? ==> |r.value| == |values| && forall j :: 0 <= j < |values| ==> r.value[j] == quote(values[j].value)
    ensures r.Failure? ==> r.error == Undefined
  {
    MapResult(values, v => Field(v, quote))
  }

  function Row(k: Kousu<string, string, string, string>, ids: seq<string>, quote: string -> string): Result<seq<string>, Thrown> {
    var values :- RowValues(k, ids);
    Fields(values, quote)
  }

  /** The table: the header, then a row per day. */
  function Csv(g: Gathered<string, string, string, string>, quote: string -> string): (r: Result<seq<seq<string>>, Thrown>)
    ensures r.Success? ==> |r.value| == 1 + |g.records|
  {
    var ids := Keys(g.projects);
    var header :- Fields(HeaderValues(g.projects), quote);
    var rows :- MapResult(g.records, k => Row(k, ids, quote));
    Success([header] + rows)
  }

  // ---------------------------------------------------------------- properties

  /** Whether every value of a day is defined: the day has its hours, both
      totals, and a figure for every project id. */
  predicate Defined(k: Kousu<string, string, string, string>, ids: seq<string>) {
    k.hours.Some? && k.hours.value.sagyou.Some? && k.hours.value.fumei.Some?
    && forall j :: 0 <= j < |ids| ==> FigureOf(k.hours.value.jisseki, ids[j]).Some?
  }

  lemma RowAccepts(k: Kousu<string, string, string, string>, ids: seq<string>, quote: string -> string)
    ensures Row(k, ids, quote).Success? <==> Defined(k, ids)
  {
    var r := RowValues(k, ids);
    if r.Success? && k.hours.Some? {
      assert Fields(r.value, quote).Success? ==> r.value[6].Some? && r.value[7].Some?;
      if Defined(k, ids) {
        forall j | 0 <= j < |r.value| ensures r.value[j].Some? {
          if 8 <= j {
            assert r.value[8 + (j - 8)] == FigureOf(k.hours.value.jisseki, ids[j - 8]);
          } else if j < 6 {
            assert r.value[..6][j] == r.value[j];
          }
        }
      }
      if Fields(r.value, quote).Success? {
        forall j | 0 <= j < |ids| ensures FigureOf(k.hours.value.jisseki, ids[j]).Some? {
          assert r.value[8 + j].Some?;
        }
      }
    } else if r.Success? {
      assert r.value[6..][0] == None;
    }
  }

  /** The table is written exactly when every project has a name and every
      day has all its values. */
  lemma CsvAccepts(g: Gathered<string, string, string, string>, quote: string -> string)
    requires UniqueKeys(g.projects)
    ensures Csv(g, quote).Success? <==>
      (forall j :: 0 <= j < |g.projects| ==> g.projects[j].1.Some?)
      && forall i :: 0 <= i < |g.records| ==> Defined(g.records[i], Keys(g.projects))
  {
    HeaderAccepts(g.projects, quote);
    RowsAccept(g.records, Keys(g.projects), quote);
  }

  /** The header is written exactly when every project has a name. */
  lemma HeaderAccepts(projects: OMap<Option<string>>, quote: string -> string)
    requires UniqueKeys(projects)
    ensures Fields(HeaderValues(projects), quote).Success? <==> forall j :: 0 <= j < |projects| ==> projects[j].1.Some?
  {
    var h := HeaderValues(projects);
    forall j | 0 <= j < |projects| ensures h[8 + j] == projects[j].1 {
      HeaderNames(projects, j);
    }
    if forall j :: 0 <= j < |projects| ==> projects[j].1.Some? {
      forall j | 0 <= j < |h| ensures h[j].Some? {
        if 8 <= j {
          assert h[8 + (j - 8)] == projects[j - 8].1;
        }
      }
    }
  }

  /** The rows are written exactly when every day has all its values. */
  lemma RowsAccept(records: seq<Kousu<string, string, string, string>>, ids: seq<string>, quote: string -> string)
    ensures MapResult(records, k => Row(k, ids, quote)).Success? <==> forall i :: 0 <= i < |records| ==> Defined(records[i], ids)
  {
    forall i | 0 <= i < |records| ensures Row(records[i], ids, quote).Success? <==> Defined(records[i], ids) {
      RowAccepts(records[i], ids, quote);
    }
  }

  /** A quoting that a reader undoes. */
  ghost predicate Undoes(read: string -> Option<string>, quote: string -> string) {
    forall v :: read(quote(v)) == Some(v)
  }

  /** A field that reads back as a defined value. */
  predicate ReadsBack(read: string -> Option<string>, field: string, v: Option<string>) {
    v.Some? && read(field) == Some(v.value)
  }

  /** Every written field reads back as its value. */
  lemma FieldsReadBack(values: seq<Option<string>>, quote: string -> string, read: string -> Option<string>)
    requires Undoes(read, quote) && Fields(values, quote).Success?
    ensures forall j :: 0 <= j < |values| ==> ReadsBack(read, Fields(values, quote).value[j], values[j])
  {
  }

  /** A written table is the header's fields, then each day's row. */
  lemma CsvRows(g: Gathered<string, string, string, string>, quote: string -> string)
    requires Csv(g, quote).Success?
    ensures Fields(HeaderValues(g.projects), quote).Success?
    ensures Csv(g, quote).value[0] == Fields(HeaderValues(g.projects), quote).value
    ensures forall i :: 0 <= i < |g.records| ==>
      Row(g.records[i], Keys(g.projects), quote).Success? && Csv(g, quote).value[1 + i] == Row(g.records[i], Keys(g.projects), quote).value
  {
  }

  /** A written row reads back as the day's values. */
  lemma RowReadsBack(k: Kousu<string, string, string, string>, ids: seq<string>, quote: string -> string, read: string -> Option<string>)
    requires Undoes(read, quote) && Row(k, ids, quote).Success?
    ensures RowValues(k, ids).Success?
    ensures |Row(k, ids, quote).value| == |RowValues(k, ids).value|
    ensures forall j :: 0 <= j < |Row(k, ids, quote).value| ==> ReadsBack(read, Row(k, ids, quote).value[j], RowValues(k, ids).value[j])
  {
    FieldsReadBack(RowValues(k, ids).value, quote, read);
  }

  /** The table read back with a reader that undoes the quoting: the header
      gives the column names and the project names, each row gives its
      day's values. */
  lemma CsvReadsBack(g: Gathered<string, string, string, string>, quote: string -> string, read: string -> Option<string>)
    requires Undoes(read, quote) && Csv(g, quote).Success?
    ensures var t := Csv(g, quote).value;
      && |t[0]| == 8 + |g.projects|
      && (forall j :: 0 <= j < |t[0]| ==> ReadsBack(read, t[0][j], HeaderValues(g.projects)[j]))
      && forall i, j :: 0 <= i < |g.records| && 0 <= j < |t[1 + i]| ==>
           && RowValues(g.records[i], Keys(g.projects)).Success?
           && |t[1 + i]| == |RowValues(g.records[i], Keys(g.projects)).value|
           && ReadsBack(read, t[1 + i][j], RowValues(g.records[i], Keys(g.projects)).value[j])
  {
    var ids := Keys(g.projects);
    CsvRows(g, quote);
    FieldsReadBack(HeaderValues(g.projects), quote, read);
    forall i | 0 <= i < |g.records|
      ensures RowValues(g.records[i], ids).Success?
      ensures |Row(g.records[i], ids, quote).value| == |RowValues(g.records[i], ids).value|
      ensures forall j :: 0 <= j < |Row(g.records[i], ids, quote).value| ==>
        ReadsBack(read, Row(g.records[i], ids, quote).value[j], RowValues(g.records[i], ids).value[j])
    {
      RowReadsBack(g.records[i], ids, quote, read);
    }
  }

  /** RFC 4180 quoting is undone by an RFC 4180 reader, so a table written
      with it reads back. */
  lemma QuoteAllUndone()
    ensures Undoes(Unquote, QuoteAll)
  {
    forall v ensures Unquote(QuoteAll(v)) == Some(v) {
      QuoteAllRoundTrip(v, QuoteAll(v));
    }
  }

  /** A day whose date is `""`, with no projects. */
  function QuotedDay(): Gathered<string, string, string, string> {
    Gathered([Kousu(Kinmu("\"\"", "09:00", "18:00", false, "1.0", ""), Some(Hours(Some("8.0"), Some("0.0"), [])))], [])
  }

  /** The first field of a written row is the day's date, quoted. */
  lemma DateField(k: Kousu<string, string, string, string>, ids: seq<string>, quote: string -> string)
    requires Row(k, ids, quote).Success?
    ensures Row(k, ids, quote).value[0] == quote(k.kinmu.date)
  {
    var values := RowValues(k, ids).value;
    assert values[..6][0] == values[0];
  }

  /** `QuotedDay` is written whatever the quoting, its date first. */
  lemma QuotedDayWritten(quote: string -> string)
    ensures Csv(QuotedDay(), quote).Success?
    ensures |Csv(QuotedDay(), quote).value| == 2 && Csv(QuotedDay(), quote).value[1] != []
    ensures Csv(QuotedDay(), quote).value[1][0] == quote("\"\"")
  {
    var g := QuotedDay();
    var k := g.records[0];
    assert Defined(k, []);
    RowAccepts(k, [], quote);
    CsvAccepts(g, quote);
    CsvRows(g, quote);
    DateField(k, [], quote);
  }

  /** The table as the source writes it can be unreadable: the date field of
      `QuotedDay` is five double quotes, while RFC 4180 quoting reads back. */
  lemma CsvAsWrittenBreaks()
    ensures Csv(QuotedDay(), QuoteFirst).Success? && Csv(QuotedDay(), QuoteAll).Success?
    ensures |Csv(QuotedDay(), QuoteFirst).value| == 2 && Csv(QuotedDay(), QuoteFirst).value[1] != []
    ensures Unquote(Csv(QuotedDay(), QuoteFirst).value[1][0]) == None
    ensures |Csv(QuotedDay(), QuoteAll).value| == 2 && Csv(QuotedDay(), QuoteAll).value[1] != []
    ensures Unquote(Csv(QuotedDay(), QuoteAll).value[1][0]) == Some("\"\"")
  {
    QuotedDayWritten(QuoteFirst);
    QuotedDayWritten(QuoteAll);
    QuoteFirstBreaks();
  }
}
