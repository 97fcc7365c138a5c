# kousu, modelled in Dafny

kousu scrapes the MA-EYES timesheet web application. `get` walks the weeks of
a month, reads two tables per week, and writes the month as a JSON file.
`put` reads such a file back and types its hours into the week grids. This
project models the logic between the scraped widgets and the JSON file, and
proves properties of it. The browser is not modelled: a table is given
already parsed, and the page shown after a click is an oracle function.

The two tables of a week:
- the attendance table (勤務時間表): six rows of cells;
- the project-hours table (工数実績入力表): header totals, project ids and
  names, and one cell per project and day.

Modules, one per concept of the program:

- `Wrappers`: `Option` stands for JavaScript's `undefined`. `Result` stands
  for a thrown error (`KousuError`, `AppError`, or a `TypeError` raised by
  the language).
- `Sequences`: array indexing past the end, `shift`, `map` with a callback
  that may throw, and `flat`.
- `OrderedMap`: a JavaScript object used as a dictionary, kept as an
  insertion-ordered list of entries. It covers `o[k]`, `o[k] = v`,
  `Object.assign`, and the dropping of `undefined` members by
  `JSON.stringify`.
- `Decimals`: exact decimal numbers standing in for `number`.
  - `ParseFloat` models `parseFloat`; `NaN` is `None`.
  - `Fmt1` models `toFixed(1)`, rounding half up as section 21.1.3.3 of
    ECMA-262 prescribes. From 10^21 on it gives what Number::toString
    gives, the exponent form `d.ddde+n`, as the same section prescribes.
- `JsValues`: JSON values with `typeof`, `Array.isArray`, `isObject`,
  property reads (which throw on `null` and `undefined`), and the
  conversion of a value to a property key.
- `NumberText`: Number::toString (section 6.1.6.1.20 of ECMA-262), the
  text a number becomes as a property key or inside a template literal.
  It is the shortest fixed-point numeral between 10^-6 and 10^21, the
  exponent form `d.ddde+n` from 10^21 on, and `d.ddde-n` below 10^-6.
- `DatePattern`: the leftmost match of the date regular expression
  `(\d\d?)\/(\d\d?)\((月|火|水|木|金|土|日)\)`.
- `Lookup`: the count contract of `$xn` and `$x1`.
- `Attendance`: `parseWeekKinmu` in both generations.
  - The numeric one is in `src/command-get.ts`, copied verbatim in
    `src/cli.ts:764-968`.
  - The string one is in `src/commands/get.ts`.
  - One shared parser takes the holiday reader and the break converter as
    parameters.
- `Hours`: `parseWeekJisseki` in both generations.
  - The numeric one is in `src/command-get.ts`, copied verbatim in
    `src/cli.ts:969-1213`.
  - The string one is in `src/commands/get.ts`.
  - One shared parser takes the three figure converters as parameters.
- `GetMonth`: the month walk of `get`. It covers:
  - the week-selection predicate over the calendar;
  - the calendar looked up again before every step, with the loop bound
    taken from the first lookup;
  - reading the two tables of a week;
  - dropping `null` days and pairing each day with its own column's hours;
  - merging the project names (last writer wins);
  - the JSON document that `get` writes.
- `CsvExport`: the CSV table of the older `get`. Its quoting is a
  parameter, so the table can be built with the source's quoting or with
  the quoting of section 2 of RFC 4180.
- `PutMonth`: the `put` command. It covers:
  - the top-level checks of the file, in their order;
  - the index of records by date, where the last record of a date wins;
  - the target text of a cell;
  - the reconciler. The live week is a grid `(row, col) → text` plus the
    project ids of the rows and the date texts of the columns. The output
    is an action trace of `Visit`, `Edit(row, col, text)` and `Save`.
- `PutLegacy`: the older `put` of `src/commands/put.ts`. It types every
  figure and always saves.
- `Months`: the `yyyy-mm` parser of `--month` and the previous-month
  default.
- `Logging`: the first-line helpers, the stack-trace trimming, the level
  gate and letters, and the `-q`/`-v` level mapping.

## Model

| member | source | states |
|---|---|---|
| Sequences.At | src/command-get.ts:598-600 | an index past the end reads `undefined`; otherwise the element there |
| Sequences.Shift | src/command-get.ts:519-528 | shifting n times drops the first n entries (and an empty list stays empty) |
| Sequences.MapResult | src/command-get.ts:560-562 | `map` with a throwing callback succeeds iff every entry converts, gives the converted entries in order, and otherwise reports the error of the first entry that fails |
| Sequences.MapResultFirstFailure | src/command-get.ts:560-580 | when entry j is the first that fails to convert, the whole map fails with entry j's error |
| OrderedMap.Find | src/cli.ts:1333 | reading `o[k]` gives `undefined` exactly when k was never assigned |
| OrderedMap.Put | src/command-get.ts:633-634 | assigning an existing key keeps the key order; assigning a new key appends it |
| OrderedMap.PutFind | src/command-get.ts:633-634 | after `o[k] = v`, k reads v and every other key reads what it read before |
| OrderedMap.AssignFind | src/cli.ts:728 | after `Object.assign(m, n)`, a key of n reads n's value and any other key reads m's value |
| OrderedMap.AssignKeys | src/cli.ts:728 | `Object.assign` loses no key of the target and keeps keys unique |
| OrderedMap.FromAssignmentsFind | src/command-get.ts:633-642 | assigning keys in row order defines exactly the keys assigned, each once, and a later duplicate key overwrites an earlier one |
| OrderedMap.DefinedFind | src/cli.ts:752 | dropping `undefined` members keeps each defined member under its key and makes the undefined ones absent |
| Decimals.TrimStartSpec | src/command-get.ts:382 | `parseFloat`'s leading trim removes exactly the leading white space |
| Decimals.ParseFloatNaN | src/command-get.ts:382-384 | `parseFloat` gives `NaN` iff, after white space and a sign, the text starts with neither a digit nor a dot followed by a digit |
| Decimals.Tenths | src/cli.ts:1356 | `toFixed(1)` picks the tenths count nearest the magnitude, the larger one on a tie |
| Decimals.Fmt1 | src/cli.ts:1356 | `toFixed(1)` starts with a minus sign iff the number is negative; below 10^21 it ends in a dot and one digit and has no exponent; from 10^21 on it is an exponent form `…e+n` with n at least 21 |
| Decimals.Fmt1Parse | src/cli.ts:1356 | `parseFloat` of a `toFixed(1)` text gives back the number rounded to tenths, and from 10^21 on the number itself |
| Decimals.Fmt1Exact | src/cli.ts:1356 | a number below 10^21 with at most one fractional digit is written exactly and read back exactly; at any size it reads back as the same value |
| Decimals.FixedTextRoundTrip | src/cli.ts:1368-1369 | a text in `toFixed(1)`'s fixed-point form below 10^21, other than "-0.0", survives a `parseFloat` then `toFixed(1)` round trip |
| Decimals.ExpTextRoundTrip | src/cli.ts:1368-1369 | a text in `toFixed(1)`'s exponent form, with or without a minus sign, survives a `parseFloat` then `toFixed(1)` round trip |
| Decimals.ExpTextCanonical | src/cli.ts:1356 | the number read back from an exponent form is written with the same exponent form: the text depends on the value only |
| Decimals.Fmt1PowerOfTen | src/cli.ts:1356 | 10^n for n of at least 21 is written `1e+n`, with its sign |
| Decimals.Fmt1OneAndAHalf | src/cli.ts:1356 | 1.5 times 10^n for n of at least 21 is written `1.5e+n` |
| Decimals.Fmt1RoundsToLimit | src/cli.ts:1356-1369 | a number within 0.05 below 10^21 is written as the fixed-point text of 10^21, which reads back as 10^21 and is then written `1e+21` |
| Decimals.NegativeZeroRoundTrip | src/cli.ts:1368-1369 | "-0.0" is the exception: it reads as zero and is written back as "0.0" |
| Decimals.Fmt1Idempotent | src/cli.ts:1356-1369 | reading a `toFixed(1)` text back and formatting it again gives the same text, unless the number is a negative that rounds to zero or lies within 0.05 below 10^21 |
| JsValues.IsObject | src/utils.ts:277-280 | `isObject` holds iff the value is defined, not `null`, and an object rather than an array or a primitive |
| JsValues.Get | src/cli.ts:1252-1258 | reading a property throws iff the value is `undefined` or `null`; on an object it reads the member, `undefined` when absent |
| JsValues.PropertyKey | src/cli.ts:1265 | a string is its own property key and `undefined` becomes the key "undefined" |
| NumberText.NumberToStringReadsBack | src/cli.ts:1265 | the key a number becomes is read back by `parseFloat` as that same number, in every range |
| NumberText.NumberToStringForm | src/cli.ts:1265 | the key has an exponent part exactly when the magnitude is at least 10^21 or below 10^-6; from 10^21 on it is the text `toFixed(1)` gives as well |
| NumberText.NumberToStringLimit | src/cli.ts:1265 | 10^21 becomes the key "1e+21" |
| NumberText.NumberToStringMillionth | src/cli.ts:1265 | 10^-6 becomes a key without an exponent part |
| NumberText.NumberToStringTenMillionth | src/cli.ts:1265 | 10^-7 becomes the key "1e-7" |
| DatePattern.MatchAtSound | src/command-get.ts:252 | a match found at a position is a date token (1-2 digits, a slash, 1-2 digits, a weekday in parentheses) |
| DatePattern.MatchAtComplete | src/command-get.ts:252 | any date token starting at a position is the one the matcher finds there |
| DatePattern.FindFrom | src/command-get.ts:252 | the search returns the leftmost position at or after its start where a match begins, and none when no position matches |
| DatePattern.FindDateSpec | src/command-get.ts:252-256 | the date found is a token occurring in the text with no token starting further left; no date is found iff no substring is a token |
| DatePattern.FindDateExample | src/command-get.ts:252-256 | "7/27(月)" is found inside a cell that holds other text around it |
| Lookup.XN | src/utils.ts:245-264 | `$xn` returns the handles iff there are exactly n; otherwise the error starts with the caller's message (or the query when there is none) and ends with the expected and actual counts |
| Lookup.X1 | src/utils.ts:266-272 | `$x1` returns the single handle iff exactly one matched, failing with `$xn`'s error for n = 1 otherwise |
| Attendance.CheckTds | src/command-get.ts:224-238 | a row passes iff it has eight cells and its first cell's text is the row's label; a wrong cell count is reported with the actual count |
| Attendance.ReadRow | src/command-get.ts:260-280 | a row is read iff it passes the shape check and all seven day cells convert, giving the seven values left to right |
| Attendance.DateOf | src/command-get.ts:247-257 | a date cell yields the date token found in its text, and no token is an error |
| Attendance.ValueOf | src/command-get.ts:266-279 | a cell without an input is `null`; an input without `value` is an error; otherwise the cell is the attribute's value |
| Attendance.AriaOf | src/command-get.ts:310-323 | a cell without an input is `null`; `aria-checked` must be "true" or "false", and the day is 翌日 iff it is "true" |
| Attendance.YasumiLabel | src/command-get.ts:354-367 | a cell without a label is `null`; the label must be "&nbsp;", 全休, 午前 or 午後, and "&nbsp;" becomes "" |
| Attendance.YasumiSelected | src/commands/get.ts:461-480 | a cell without a selected option is `null`; the option must be "", 全休, 午前 or 午後, and is kept unchanged |
| Attendance.MergeDay | src/command-get.ts:370-393 | a day is `null` iff one of its five values is missing, never partial; the break is converted only for a complete day |
| Attendance.KyukeiNumber | src/command-get.ts:382-390 | the break is accepted iff `parseFloat` does not give `NaN`, and is then that number |
| Attendance.ReadDaysSpec | src/command-get.ts:240-368 | the six rows are read iff every row has its shape and every cell its row's reader accepts, and then each day holds what its column's cells hold |
| Attendance.ParseKinmu | src/command-get.ts:208-214 | a table without exactly six rows is rejected with the row count; an accepted table has seven days |
| Attendance.FirstBadRow | src/command-get.ts:224-230 | rows are checked top to bottom: with every row above accepted, a wrong cell count in a row is the error, whatever the rows below hold |
| Attendance.ParseWeekKinmuSpec | src/command-get.ts:194-396 | the numeric parser accepts exactly the well-shaped tables whose every day is acceptable, and returns per date column the record its cells hold, or `null` when a value is missing |
| Attendance.DayStepRead | src/command-get.ts:240-368 | a day's readers all succeed iff its cells are acceptable, and then the day is complete iff all five of its values are present |
| Attendance.DayStepMerged | src/command-get.ts:370-393 | once a day's cells are read, merging it succeeds iff the break of a present day parses, and gives the expected record |
| Attendance.ParseWeekKinmu010Spec | src/commands/get.ts:298-506 | the string parser accepts exactly the well-shaped tables whose every cell is acceptable, whatever the break holds, and returns each day's texts or `null` |
| Attendance.KyukeiCheckedOnlyWhenPresent | src/command-get.ts:370-386 | a break that is not a number rejects the table in the numeric generation only when its day is present; the string generation never looks at it |
| Hours.CheckAnchor | src/command-get.ts:419-434 | an anchor passes iff the node exists and its text is exactly the expected text |
| Hours.CheckAnchors | src/command-get.ts:493-496 | the four anchors pass iff they read 作業時間, 不明時間, 項目No and 名称 |
| Hours.ReadColumns | src/command-get.ts:560-580 | the day columns `td[7]` to `td[13]` are read iff every cell of each converts, giving each column's converted cells |
| Hours.Entries | src/command-get.ts:598-632 | record i takes entry i of a converted list, `undefined` past its end |
| Hours.ParseHoursAccepts | src/command-get.ts:493-580 | the table is accepted iff its anchors hold and every figure converts; how many figures there are does not matter |
| Hours.ParseHoursTotals | src/command-get.ts:519-528 | record i holds the header totals at position 5 + i (the first five belong to the label columns), `undefined` where the row is short |
| Hours.ParseHoursProjects | src/command-get.ts:633-642 | record i maps exactly the project ids to the column 7 + i figure of the row where the id last occurs, and the id-to-name map likewise |
| Hours.SagyouNumber | src/command-get.ts:501-509 | a work-time total that is "" or 作業時間 becomes -1; otherwise it must parse and is that number |
| Hours.FumeiNumber | src/command-get.ts:510-518 | an unaccounted-time total that is "" or 不明時間 becomes `null`; otherwise it must parse and is that number |
| Hours.ParseWeekJissekiAccepts | src/command-get.ts:493-580 | the numeric generation accepts a table iff the anchors hold, every header total is blank, a label or a number, and every day cell is a number |
| Hours.ParseWeekJissekiTotals | src/command-get.ts:501-528 | day i holds -1 or `null` for a blank or label total, the number otherwise, and `undefined` where the header row is short |
| Hours.ParseWeekJissekiCells | src/command-get.ts:554-642 | day i maps each project id, and no other key, to the number in column 7 + i of the row where the id last occurs |
| Hours.ConvertedCell | src/command-get.ts:554-559 | in a column whose every cell converts, a row's converted figure is the number its cell holds |
| Hours.ParseWeekJisseki010Accepts | src/commands/get.ts:614-617 | the string generation accepts a table iff its four anchors hold |
| Hours.ParseWeekJisseki010Values | src/commands/get.ts:620-753 | the string generation keeps every total and cell as written, at the same positions and with the same last-wins ids as the numeric one |
| GetMonth.Selection | src/cli.ts:683-697 | the visited cells are exactly the selected ones, in increasing calendar order |
| GetMonth.CalendarSelection | src/cli.ts:691-697 | on a month's calendar, a cell is visited iff it is the 1st or a Monday within the month |
| GetMonth.ReadWeek | src/cli.ts:701-712 | a week is read iff each table lookup matches exactly one element and both parsers accept, giving the two parsed tables; a missing or repeated attendance table fails with `$x1`'s error |
| GetMonth.KeptByColumn | src/cli.ts:722-727 | a week contributes one record per attended column, in column order; no `null` day is kept, and each day is paired with its own column's hours |
| GetMonth.WalkSplit | src/cli.ts:683-731 | over a calendar that does not change, the walk reads the selected weeks in calendar order, stops at the first that fails, and merges all of them |
| GetMonth.CalendarWalkSteady | src/cli.ts:683-689 | while every lookup of the calendar finds the cells found before the loop, the loop is the walk over those cells |
| GetMonth.CalendarWalkShrinks | src/cli.ts:683-689 | when the lookup before step k finds fewer than k + 1 cells, the loop is the walk over the first k cells and then throws a `TypeError`, unless a week failed first |
| GetMonth.MergeAllRecords | src/cli.ts:722-727 | the merged days are those gathered before, then each week's kept days in visit order |
| GetMonth.MergeAllProjects | src/cli.ts:728 | a project's name is the one the last week listing it gave, or the earlier name if no week lists it |
| GetMonth.WeekSeven | src/cli.ts:714-726 | in a week with seven days and seven hour records, every attended day is kept together with its hours |
| GetMonth.ReadWeekNumericSeven | src/command-get.ts:598-644 | a week the numeric generation reads has seven days, seven hour records, and unique project ids |
| GetMonth.KousuFields | src/cli.ts:726 | a merged day has the six attendance members in order, then `sagyou`, `fumei` and `jisseki` when it has hours |
| GetMonth.Document | src/cli.ts:746-755 | the file has exactly the members `version`, `projects` and `jissekis` in that order, and `jissekis` holds the merged days in order |
| CsvExport.ReplaceFirst | src/commands/get.ts:179 | `replace('"', '""')` doubles the first double quote and keeps everything before and after it; a value without one is unchanged |
| CsvExport.QuoteFirstReadsBack | src/commands/get.ts:193 | the source's quoting of a value reads back as that value iff the value has at most one double quote |
| CsvExport.QuoteFirstAgrees | src/commands/get.ts:193 | the source's quoting equals RFC 4180 quoting, and reads back, for a value with at most one double quote |
| CsvExport.QuoteFirstBreaks | src/commands/get.ts:193 | the value `""` is written as five double quotes, which an RFC 4180 reader rejects |
| CsvExport.UnescapeEscape | src/commands/get.ts:193 | undoing the doubling of every quote gives the value back |
| CsvExport.EscapeUnescape | src/commands/get.ts:193 | a quoted field's inside that reads back as a value is that value with every quote doubled |
| CsvExport.QuoteAllRoundTrip | src/commands/get.ts:193 | a field reads back as a value iff it is the RFC 4180 quoting of that value |
| CsvExport.UnquoteOnly | src/commands/get.ts:193 | only the RFC 4180 quoting of a value reads back as that value |
| CsvExport.QuoteAllUndone | src/commands/get.ts:193 | an RFC 4180 reader undoes RFC 4180 quoting of every value |
| CsvExport.Field | src/commands/get.ts:193 | an undefined value throws; a defined one is quoted |
| CsvExport.Fields | src/commands/get.ts:193 | a list of values is written iff every value is defined, each one quoted in place |
| CsvExport.FieldsReadBack | src/commands/get.ts:193 | with a reader that undoes the quoting, every written field reads back as its value |
| CsvExport.HeaderValues | src/commands/get.ts:168-178 | the header has the eight column names, then one value per project id |
| CsvExport.HeaderNames | src/commands/get.ts:178 | each project's column is headed by that project's name |
| CsvExport.FigureOf | src/commands/get.ts:191 | a day's figure for a project is its `jisseki` entry, `undefined` when there is none |
| CsvExport.RowValues | src/commands/get.ts:182-192 | a row is the date, begin, end, 翌日 as "true"/"false", break and holiday, then the two totals and each project's figure in header order; reading figures off a day without hours throws |
| CsvExport.DateField | src/commands/get.ts:183 | the first field of a written row is the day's date, quoted |
| CsvExport.Csv | src/commands/get.ts:166-195 | a written table has the header row plus one row per day |
| CsvExport.CsvAccepts | src/commands/get.ts:166-195 | the table is written iff every project has a name and every day has all its values |
| CsvExport.HeaderAccepts | src/commands/get.ts:168-179 | the header is written iff every project has a name |
| CsvExport.RowsAccept | src/commands/get.ts:181-195 | the rows are written iff every day has all its values |
| CsvExport.RowAccepts | src/commands/get.ts:181-194 | a day's row is written iff it has all its values |
| CsvExport.CsvRows | src/commands/get.ts:166-195 | a written table is the header's fields, then each day's row in order |
| CsvExport.RowReadsBack | src/commands/get.ts:181-194 | with a reader that undoes the quoting, a written row reads back as the day's values |
| CsvExport.CsvReadsBack | src/commands/get.ts:166-195 | with a reader that undoes the quoting, the header reads back as the column and project names and each row as its day's values |
| CsvExport.QuotedDayWritten | src/commands/get.ts:181-194 | a day dated `""` is written whatever the quoting, its date field first |
| CsvExport.CsvAsWrittenBreaks | src/commands/get.ts:193 | with the source's quoting, that day's date field reads back as nothing; with RFC 4180 quoting it reads back as `""` |
| PutMonth.ValidateTop | src/cli.ts:1245-1260 | reading `version` off a top-level `null` throws the language's error |
| PutMonth.GetMember | src/cli.ts:1252-1258 | reading `version`, `projects` or `jissekis` off a value that is not `null` is a plain member lookup |
| PutMonth.ValidateTopOrder | src/cli.ts:1247-1258 | a file is accepted iff it passes all six checks; otherwise the error is that of the first failed check, in the source's order; an accepted file is in the older format iff its version is "0.1.0" |
| PutMonth.GetOutputAccepted | src/cli.ts:746-755 | the file `get` writes passes the checks as a current-format file holding the gathered days |
| PutMonth.DateKey | src/cli.ts:1265 | reading `date` off a record throws iff the record is `null` |
| PutMonth.DateKeyOfString | src/cli.ts:1265 | a record with a string date is filed under that date |
| PutMonth.DateIndex | src/cli.ts:1262-1273 | indexing by date succeeds iff no record is `null` |
| PutMonth.DateIndexLastWins | src/cli.ts:1262-1273 | a date is found iff some record is filed under it, and then the index holds the last such record |
| PutMonth.TargetReadsBack | src/cli.ts:1356 | a number's target text reads back as the number rounded to tenths, and from 10^21 on as the number itself |
| PutMonth.Jobs | src/cli.ts:1332-1343 | the (date, project) jobs are distinct and in range |
| PutMonth.JobsComplete | src/cli.ts:1332-1343 | every (date column, project row) pair has its job |
| PutMonth.CellHandles | src/cli.ts:1362-1366 | `$x1` of a cell's query finds exactly one element iff the grid has that cell |
| PutMonth.Decide | src/cli.ts:1344-1372 | a job succeeds iff its target is determined and, when there is one, its cell exists; it edits iff the cell's text differs from the target, at the project's row and the date's column, typing the target |
| PutMonth.Reconcile | src/cli.ts:1332-1391 | the jobs of a week produce only edits |
| PutMonth.ReconcileEdits | src/cli.ts:1332-1391 | every edit of a run of jobs is the decision of one of those jobs |
| PutMonth.ReconcileCells | src/cli.ts:1362-1366 | every edit of a run of jobs is at the cell of one of them |
| PutMonth.ReconcileDecided | src/cli.ts:1332-1391 | a week that ran to the end decided every job without throwing |
| PutMonth.PutWeek | src/cli.ts:1318-1329 | a first row without eight cells stops the week with `$xn`'s error and no action |
| PutMonth.PutWeekEdits | src/cli.ts:1331-1398 | the edits of a week are those of its jobs, and a week with an edit had a well-formed first row |
| PutMonth.DecidedEdit | src/cli.ts:1361-1372 | an edit is at its job's cell, that cell exists and shows a different text, and the text typed is the job's target |
| PutMonth.PutWeekDecided | src/cli.ts:1331-1391 | every edit of a week was decided by one of its jobs |
| PutMonth.PutWeekMinimal | src/cli.ts:1361-1372 | a week edits only cells whose text differs from their target, each at tbody row p + 1 and column d + 7 of a date found in the index |
| PutMonth.PutWeekSaves | src/cli.ts:1393-1398 | a week that runs to the end is saved iff it edited something, exactly once and last |
| PutMonth.ReconcileSettles | src/cli.ts:1361-1375 | after a week's edits every cell with a target shows that target |
| PutMonth.ReconcileQuiet | src/cli.ts:1369-1371 | a week whose cells all show their targets produces no action |
| PutMonth.JobQuiet | src/cli.ts:1369-1371 | after a week's edits, deciding any of its jobs again edits nothing |
| PutMonth.PutWeekIdempotent | src/cli.ts:1331-1398 | once a week's edits are made, putting the same file again edits nothing and saves nothing |
| PutMonth.CalendarWeekWalkSteady | src/cli.ts:1298-1304 | while every lookup of the calendar finds the cells found before the loop, the loop is the walk over those cells |
| PutMonth.CalendarWeekWalkShrinks | src/cli.ts:1298-1304 | when the lookup before step k finds fewer than k + 1 cells, the loop does what the walk over the first k cells does and then throws a `TypeError`, unless a week threw first |
| PutMonth.WeekWalkSkip | src/cli.ts:1306-1312 | a calendar cell that is not selected adds nothing to the trace |
| PutMonth.WeekWalkSettled | src/cli.ts:1299-1400 | when every selected week is settled, the walk is one visit per selected cell, in order, with no error |
| PutMonth.PutWalkSettled | src/cli.ts:1299-1400 | when the calendar does not change and every week already shows the file's figures, `put` only visits: no edit and no save |
| PutLegacy.LegacyItems | src/commands/put.ts:59-74 | the file is accepted iff its version is exactly "0.1.0" and `jissekis` is an array; a wrong version gives the source's message with the actual value |
| PutLegacy.LegacyVersionExponent | src/commands/put.ts:63-65 | a numeric version of 10^21 is reported as Number::toString writes it: `actual "1e+21"` |
| PutLegacy.LegacyIndex | src/commands/put.ts:53-74 | `--in-csv` is refused before the file is read; otherwise the records are indexed by date as the current `put` does |
| PutLegacy.LegacyDecide | src/commands/put.ts:155-173 | a project without a figure is skipped; otherwise its cell must exist and the figure, which must be a string, is typed whatever the cell shows |
| PutLegacy.LegacyReconcile | src/commands/put.ts:139-185 | the jobs of a week produce only edits |
| PutLegacy.LegacyPut | src/commands/put.ts:53-57 | a `--in-csv` flag stops the command before any action |
| PutLegacy.LegacyWeek | src/commands/put.ts:122-129 | a first row without eight cells stops the week with `$xn`'s error and no action |
| PutLegacy.LegacyWeekSaves | src/commands/put.ts:187-192 | a week that runs to the end is always saved, exactly once and last, even with nothing typed |
| PutLegacy.LegacyTypesEvery | src/commands/put.ts:161-183 | every job with a figure has that figure typed into its cell, with no comparison |
| PutLegacy.LegacyTypesOnly | src/commands/put.ts:139-183 | nothing else is typed: every edit is some job's figure |
| PutLegacy.LegacyWeekTypes | src/commands/put.ts:139-192 | in a week that runs to the end, every figure is typed and the week is saved |
| PutLegacy.QuietCellShows | src/cli.ts:1369-1371 | a cell the current `put` leaves alone already shows the string figure the older format holds |
| PutLegacy.PutWeekQuiet | src/cli.ts:1393-1396 | a week whose every job leaves its cell alone is left alone, without a save |
| PutLegacy.LegacyRetypesSettled | src/commands/put.ts:161-192 | on a week that already shows every figure, the current `put` does nothing, while the older one types each figure again and saves |
| Months.ParseMonth | src/index.ts:40-55 | a text is accepted iff it matches `^\d{4}-\d{2}$`, giving the decimal year and month with no range check; otherwise the option's message |
| Months.ParseFormatMonth | src/index.ts:40-55 | formatting a year and month as `yyyy-mm` and parsing it gives them back |
| Months.FormatParseMonth | src/index.ts:40-55 | parsing then formatting gives the text back: the parser loses nothing |
| Months.MonthNotRangeChecked | src/index.ts:40-55 | "2006-13" is accepted as year 2006, month 13 |
| Months.MonthFlag | src/utils.ts:104-123 | the month flag accepts the same texts, sets the same year and month, and returns the text unchanged |
| Months.DaysInMonth | src/cli.ts:47-50 | the month before has 28 to 31 days, with 29 in February iff the year is a Gregorian leap year |
| Months.ConstructorYear | src/cli.ts:41 | `new Date` reads a year from 0 to 99 as 1900 to 1999 and keeps any other year |
| Months.PrevMonthOf | src/cli.ts:36-42 | the previous month is one month before the clock's, January going back to December of the year before |
| Months.IsoYear | src/cli.ts:41 | `toISOString` writes a year from 0 to 9999 in four digits, and any other year with a sign and six digits |
| Months.PrevMonthParses | src/cli.ts:36-57 | the default month parses back as the previous month when its year has four digits |
| Months.PrevMonthExtendedYear | src/cli.ts:36-57 | a previous month whose year is outside 0 to 9999 yields a default that the month parser rejects |
| Months.PrevMonthFirstLast | src/cli.ts:36-50 | the first and last days of the previous month share its `yyyy-mm` part; they are day 01 and the month's day count |
| Months.NotMonthText | src/index.ts:40-44 | a text that does not start with a digit is rejected |
| Logging.IndexOf | src/logger.ts:36 | `indexOf` gives -1 iff the character is absent, and otherwise its first position |
| Logging.FirstLine | src/logger.ts:35-43 | the first line is a prefix of the text and holds no line feed |
| Logging.RemoveFirstLine | src/logger.ts:45-49 | the rest after the first line is strictly shorter than a non-empty text |
| Logging.LinesSplit | src/logger.ts:35-49 | a text without a line feed is all first line with no rest; otherwise it is the first line, "\n" or "\r\n", then the rest |
| Logging.StackTraceStack | src/logger.ts:17-33 | an undefined stack gives `null`; otherwise the result is shorter than the stack (or both are empty), so the loop terminates |
| Logging.TrimStackFound | src/logger.ts:23-26 | the result is what follows the first line that reads exactly "Error" |
| Logging.TrimStackNotFound | src/logger.ts:27-31 | the result is "" when no line reads exactly "Error" |
| Logging.EmitsMonotone | src/logger.ts:69-76 | a more verbose logger writes everything a less verbose one writes; a silent one writes no real level; the default one writes errors and warnings only |
| Logging.LevelLetter | src/logger.ts:78-84 | each real level has a one-letter tag, and only a level without one gets "[?]" |
| Logging.LevelLetterInjective | src/logger.ts:78-84 | distinct levels are shown with distinct letters |
| Logging.VerbosityCounts | src/index.ts:36-38 | the value of `-v` is the number of times it was given |
| Logging.ConfigureLogging | src/cli.ts:439-459 | `-q` with `-v` is refused (commander's `conflicts`), which ends the program with status 1; otherwise the level is `Error` iff `-q` was given. `src/index.ts:211-224` makes the same choice with log4js level names |
| Logging.ConfigureLoggingMonotone | src/cli.ts:450-459 | without `-q`: no `-v` gives `Warn`, one gives `Info`, two or more give `Debug`, and more `-v` never makes the logger quieter; `src/index.ts:216-224` maps the counts the same way |

## Left out

- The browser: puppeteer launch and connect, login, cookies, the loading
  waits, `sleep`, and the year/month selection. They are I/O against a
  library outside the model. The page shown after a click is an oracle
  parameter (`render`).
- HTML parsing and XPath (xmldom, jsdom, xpath). A table is given already
  parsed as rows of cells.
- The `thead`/`tbody` existence of the hours table. The model takes both
  tables already parsed. In the source, a missing `thead` makes the xpath
  library throw a TypeError at the first `assertText`
  (`src/command-get.ts:493`). A missing `tbody` leaves the absolute anchor
  paths passing, and the xpath library throws a TypeError at the first
  lookup relative to `tbody` (`src/command-get.ts:549`). Neither is the
  KousuError that `Hours.CheckAnchor` reports.
- The length-mismatch error logs. The source only logs them and carries on
  (`src/cli.ts:714-719`, `src/command-get.ts:539-547` and `583-596`).
- The commit click after typing a figure (`src/cli.ts:1378-1387`) and the
  Tab key of the older `put`. They are part of the single `Edit` action.
- The project list is read again for every date of a week. The model takes
  it as fixed for the week, because nothing between two reads changes it.
- `render` does not reflect edits made in earlier weeks. Each week is shown
  as the oracle gives it.
- `page.keyboard.type` with a figure that is not a string is modelled as a
  `TypeError` (`PutLegacy.LegacyDecide`). What puppeteer does with it is
  outside the model.
- Prototype properties and `__proto__`. Only own properties of parsed JSON
  are read.
- JavaScript's ordering of array-index-like object keys ("12" listed
  before "a"). Objects keep insertion order.
- JSON text layout: indentation and line breaks. `GetMonth.Document` is the
  value the text denotes.
- CSV column padding via `string-width` and the joining of fields into
  lines (`src/commands/get.ts:197-215`).
- Time zones, daylight saving time and the `Date` range limits. The clock
  is a year and a zero-based month.
- UTF-16 code units. Strings are sequences of characters.
- Binary floating point: `Infinity`, rounding of `parseFloat`, and
  `toFixed` on values not exactly representable. Numbers are exact
  decimals.
- Decimals.Fmt1: from 10^21 on, the exponent form shows every significant
  digit of the exact number. JavaScript shows the fewest digits that
  identify the double, which differ once the number has more than 17
  significant digits. That is the binary floating point left out above.
- Decimals.FixedTextRoundTrip: covers fixed-point texts below 10^21 only.
  An exact number within 0.05 below 10^21 is written as the fixed-point
  text of 10^21, which reads back as 10^21 and is then written `1e+21`
  (`Decimals.Fmt1RoundsToLimit`). No double lies in that interval, so
  JavaScript never writes that text.
- Decimals.Fmt1Idempotent: excludes the same interval below 10^21, for the
  same reason.
- What a lookup of the calendar finds while the page redraws. It is an
  oracle parameter (`reread`).
- `GetMonth.InnerTextUndefined`: in the older generation the error is
  thrown inside the page, and puppeteer reports it wrapped in its own
  error. The wrapping is not modelled.
- The `Queue` helper, commander and oclif wiring, and `process.exit`
  plumbing other than the `-q`/`-v` exit status.
- Both import-kinmu commands. They only click; their week selection is the
  one modelled in `GetMonth`.
- The `isNaN` branches of the month parsers. The regular expression
  guarantees digits, so they cannot be reached (`Months.ParseMonth` never
  fails on a matching text).
- CsvExport.CsvAccepts: requires the project ids to be unique, which every
  JavaScript object guarantees.
- PutMonth.Target: has no contract of its own. Its number branch is
  stated in `PutMonth.TargetReadsBack`; its other branches (no figure, a
  string in the older format, a throw otherwise) are not stated apart
  from the function.
- Reading the input file and `JSON.parse` (`src/cli.ts:1246`,
  `src/commands/put.ts:60-62`): the file is given as its parsed value. A
  missing file or malformed JSON throws before the first check.
- Decimals.ParseFloatNaN: `parseFloat` reads the literal `Infinity`, with
  or without a sign, as an infinity; here it is `NaN`, because exact
  decimals have no infinity.
- Attendance.KyukeiNumber: rejects a break cell reading "Infinity", which
  the source accepts; see `Decimals.ParseFloatNaN`.
- Hours.SagyouNumber: rejects an hours cell reading "Infinity", which the
  source accepts; see `Decimals.ParseFloatNaN`.
- Hours.FumeiNumber: rejects an hours cell reading "Infinity", which the
  source accepts; see `Decimals.ParseFloatNaN`.
- PutMonth.ValidateTop: the `null` case is stated on the function; the
  six checks and their order are stated in `PutMonth.ValidateTopOrder`.

## Findings

| source | as written | input that shows it | evidently intended | confidence | as-written member | corrected member |
|---|---|---|---|---|---|---|
| src/commands/get.ts:193 | `value.replace('"', '""')` doubles only the first double quote of a CSV value | a day whose date (or any value) is `""`: it is written as five double quotes, which no RFC 4180 reader accepts | every double quote doubled, as section 2 of RFC 4180 prescribes, so that each field reads back as its value | not executed | CsvExport.CsvAsWrittenBreaks | CsvExport.QuoteAllRoundTrip |
