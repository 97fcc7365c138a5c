/** The string helpers of the logger (first line of a text, the text after
    it, the trimming of a stack trace) and the level gate that decides which
    messages are written. Output formatting (timestamps, caller lookup,
    colours, the stderr write) is not modelled.
 */
module Logging {
  import opened Wrappers

  // ---------------------------------------------------------------- lines

  /** `s.indexOf(c)`: the first index of `c` in `s`, or -1. */
  function IndexOf(s: string, c: char): (i: int)
    ensures i >= -1
    ensures i == -1 <==> c !in s
    ensures i >= 0 ==> i < |s| && s[i] == c && c !in s[..i]
  {
    if s == [] then -1
    else if s[0] == c then 0
    else
      var j := IndexOf(s[1..], c);
      if j == -1 then -1
      else
        assert s[..j + 1] == [s[0]] + s[1..][..j];
        j + 1
  }

  /** `stringFirstLine`: the text before the first line feed, without a
      carriage return that immediately precedes it; the whole text when there
      is no line feed. */
  function FirstLine(s: string): (r: string)
    ensures r <= s && '\n' !in r
  {
    var i := IndexOf(s, '\n');
    if i == -1 then s
    else if i == 0 then ""
    else if s[i - 1..i] == "\r" then s[..i - 1]
    else s[..i]
  }

  /** `stringRemoveFirstLine`: the text after the first line feed; "" when
      there is none. */
  function RemoveFirstLine(s: string): (r: string)
    ensures |r| <= |s|
    ensures s != [] ==> |r| < |s|
  {
    var i := IndexOf(s, '\n');
    if i == -1 then "" else s[i + 1..]
  }

  /** A text is its first line, the line terminator ("\n", or "\r\n" when the
      line ends with a carriage return) and the remaining lines; a text
      without a line feed is all first line and has no remainder. */
  lemma LinesSplit(s: string)
    ensures '\n' !in s ==> FirstLine(s) == s && RemoveFirstLine(s) == ""
    ensures '\n' in s ==>
      var eol := if s[|FirstLine(s)|] == '\r' then "\r\n" else "\n";
      s == FirstLine(s) + eol + RemoveFirstLine(s)
  {
    if '\n' in s {
      var i := IndexOf(s, '\n');
      if i > 0 && s[i - 1..i] == "\r" {
        assert s == s[..i - 1] + "\r\n" + s[i + 1..];
      } else {
        assert s == s[..i] + "\n" + s[i + 1..];
      }
    }
  }

  // ---------------------------------------------------------------- stack traces

  /** The loop of `stackTraceStack` on a defined stack: drop lines until the
      first line is exactly "Error", then return what follows it; "" when the
      text runs out first. */
  function TrimStack(s: string): string
    decreases |s|
  {
    if FirstLine(s) == "Error" then RemoveFirstLine(s)
    else
      var t := RemoveFirstLine(s);
      if t == "" then "" else TrimStack(t)
  }

  /** `stackTraceStack`: `null` (here `None`) for an undefined stack. */
  function StackTraceStack(stack: Option<string>): (r: Option<string>)
    ensures r.None? <==> stack.None?
    ensures stack.Some? ==> |r.value| < |stack.value| || stack.value == r.value == ""
  {
    match stack
    case None => None
    case Some(s) => TrimStackShorter(s); Some(TrimStack(s))
  }

  lemma {:induction false} TrimStackShorter(s: string)
    ensures |TrimStack(s)| < |s| || s == TrimStack(s) == ""
    decreases |s|
  {
    if FirstLine(s) != "Error" {
      var t := RemoveFirstLine(s);
      if t != "" {
        TrimStackShorter(t);
      }
    }
  }

  /** `j` is where a line of `s` begins. */
  predicate LineStart(s: string, j: int) {
    0 <= j <= |s| && (j == 0 || s[j - 1] == '\n')
  }

  /** A line of `s` beginning at `j` reads exactly "Error". */
  predicate ErrorLineAt(s: string, j: int) {
    LineStart(s, j) && ReadsError(s[j..])
  }

  /** A text whose first line reads exactly "Error". */
  predicate ReadsError(u: string) {
    FirstLine(u) == "Error"
  }

  lemma LineStartsAfterFirst(s: string, j: int)
    requires '\n' in s
    ensures var i := IndexOf(s, '\n');
      0 < j <= |s| ==> (LineStart(s, j) <==> j >= i + 1 && LineStart(s[i + 1..], j - i - 1))
  {
    var i := IndexOf(s, '\n');
    if 0 < j <= |s| && j > i + 1 {
      assert s[i + 1..][j - i - 2] == s[j - 1];
    }
  }

  lemma DropDrop(s: string, a: nat, b: nat)
    requires a + b <= |s|
    ensures s[a..][b..] == s[a + b..]
  {
  }

  /** A line of `s` past its first line is a line of the text after its
      first line feed, shifted by the first line's length. */
  lemma ErrorLineShiftAt(s: string, j: int)
    requires '\n' in s && 0 < j <= |s|
    ensures var i := IndexOf(s, '\n');
      ErrorLineAt(s, j) <==> j >= i + 1 && ErrorLineAt(RemoveFirstLine(s), j - i - 1)
  {
    var i := IndexOf(s, '\n');
    var t := RemoveFirstLine(s);
    assert t == s[i + 1..];
    LineStartsAfterFirst(s, j);
    if j >= i + 1 {
      DropDrop(s, i + 1, j - i - 1);
      assert t[j - i - 1..] == s[j..];
      assert LineStart(s, j) == LineStart(t, j - i - 1);
    } else {
      assert !LineStart(s, j);
    }
  }

  /** When the text after the first line is empty, only the first line can
      read "Error". */
  lemma OnlyFirstLine(s: string)
    requires RemoveFirstLine(s) == ""
    ensures forall j :: 0 < j ==> !ErrorLineAt(s, j)
  {
    if '\n' in s {
      forall j | 0 < j <= |s| ensures !ErrorLineAt(s, j) {
        ErrorLineShiftAt(s, j);
        assert FirstLine(""[0..]) == "";
      }
    } else {
      forall j | 0 < j <= |s| ensures !LineStart(s, j) {
        assert s[j - 1] in s;
      }
    }
  }

  lemma NotFoundStep(s: string)
    requires forall j :: !ErrorLineAt(s, j)
    requires '\n' in s
    ensures forall k :: !ErrorLineAt(RemoveFirstLine(s), k)
  {
    var i := IndexOf(s, '\n');
    var t := RemoveFirstLine(s);
    forall k | 0 <= k <= |t| ensures !ErrorLineAt(t, k) {
      ErrorLineShiftAt(s, k + i + 1);
      assert !ErrorLineAt(s, k + i + 1);
    }
  }

  lemma FoundStep(s: string, j: int)
    requires ErrorLineAt(s, j) && j > 0
    requires forall k :: 0 <= k < j ==> !ErrorLineAt(s, k)
    requires '\n' in s
    ensures var i := IndexOf(s, '\n');
      var t := RemoveFirstLine(s);
      j >= i + 1 && ErrorLineAt(t, j - i - 1) && s[j..] == t[j - i - 1..]
      && forall k :: 0 <= k < j - i - 1 ==> !ErrorLineAt(t, k)
  {
    var i := IndexOf(s, '\n');
    var t := RemoveFirstLine(s);
    ErrorLineShiftAt(s, j);
    forall k | 0 <= k < j - i - 1 ensures !ErrorLineAt(t, k) {
      ErrorLineShiftAt(s, k + i + 1);
      assert !ErrorLineAt(s, k + i + 1);
    }
    DropDrop(s, i + 1, j - i - 1);
  }

  /** `stackTraceStack` returns what follows the first line that reads
      exactly "Error". */
  lemma {:induction false} TrimStackFound(s: string, j: int)
    requires ErrorLineAt(s, j)
    requires forall k :: 0 <= k < j ==> !ErrorLineAt(s, k)
    ensures TrimStack(s) == RemoveFirstLine(s[j..])
    decreases |s|
  {
    assert s[0..] == s;
    if j > 0 {
      assert !ErrorLineAt(s, 0);
      var t := RemoveFirstLine(s);
      if t == "" {
        OnlyFirstLine(s);
      } else {
        var i := IndexOf(s, '\n');
        FoundStep(s, j);
        TrimStackFound(t, j - i - 1);
      }
    }
  }

  /** `stackTraceStack` returns "" when no line reads exactly "Error". */
  lemma {:induction false} TrimStackNotFound(s: string)
    requires forall j :: !ErrorLineAt(s, j)
    ensures TrimStack(s) == ""
    decreases |s|
  {
    assert s[0..] == s;
    assert !ErrorLineAt(s, 0);
    var t := RemoveFirstLine(s);
    if t != "" {
      NotFoundStep(s);
      TrimStackNotFound(t);
    }
  }

  // ---------------------------------------------------------------- levels

  /** The logger levels, least to most verbose. */
  datatype Level = Silent | Error | Warn | Info | Debug

  function Rank(l: Level): (n: nat)
    ensures n <= 4
  {
    match l
    case Silent => 0
    case Error => 1
    case Warn => 2
    case Info => 3
    case Debug => 4
  }

  /** A new logger's level. */
  const DefaultLevel: Level := Warn

  /** `_log` writes a message unless the logger's level is below the
      message's. */
  predicate Emits(logger: Level, message: Level) {
    !(Rank(logger) < Rank(message))
  }

  /** A more verbose logger writes everything a less verbose one writes; a
      silent logger writes no message of a real level; the default logger
      writes errors and warnings only. */
  lemma EmitsMonotone(a: Level, b: Level, m: Level)
    requires Rank(a) <= Rank(b) && Emits(a, m)
    ensures Emits(b, m)
    ensures m != Silent ==> !Emits(Silent, m)
    ensures Emits(DefaultLevel, m) <==> m in {Silent, Error, Warn}
  {
  }

  /** The letter shown in a written message: "[?]" for a level without one. */
  function LevelLetter(l: Level): (r: string)
    ensures l == Silent <==> r == "[?]"
    ensures l != Silent ==> |r| == 1
  {
    match l
    case Error => "E"
    case Warn => "W"
    case Info => "I"
    case Debug => "D"
    case Silent => "[?]"
  }

  /** Distinct levels are shown with distinct letters. */
  lemma LevelLetterInjective(a: Level, b: Level)
    requires LevelLetter(a) == LevelLetter(b)
    ensures a == b
  {
  }

  // ---------------------------------------------------------------- flags

  /** `increaseVerbosity`, the argument parser of `-v`: called with the
      option's previous value each time the flag occurs. */
  function IncreaseVerbosity(previous: int): int {
    previous + 1
  }

  /** The value of `-v` after `n` occurrences, starting from the default 0. */
  function Verbosity(n: nat): int {
    if n == 0 then 0 else IncreaseVerbosity(Verbosity(n - 1))
  }

  /** `-v` counts its occurrences. */
  lemma {:induction false} VerbosityCounts(n: nat)
    ensures Verbosity(n) == n
  {
    if n > 0 {
      VerbosityCounts(n - 1);
    }
  }

  /** The logger level chosen from `-q` and the `-v` count; `-q` together
      with `-v` is a conflict of options, which ends the program with
      status 1. */
  function ConfigureLogging(quiet: bool, verbose: nat): (r: Result<Level, nat>)
    ensures r.Failure? <==> quiet && verbose > 0
    ensures r.Failure? ==> r.error == 1
    ensures r.Success? ==> (r.value == Error <==> quiet)
  {
    if quiet && verbose > 0 then Failure(1)
    else if quiet then Success(Error)
    else if verbose == 0 then Success(Warn)
    else if verbose == 1 then Success(Info)
    else Success(Debug)
  }

  /** More `-v` never makes the logger quieter, and without `-q` or `-v` the
      level is the default one. */
  lemma ConfigureLoggingMonotone(v: nat, w: nat)
    requires v <= w
    ensures Rank(ConfigureLogging(false, v).value) <= Rank(ConfigureLogging(false, w).value)
    ensures ConfigureLogging(false, 0) == Success(DefaultLevel)
    ensures Rank(ConfigureLogging(false, v).value) == if v >= 2 then 4 else v + 2
  {
  }
}
