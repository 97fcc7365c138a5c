/** The date of an attendance column: the first substring of the cell text
    matching `(\d\d?)\/(\d\d?)\((月|火|水|木|金|土|日)\)`, as `String.prototype.match`
    finds it (`match[0]`). The pattern is matched by hand here; its tokens
    are characterised by `IsDateToken`.
 */
module DatePattern {
  import opened Wrappers
  import opened Decimals

  predicate IsWeekday(c: char) {
    c == '月' || c == '火' || c == '水' || c == '木' || c == '金' || c == '土' || c == '日'
  }

  /** One or two ASCII digits: `\d\d?`. */
  predicate IsDayNumber(s: string) {
    1 <= |s| <= 2 && AllDigits(s)
  }

  /** `t` is the month part (`a` digits), a slash, the day part, and a
      weekday in parentheses. */
  predicate TokenWith(t: string, a: nat) {
    a + 5 <= |t| && IsDayNumber(t[..a]) && t[a] == '/' && IsDayNumber(t[a + 1..|t| - 3])
    && t[|t| - 3] == '(' && IsWeekday(t[|t| - 2]) && t[|t| - 1] == ')'
  }

  /** `t` is a whole match of the date pattern. */
  predicate IsDateToken(t: string) {
    TokenWith(t, 1) || TokenWith(t, 2)
  }

  /** The number of digits, at most two, at position `p`: what the greedy
      `\d\d?` consumes. */
  function DigitRun(s: string, p: nat): (n: nat)
    requires p <= |s|
    ensures n <= 2 && p + n <= |s|
    ensures forall i :: p <= i < p + n ==> IsDigit(s[i])
    ensures n < 2 ==> p + n == |s| || !IsDigit(s[p + n])
  {
    if p < |s| && IsDigit(s[p]) then (if p + 1 < |s| && IsDigit(s[p + 1]) then 2 else 1) else 0
  }

  /** The length of the match starting at `p`, if there is one. Giving back
      a digit (the other choice of `\d\d?`) never helps: the character after
      a run is then a digit, which is neither `/` nor `(`. */
  function MatchAt(s: string, p: nat): (r: Option<nat>)
    requires p <= |s|
    ensures r.Some? ==> p + r.value <= |s|
  {
    var a := DigitRun(s, p);
    if a == 0 || p + a >= |s| || s[p + a] != '/' then None
    else
      var b := DigitRun(s, p + a + 1);
      var w := p + a + 1 + b;
      if b == 0 || w + 3 > |s| || s[w] != '(' || !IsWeekday(s[w + 1]) || s[w + 2] != ')' then None
      else Some(w + 3 - p)
  }

  /** A match found at `p` is a token. */
  lemma MatchAtSound(s: string, p: nat)
    requires p <= |s| && MatchAt(s, p).Some?
    ensures IsDateToken(s[p..p + MatchAt(s, p).value])
  {
    var a := DigitRun(s, p);
    var b := DigitRun(s, p + a + 1);
    var w := p + a + 1 + b;
    var t := s[p..w + 3];
    assert |t| == a + b + 4;
    assert t[..a] == s[p..p + a];
    assert IsDayNumber(t[..a]);
    var m := t[a + 1..|t| - 3];
    assert m == s[p + a + 1..w];
    assert forall i :: 0 <= i < |m| ==> m[i] == s[p + a + 1 + i];
    assert IsDayNumber(m);
    assert t[a] == s[p + a] && t[|t| - 3] == s[w] && t[|t| - 2] == s[w + 1] && t[|t| - 1] == s[w + 2];
    assert TokenWith(t, a);
  }

  /** Any token starting at `p` is the one `MatchAt` finds: at each position
      the pattern matches at most one substring. */
  lemma MatchAtComplete(s: string, p: nat, q: nat)
    requires p <= q <= |s| && IsDateToken(s[p..q])
    ensures MatchAt(s, p) == Some(q - p)
  {
    var t := s[p..q];
    var a := if TokenWith(t, 1) then 1 else 2;
    assert TokenWith(t, a);
    assert forall i :: 0 <= i < |t| ==> t[i] == s[p + i];
    assert t[..a][0] == s[p];
    assert DigitRun(s, p) == a by {
      if a == 2 {
        assert t[..a][1] == s[p + 1];
      }
    }
    var b := |t| - a - 4;
    var m := t[a + 1..|t| - 3];
    assert |m| == b;
    assert m[0] == s[p + a + 1];
    assert DigitRun(s, p + a + 1) == b by {
      if b == 2 {
        assert m[1] == s[p + a + 2];
      }
    }
  }

  /** The leftmost position at or after `p` where a match starts. */
  function FindFrom(s: string, p: nat): (r: Option<nat>)
    requires p <= |s|
    ensures r.Some? ==> p <= r.value <= |s| && MatchAt(s, r.value).Some?
    ensures r.Some? ==> forall i :: p <= i < r.value ==> MatchAt(s, i).None?
    ensures r.None? ==> forall i :: p <= i <= |s| ==> MatchAt(s, i).None?
    decreases |s| - p
  {
    if MatchAt(s, p).Some? then Some(p)
    else if p == |s| then None
    else FindFrom(s, p + 1)
  }

  /** `text.match(pattern)?.[0]`: the leftmost match, `None` for `null`. */
  function FindDate(s: string): (r: Option<string>)
  {
    var p :- FindFrom(s, 0);
    Some(s[p..p + MatchAt(s, p).value])
  }

  /** `FindDate` returns a token that occurs in the text, with no token
      starting further left; it fails exactly when no substring is a token. */
  lemma FindDateSpec(s: string)
    ensures FindDate(s).None? <==> forall i, j :: 0 <= i <= j <= |s| ==> !IsDateToken(s[i..j])
    ensures FindDate(s).Some? ==> exists p :: FoundAt(s, p, FindDate(s).value)
  {
    forall i, j | 0 <= i <= j <= |s| && IsDateToken(s[i..j]) ensures MatchAt(s, i).Some? {
      MatchAtComplete(s, i, j);
    }
    var p := FindFrom(s, 0);
    if p.Some? {
      MatchAtSound(s, p.value);
      var t := FindDate(s).value;
      forall j | p.value <= j <= |s| && IsDateToken(s[p.value..j]) ensures j == p.value + |t| {
        MatchAtComplete(s, p.value, j);
      }
      assert FoundAt(s, p.value, t);
    }
  }

  /** `t` is the token `s` holds at `p`, no token starts before `p`, and
      `t` is the only token starting at `p`. */
  predicate FoundAt(s: string, p: nat, t: string) {
    p + |t| <= |s| && s[p..p + |t|] == t && IsDateToken(t)
    && (forall i, j :: 0 <= i < p && i <= j <= |s| ==> !IsDateToken(s[i..j]))
    && (forall j :: p <= j <= |s| && IsDateToken(s[p..j]) ==> j == p + |t|)
  }

  /** "7/27(月)" is found in a cell that also holds other text. */
  lemma FindDateExample()
    ensures FindDate("x7/27(月)y") == Some("7/27(月)")
  {
    var s := "x7/27(月)y";
    assert MatchAt(s, 0).None?;
    assert MatchAt(s, 1) == Some(7);
    assert s[1..8] == "7/27(月)";
  }
}
