/** The element lookups with a count contract (`$xn`, `$x1` in
    `src/utils.ts` and `src/cli.ts`): an XPath query must match exactly the
    expected number of elements, otherwise the program stops with an error
    naming the query. The query itself is not modelled: the caller passes
    the handles it matched.
 */
module Lookup {
  import opened Wrappers
  import opened Decimals
  import opened JsValues

  predicate StartsWith(s: string, p: string) {
    |p| <= |s| && s[..|p|] == p
  }

  predicate EndsWith(s: string, p: string) {
    |p| <= |s| && s[|s| - |p|..] == p
  }

  /** `$xn`: the matched handles, which must number exactly `n`. The error
      names the query, the expected and the actual count, and starts with
      the caller's message when there is one. */
  function XN<T>(handles: seq<T>, expression: string, n: nat, errMsg: string): (r: Result<seq<T>, Thrown>)
    ensures r.Success? <==> |handles| == n
    ensures r.Success? ==> r.value == handles
    ensures r.Failure? ==> r.error.AppError?
    ensures r.Failure? ==> EndsWith(r.error.message, "is not " + NatToString(n) + ", actually " + NatToString(|handles|))
    ensures r.Failure? && errMsg != "" ==> StartsWith(r.error.message, "BUG: " + errMsg + "; ")
    ensures r.Failure? && errMsg == "" ==> StartsWith(r.error.message, "BUG: '$x(`" + expression + "`')")
  {
    if |handles| == n then Success(handles)
    else
      var counts := "is not " + NatToString(n) + ", actually " + NatToString(|handles|);
      var head := if errMsg == "" then "BUG: '$x(`" + expression + "`')" else "BUG: " + errMsg + "; ";
      var middle := if errMsg == "" then ".length " else "$x(`" + expression + "'`.length ";
      Framed(head, middle, counts);
      Failure(AppError(head + middle + counts))
  }

  lemma Framed(head: string, middle: string, tail: string)
    ensures StartsWith(head + middle + tail, head) && EndsWith(head + middle + tail, tail)
  {
    var m := head + middle + tail;
    assert m[..|head|] == head;
    assert m[|m| - |tail|..] == tail;
  }

  /** `$x1`: the one handle the query matched. */
  function X1<T>(handles: seq<T>, expression: string, errMsg: string): (r: Result<T, Thrown>)
    ensures r.Success? <==> |handles| == 1
    ensures r.Success? ==> r.value == handles[0]
    ensures r.Failure? ==> r.error == XN(handles, expression, 1, errMsg).error
  {
    var hs :- XN(handles, expression, 1, errMsg);
    Success(hs[0])
  }
}
