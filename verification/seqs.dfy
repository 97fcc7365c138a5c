/** The array operations the parsers apply to scraped lists: indexing past
    the end, `shift`, `map` with a callback that may throw, and `flat`.
 */
module Sequences {
  import opened Wrappers

  /** `xs[i]` on a JavaScript array: `undefined` past the end. */
  function At<T>(xs: seq<T>, i: nat): (r: Option<T>)
    ensures r.Some? <==> i < |xs|
    ensures r.Some? ==> r.value == xs[i]
  {
    if i < |xs| then Some(xs[i]) else None
  }

  /** `xs.shift()` called `n` times: the first `n` entries go, and shifting
      an empty array leaves it empty. */
  function Shift<T>(xs: seq<T>, n: nat): (r: seq<T>)
    ensures |r| == if |xs| >= n then |xs| - n else 0
    ensures forall i :: 0 <= i < |r| ==> r[i] == xs[i + n]
  {
    if n == 0 || xs == [] then xs else Shift(xs[1..], n - 1)
  }

  /** Entry `j` is the first of `xs` on which `f` fails. */
  predicate FirstFailure<A, B, E>(xs: seq<A>, f: A -> Result<B, E>, j: int) {
    0 <= j < |xs| && f(xs[j]).Failure? && forall i :: 0 <= i < j ==> f(xs[i]).Success?
  }

  /** `xs.map(f)` where `f` may throw: the entries are converted in order and
      the first exception propagates. */
  function MapResult<A, B, E>(xs: seq<A>, f: A -> Result<B, E>): (r: Result<seq<B>, E>)
    ensures r.Success? <==> forall i :: 0 <= i < |xs| ==> f(xs[i]).Success?
    ensures r.Success? ==> |r.value| == |xs| && forall i :: 0 <= i < |xs| ==> r.value[i] == f(xs[i]).value
    ensures r.Failure? ==> exists j :: FirstFailure(xs, f, j) && r.error == f(xs[j]).error
  {
    if xs == [] then Success([])
    else
      var b :- f(xs[0]);
      var rest :- MapResult(xs[1..], f);
      assert forall i :: 1 <= i < |xs| ==> xs[i] == xs[1..][i - 1];
      Success([b] + rest)
  }

  /** The failure `MapResult` reports is that of the first entry that fails. */
  lemma MapResultFirstFailure<A, B, E>(xs: seq<A>, f: A -> Result<B, E>, j: nat)
    requires j < |xs| && f(xs[j]).Failure?
    requires forall i :: 0 <= i < j ==> f(xs[i]).Success?
    ensures MapResult(xs, f) == Failure(f(xs[j]).error)
  {
    var r := MapResult(xs, f);
    var k :| FirstFailure(xs, f, k) && r.error == f(xs[k]).error;
    assert !(k < j) && !(j < k);
  }

  /** Converting a list with a first entry: that entry, then the rest. */
  lemma MapResultCons<A, B, E>(x: A, rest: seq<A>, f: A -> Result<B, E>)
    ensures MapResult([x] + rest, f) ==
      if f(x).Failure? then Failure(f(x).error)
      else if MapResult(rest, f).Failure? then Failure(MapResult(rest, f).error)
      else Success([f(x).value] + MapResult(rest, f).value)
  {
    assert ([x] + rest)[0] == x;
    assert ([x] + rest)[1..] == rest;
  }

  /** `xss.flat()`: the lists one after the other. */
  function Flatten<T>(xss: seq<seq<T>>): (r: seq<T>)
    ensures |xss| == 1 ==> r == xss[0]
  {
    if xss == [] then [] else xss[0] + Flatten(xss[1..])
  }

  lemma {:induction false} FlattenSnoc<T>(xss: seq<seq<T>>, ys: seq<T>)
    ensures Flatten(xss + [ys]) == Flatten(xss) + ys
  {
    if xss != [] {
      assert (xss + [ys])[1..] == xss[1..] + [ys];
      FlattenSnoc(xss[1..], ys);
    }
  }
}
