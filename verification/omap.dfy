/** Insertion-ordered maps: the model of a JavaScript object used as a
    dictionary (`projects`, a day's `jisseki`). Assigning to an existing key
    keeps its position and replaces its value; assigning to a new key appends
    it. JavaScript's rule that array-index-like keys ("12") are listed first
    is not modelled.
 */
module OrderedMap {
  import opened Wrappers

  type OMap<V> = seq<(string, V)>

  function Keys<V>(m: OMap<V>): (ks: seq<string>)
    ensures |ks| == |m|
    ensures forall i :: 0 <= i < |m| ==> ks[i] == m[i].0
  {
    seq(|m|, i requires 0 <= i < |m| => m[i].0)
  }

  /** No key occurs twice: what every JavaScript object guarantees. */
  ghost predicate UniqueKeys<V>(m: OMap<V>) {
    forall i, j :: 0 <= i < j < |m| ==> m[i].0 != m[j].0
  }

  /** The index of the first entry of `ks` equal to `k`. */
  function FirstIndex(ks: seq<string>, k: string): (i: nat)
    requires k in ks
    ensures i < |ks| && ks[i] == k
    ensures forall j :: 0 <= j < i ==> ks[j] != k
  {
    if ks[0] == k then 0 else 1 + FirstIndex(ks[1..], k)
  }

  /** The index of the last entry of `ks` equal to `k`. */
  function LastIndex(ks: seq<string>, k: string): (i: nat)
    requires k in ks
    ensures i < |ks| && ks[i] == k
    ensures forall j :: i < j < |ks| ==> ks[j] != k
  {
    if ks[|ks| - 1] == k then |ks| - 1 else LastIndex(ks[..|ks| - 1], k)
  }

  /** `o[k]` on a JavaScript object: the value stored under `k`, `None` (undefined) if absent. */
  function Find<V>(m: OMap<V>, k: string): (r: Option<V>)
    ensures r.None? <==> k !in Keys(m)
  {
    if k in Keys(m) then Some(m[FirstIndex(Keys(m), k)].1) else None
  }

  lemma FindAt<V>(m: OMap<V>, i: nat)
    requires UniqueKeys(m)
    requires i < |m|
    ensures Find(m, m[i].0) == Some(m[i].1)
  {
    var ks := Keys(m);
    var j := FirstIndex(ks, m[i].0);
    assert m[j].0 == m[i].0;
  }

  lemma KeysCons<V>(m: OMap<V>)
    requires m != []
    ensures Keys(m) == [m[0].0] + Keys(m[1..])
  {
  }

  /** In a map with unique keys the first key does not recur in the tail. */
  lemma HeadNotInTail<V>(m: OMap<V>)
    requires UniqueKeys(m)
    requires m != []
    ensures m[0].0 !in Keys(m[1..])
  {
    forall i | 0 <= i < |m| - 1 ensures Keys(m[1..])[i] != m[0].0 {
      assert m[1..][i] == m[i + 1];
    }
  }

  /** A key other than the first is looked up in the tail. */
  lemma FindTail<V>(m: OMap<V>, k: string)
    requires m != [] && k != m[0].0
    ensures Find(m, k) == Find(m[1..], k)
  {
    KeysCons(m);
    if k in Keys(m) {
      assert Keys(m)[1..] == Keys(m[1..]);
      assert FirstIndex(Keys(m), k) == 1 + FirstIndex(Keys(m[1..]), k);
      assert m[1..][FirstIndex(Keys(m[1..]), k)] == m[1 + FirstIndex(Keys(m[1..]), k)];
    }
  }

  /** `o[k] = v` on a JavaScript object. */
  function Put<V>(m: OMap<V>, k: string, v: V): (r: OMap<V>)
    ensures k in Keys(m) ==> Keys(r) == Keys(m)
    ensures k !in Keys(m) ==> Keys(r) == Keys(m) + [k]
  {
    if k in Keys(m) then
      var i := FirstIndex(Keys(m), k);
      var r := m[i := (k, v)];
      assert Keys(r) == Keys(m);
      r
    else
      var r := m + [(k, v)];
      assert Keys(r) == Keys(m) + [k];
      r
  }

  lemma PutFind<V>(m: OMap<V>, k: string, v: V, k': string)
    ensures Find(Put(m, k, v), k') == if k' == k then Some(v) else Find(m, k')
  {
    var r := Put(m, k, v);
    var ks := Keys(m);
    if k' in Keys(r) && k !in ks {
      var j := FirstIndex(Keys(r), k');
      assert forall x :: 0 <= x < |m| ==> Keys(r)[x] == ks[x];
      if k' != k {
        var j' := FirstIndex(ks, k');
        assert Keys(r)[j'] == k';
        assert ks[j] == k';
      }
    }
  }

  lemma PutUnique<V>(m: OMap<V>, k: string, v: V)
    requires UniqueKeys(m)
    ensures UniqueKeys(Put(m, k, v))
  {
    var r := Put(m, k, v);
    forall i, j | 0 <= i < j < |r| ensures r[i].0 != r[j].0 {
      assert Keys(r)[i] == r[i].0 && Keys(r)[j] == r[j].0;
      if j == |m| {
        assert k !in Keys(m);
        assert Keys(m)[i] == m[i].0;
      } else {
        assert Keys(m)[i] == m[i].0 && Keys(m)[j] == m[j].0;
      }
    }
  }

  /** `Object.assign(m, n)`: every entry of `n`, in `n`'s order, put into `m`. */
  function Assign<V>(m: OMap<V>, n: OMap<V>): (r: OMap<V>)
    decreases |n|
  {
    if n == [] then m else Assign(Put(m, n[0].0, n[0].1), n[1..])
  }

  /** After `Object.assign(m, n)` a key of `n` holds `n`'s value and any
      other key keeps the value it had in `m` (last writer wins). */
  lemma {:induction false} AssignFind<V>(m: OMap<V>, n: OMap<V>, k: string)
    requires UniqueKeys(n)
    ensures Find(Assign(m, n), k) == if k in Keys(n) then Find(n, k) else Find(m, k)
    decreases |n|
  {
    if n != [] {
      var m' := Put(m, n[0].0, n[0].1);
      assert UniqueKeys(n[1..]);
      AssignFind(m', n[1..], k);
      PutFind(m, n[0].0, n[0].1, k);
      KeysCons(n);
      if k == n[0].0 {
        FindAt(n, 0);
        HeadNotInTail(n);
      } else {
        FindTail(n, k);
      }
    }
  }

  /** `Object.assign` never loses a key and keeps keys unique. */
  lemma {:induction false} AssignKeys<V>(m: OMap<V>, n: OMap<V>)
    requires UniqueKeys(m)
    ensures UniqueKeys(Assign(m, n))
    ensures forall k :: k in Keys(m) ==> k in Keys(Assign(m, n))
    decreases |n|
  {
    if n != [] {
      var m' := Put(m, n[0].0, n[0].1);
      PutUnique(m, n[0].0, n[0].1);
      AssignKeys(m', n[1..]);
    }
  }

  /** `for (const [i, k] of ks.entries()) o[k] = vs[i]` starting from `o = {}`. */
  function FromAssignments<V>(ks: seq<string>, vs: seq<V>): (r: OMap<V>)
    requires |ks| == |vs|
    decreases |ks|
  {
    if ks == [] then []
    else
      var n := |ks| - 1;
      Put(FromAssignments(ks[..n], vs[..n]), ks[n], vs[n])
  }

  /** The keys assigned are exactly `ks`, each once, and a later duplicate key
      overwrites an earlier one: each key holds the value of its last assignment. */
  lemma {:induction false} FromAssignmentsFind<V>(ks: seq<string>, vs: seq<V>, k: string)
    requires |ks| == |vs|
    ensures UniqueKeys(FromAssignments(ks, vs))
    ensures k in Keys(FromAssignments(ks, vs)) <==> k in ks
    ensures k in ks ==> Find(FromAssignments(ks, vs), k) == Some(vs[LastIndex(ks, k)])
    decreases |ks|
  {
    if ks != [] {
      var n := |ks| - 1;
      var prev := FromAssignments(ks[..n], vs[..n]);
      FromAssignmentsFind(ks[..n], vs[..n], k);
      PutUnique(prev, ks[n], vs[n]);
      PutFind(prev, ks[n], vs[n], k);
      assert ks == ks[..n] + [ks[n]];
      if k in ks && k != ks[n] {
        assert k in ks[..n];
        assert LastIndex(ks, k) == LastIndex(ks[..n], k);
      }
    }
  }

  /** The entries whose value is defined: what `JSON.stringify` keeps of an
      object whose values may be `undefined`. */
  function Defined<V>(m: OMap<Option<V>>): (r: OMap<V>)
    ensures |r| <= |m|
  {
    if m == [] then []
    else if m[0].1.Some? then [(m[0].0, m[0].1.value)] + Defined(m[1..])
    else Defined(m[1..])
  }

  /** Dropping entries adds no key. */
  lemma {:induction false} DefinedKeys<V>(m: OMap<Option<V>>, k: string)
    ensures k in Keys(Defined(m)) ==> k in Keys(m)
  {
    if m != [] {
      DefinedKeys(m[1..], k);
      KeysCons(m);
      if m[0].1.Some? {
        KeysCons(Defined(m));
        assert Defined(m)[1..] == Defined(m[1..]);
      }
    }
  }

  /** Dropping entries keeps keys unique. */
  lemma {:induction false} DefinedUnique<V>(m: OMap<Option<V>>)
    requires UniqueKeys(m)
    ensures UniqueKeys(Defined(m))
  {
    if m != [] {
      assert UniqueKeys(m[1..]);
      DefinedUnique(m[1..]);
      if m[0].1.Some? {
        var rest := Defined(m[1..]);
        var r := Defined(m);
        assert r == [(m[0].0, m[0].1.value)] + rest;
        HeadNotInTail(m);
        DefinedKeys(m[1..], m[0].0);
        forall i, j | 0 <= i < j < |r| ensures r[i].0 != r[j].0 {
          assert r[j] == rest[j - 1];
          assert Keys(rest)[j - 1] == r[j].0;
          if i > 0 {
            assert r[i] == rest[i - 1];
          }
        }
      }
    }
  }

  /** Dropping the undefined entries keeps every defined one under its key
      and makes the undefined ones absent. */
  lemma {:induction false} DefinedFind<V>(m: OMap<Option<V>>, k: string)
    requires UniqueKeys(m)
    ensures Find(Defined(m), k) == if Find(m, k).Some? then Find(m, k).value else None
  {
    if m != [] {
      assert UniqueKeys(m[1..]);
      var r := Defined(m);
      if k == m[0].0 {
        KeysCons(m);
        if m[0].1.Some? {
          KeysCons(r);
        } else {
          HeadNotInTail(m);
          DefinedKeys(m[1..], k);
        }
      } else {
        FindTail(m, k);
        DefinedFind(m[1..], k);
        if m[0].1.Some? {
          assert r[1..] == Defined(m[1..]);
          FindTail(r, k);
        }
      }
    }
  }
}
