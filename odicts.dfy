/**
 * Python's insertion-ordered dict with string keys, as a sequence of (key, value) pairs.
 * Assigning to an existing key keeps its position; a new key goes to the end.
 */
module ODicts {
  import opened Base

  type ODict<V> = seq<(string, V)>

  function Keys<V>(d: ODict<V>): set<string>
  {
    if d == [] then {} else {d[0].0} + Keys(d[1..])
  }

  ghost function ValueSet<V>(d: ODict<V>): set<V>
  {
    if d == [] then {} else {d[0].1} + ValueSet(d[1..])
  }

  ghost predicate DistinctKeys<V>(d: ODict<V>)
  {
    d == [] || (d[0].0 !in Keys(d[1..]) && DistinctKeys(d[1..]))
  }

  /** `d.get(k)`: the value of the first entry with key `k`. */
  function Lookup<V>(d: ODict<V>, k: string): (r: Option<V>)
    ensures r.Some? <==> k in Keys(d)
    ensures r.Some? ==> r.value in ValueSet(d)
  {
    if d == [] then None else if d[0].0 == k then Some(d[0].1) else Lookup(d[1..], k)
  }

  /** `d[k] = v`. */
  function Put<V>(d: ODict<V>, k: string, v: V): (r: ODict<V>)
    ensures Keys(r) == Keys(d) + {k}
    ensures Lookup(r, k) == Some(v)
    ensures forall k' :: k' != k ==> Lookup(r, k') == Lookup(d, k')
    ensures DistinctKeys(d) ==> DistinctKeys(r)
    ensures ValueSet(r) <= ValueSet(d) + {v}
    ensures k !in Keys(d) ==> r == d + [(k, v)]
    ensures k in Keys(d) ==> |r| == |d| && forall i :: 0 <= i < |d| ==> r[i].0 == d[i].0
  {
    if d == [] then [(k, v)]
    else if d[0].0 == k then [(k, v)] + d[1..]
    else [d[0]] + Put(d[1..], k, v)
  }

  /** `a.update(b)`: the entries of `b`, in order, assigned into `a`. */
  function Update<V>(a: ODict<V>, b: ODict<V>): (r: ODict<V>)
    ensures Keys(r) == Keys(a) + Keys(b)
    ensures DistinctKeys(a) ==> DistinctKeys(r)
    ensures DistinctKeys(b) ==> forall k :: Lookup(r, k) == if k in Keys(b) then Lookup(b, k) else Lookup(a, k)
    ensures ValueSet(r) <= ValueSet(a) + ValueSet(b)
    decreases |b|
  {
    if b == [] then a else Update(Put(a, b[0].0, b[0].1), b[1..])
  }

  lemma {:induction false} LookupAt<V>(d: ODict<V>, i: nat)
    requires DistinctKeys(d) && i < |d|
    ensures Lookup(d, d[i].0) == Some(d[i].1)
  {
    if i > 0 {
      LookupAt(d[1..], i - 1);
      assert d[1..][i - 1] == d[i];
      KeyAt(d[1..], i - 1);
    }
  }

  lemma {:induction false} KeyAt<V>(d: ODict<V>, i: nat)
    requires i < |d|
    ensures d[i].0 in Keys(d)
  {
    if i > 0 {
      KeyAt(d[1..], i - 1);
      assert d[1..][i - 1] == d[i];
    }
  }

  /** A value `Lookup` finds is stored at some position under that key. */
  lemma {:induction false} LookupEntry<V>(d: ODict<V>, k: string)
    requires Lookup(d, k).Some?
    ensures exists i :: 0 <= i < |d| && d[i] == (k, Lookup(d, k).value)
  {
    if d[0].0 != k {
      LookupEntry(d[1..], k);
      var i :| 0 <= i < |d[1..]| && d[1..][i] == (k, Lookup(d[1..], k).value);
      assert d[i + 1] == (k, Lookup(d, k).value);
    } else {
      assert d[0] == (k, Lookup(d, k).value);
    }
  }

  /** Distinct keys, stated position by position. */
  lemma {:induction false} DistinctAt<V>(d: ODict<V>, i: nat, j: nat)
    requires DistinctKeys(d) && i < j < |d|
    ensures d[i].0 != d[j].0
  {
    if i == 0 {
      KeyAt(d[1..], j - 1);
      assert d[1..][j - 1] == d[j];
    } else {
      DistinctAt(d[1..], i - 1, j - 1);
      assert d[1..][i - 1] == d[i] && d[1..][j - 1] == d[j];
    }
  }
}
