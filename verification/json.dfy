/** JSON-shaped values as the Python code sees them after `json.loads`,
    and the insertion-ordered dictionaries that hold their objects. */
module Json {
  import opened Common

  /** A Python dict with string keys; entries keep their insertion order. */
  type Dict<V> = seq<(string, V)>

  /** A value `json.loads` can produce (floats are not part of this model). */
  datatype Json =
    | JNull
    | JBool(b: bool)
    | JInt(n: int)
    | JStr(s: string)
    | JArr(items: seq<Json>)
    | JObj(fields: Dict<Json>)

  /** `k in d`. */
  predicate HasKey<V>(d: Dict<V>, k: string)
  {
    exists i :: 0 <= i < |d| && d[i].0 == k
  }

  /** No key occurs twice, as in every dict Python builds. */
  predicate DistinctKeys<V>(d: Dict<V>)
  {
    forall i, j :: 0 <= i < j < |d| ==> d[i].0 != d[j].0
  }

  /** `d.get(k)`: the value stored under k, if any. */
  function Get<V>(d: Dict<V>, k: string): (r: Option<V>)
    ensures r.None? <==> !HasKey(d, k)
  {
    if |d| == 0 then None
    else if d[0].0 == k then Some(d[0].1)
    else
      assert forall i :: 1 <= i < |d| ==> d[i] == d[1..][i - 1];
      Get(d[1..], k)
  }

  /** Looking up in a dict that starts with e: e itself, or the rest. */
  lemma GetCons<V>(e: (string, V), rest: Dict<V>, k: string)
    ensures Get([e] + rest, k) == if e.0 == k then Some(e.1) else Get(rest, k)
  {
    assert ([e] + rest)[1..] == rest;
  }

  /** `Get` finds the first entry with the key. */
  lemma {:induction false} GetAt<V>(d: Dict<V>, i: nat, k: string)
    requires i < |d| && d[i].0 == k
    requires forall j :: 0 <= j < i ==> d[j].0 != k
    ensures Get(d, k) == Some(d[i].1)
  {
    if i > 0 {
      assert d[1..][i - 1] == d[i];
      GetAt(d[1..], i - 1, k);
    }
  }

  /** In a dict without repeated keys, every entry is what `Get` finds. */
  lemma {:induction false} GetEntry<V>(d: Dict<V>, i: nat)
    requires DistinctKeys(d) && i < |d|
    ensures Get(d, d[i].0) == Some(d[i].1)
  {
    if i > 0 {
      assert d[1..][i - 1] == d[i];
      GetEntry(d[1..], i - 1);
    }
  }

  /** The keys of a dict with one entry in front. */
  lemma KeysCons<V>(e: (string, V), d: Dict<V>)
    ensures Keys([e] + d) == [e.0] + Keys(d)
  {
    assert forall i :: 1 <= i < |d| + 1 ==> ([e] + d)[i] == d[i - 1];
  }

  /** `d[k] = v`: replaces the value of an existing key in place, otherwise appends. */
  function Put<V>(d: Dict<V>, k: string, v: V): (r: Dict<V>)
    ensures Get(r, k) == Some(v)
    ensures HasKey(d, k) ==> |r| == |d| && Keys(r) == Keys(d)
    ensures !HasKey(d, k) ==> r == d + [(k, v)]
  {
    if |d| == 0 then [(k, v)]
    else if d[0].0 == k then
      KeysCons((k, v), d[1..]);
      KeysCons(d[0], d[1..]);
      assert d == [d[0]] + d[1..];
      [(k, v)] + d[1..]
    else
      var r := [d[0]] + Put(d[1..], k, v);
      assert HasKey(d, k) <==> HasKey(d[1..], k) by {
        assert forall i :: 1 <= i < |d| ==> d[i] == d[1..][i - 1];
      }
      assert !HasKey(d, k) ==> d == [d[0]] + d[1..];
      KeysCons(d[0], Put(d[1..], k, v));
      KeysCons(d[0], d[1..]);
      assert d == [d[0]] + d[1..];
      r
  }

  /** Put leaves the value of every other key as it was. */
  lemma {:induction false} GetPutOther<V>(d: Dict<V>, k: string, v: V, other: string)
    requires other != k
    ensures Get(Put(d, k, v), other) == Get(d, other)
  {
    if |d| > 0 && d[0].0 != k {
      GetPutOther(d[1..], k, v, other);
    }
  }

  /** Put keeps a dict free of repeated keys. */
  lemma {:induction false} PutDistinct<V>(d: Dict<V>, k: string, v: V)
    requires DistinctKeys(d)
    ensures DistinctKeys(Put(d, k, v))
  {
    var r := Put(d, k, v);
    if |d| > 0 && d[0].0 != k {
      var t := Put(d[1..], k, v);
      PutDistinct(d[1..], k, v);
      assert r == [d[0]] + t;
      assert !HasKey(d[1..], d[0].0) by {
        forall i | 0 <= i < |d[1..]|
          ensures d[1..][i].0 != d[0].0
        {
          assert d[1..][i] == d[i + 1];
        }
      }
      GetPutOther(d[1..], k, v, d[0].0);
      assert Get(t, d[0].0).None?;
      forall i, j | 0 <= i < j < |r|
        ensures r[i].0 != r[j].0
      {
        assert r[j] == t[j - 1];
        if i > 0 {
          assert r[i] == t[i - 1];
        }
      }
    } else if |d| > 0 {
      assert r == [(k, v)] + d[1..];
      forall i, j | 0 <= i < j < |r|
        ensures r[i].0 != r[j].0
      {
        assert r[j] == d[j];
        assert i == 0 || r[i] == d[i];
      }
    }
  }

  /** The value `Get` finds is the value of some entry with that key. */
  lemma {:induction false} GetFound<V>(d: Dict<V>, k: string)
    requires Get(d, k).Some?
    ensures exists i :: 0 <= i < |d| && d[i].0 == k && d[i].1 == Get(d, k).value
  {
    if d[0].0 != k {
      GetFound(d[1..], k);
      var i :| 0 <= i < |d[1..]| && d[1..][i].0 == k && d[1..][i].1 == Get(d[1..], k).value;
      assert d[i + 1] == d[1..][i];
    }
  }

  /** Looking up in a dict with one more entry at the end: an earlier entry
      with the key wins. */
  lemma {:induction false} GetSnoc<V>(d: Dict<V>, e: (string, V), k: string)
    ensures Get(d + [e], k) == if HasKey(d, k) then Get(d, k) else if e.0 == k then Some(e.1) else None
  {
    if |d| == 0 {
      assert d + [e] == [e];
    } else {
      assert (d + [e])[1..] == d[1..] + [e];
      GetSnoc(d[1..], e, k);
      assert HasKey(d, k) <==> d[0].0 == k || HasKey(d[1..], k) by {
        assert forall i :: 1 <= i < |d| ==> d[i] == d[1..][i - 1];
      }
    }
  }

  /** No dict anywhere inside the value repeats a key, as holds for every
      value `json.loads` returns (a key repeated in the text keeps its last
      value). */
  predicate Proper(j: Json)
  {
    match j
    case JArr(xs) => forall i :: 0 <= i < |xs| ==> Proper(xs[i])
    case JObj(f) => DistinctKeys(f) && forall i :: 0 <= i < |f| ==> Proper(f[i].1)
    case _ => true
  }

  /** Two dicts with the same lookups: equal as Python dicts, whatever their key order. */
  ghost predicate SameLookups<V>(a: Dict<V>, b: Dict<V>)
  {
    forall k :: Get(a, k) == Get(b, k)
  }

  /** x is y, or both are dicts equal as Python dicts. */
  ghost predicate SameUpToOrder(x: Json, y: Json)
  {
    x == y || (x.JObj? && y.JObj? && SameLookups(x.fields, y.fields))
  }

  /** a is the dict b with its keys, and those of the dicts directly inside
      it, possibly in another order, as `json.loads(json.dumps(b, sort_keys=True))`
      returns it for a dict nested at most one level deep. */
  ghost predicate Reordered(a: Json, b: Json)
  {
    && a.JObj? && b.JObj? && Proper(a)
    && forall k :: (Get(a.fields, k).None? <==> Get(b.fields, k).None?)
         && (Get(a.fields, k).Some? ==> SameUpToOrder(Get(a.fields, k).value, Get(b.fields, k).value))
  }

  /** A dict found inside a proper value has no repeated key. */
  lemma ProperField(d: Dict<Json>, k: string)
    requires Proper(JObj(d)) && Get(d, k).Some? && Get(d, k).value.JObj?
    ensures DistinctKeys(Get(d, k).value.fields)
  {
    GetFound(d, k);
  }

  /** `list(d.keys())`. */
  function Keys<V>(d: Dict<V>): (r: seq<string>)
    ensures |r| == |d|
  {
    seq(|d|, i requires 0 <= i < |d| => d[i].0)
  }
}
