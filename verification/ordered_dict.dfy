/** Python's `dict` from strings to strings as the core uses it: insertion-ordered,
    keys unique, and `d[k] = v` replacing the value of an existing key in place
    while a new key goes to the end. */
module OrderedDict {
  import opened Wrappers

  type Dict = seq<(string, string)>

  /** The keys in iteration order. */
  function Keys(d: Dict): (ks: seq<string>)
    ensures |ks| == |d|
    ensures forall i :: 0 <= i < |d| ==> ks[i] == d[i].0
  {
    if |d| == 0 then [] else [d[0].0] + Keys(d[1..])
  }

  /** No key is stored twice. */
  predicate UniqueKeys(d: Dict)
  {
    forall i, j :: 0 <= i < j < |d| ==> d[i].0 != d[j].0
  }

  /** `d.get(k)`: the value of the first entry with key `k`. */
  function Get(d: Dict, k: string): (r: Option<string>)
    ensures r.None? <==> k !in Keys(d)
  {
    if |d| == 0 then None
    else if d[0].0 == k then Some(d[0].1)
    else Get(d[1..], k)
  }

  /** A value lookup returns is stored in the dictionary under that key. */
  lemma {:induction false} GetFound(d: Dict, k: string)
    requires Get(d, k).Some?
    ensures exists i :: 0 <= i < |d| && d[i] == (k, Get(d, k).value)
  {
    if d[0].0 != k {
      GetFound(d[1..], k);
      var i :| 0 <= i < |d[1..]| && d[1..][i] == (k, Get(d, k).value);
      assert d[i + 1] == d[1..][i];
    }
  }

  /** In a dictionary with unique keys, every stored pair is what lookup returns. */
  lemma {:induction false} GetStored(d: Dict, i: nat)
    requires UniqueKeys(d)
    requires i < |d|
    ensures Get(d, d[i].0) == Some(d[i].1)
  {
    if i > 0 {
      GetStored(d[1..], i - 1);
    }
  }

  /** `d[k] = v`. */
  function Put(d: Dict, k: string, v: string): (r: Dict)
    ensures |d| <= |r| <= |d| + 1
    ensures (k, v) in r
    ensures forall i :: 0 <= i < |d| && d[i].0 != k ==> r[i] == d[i]
  {
    if |d| == 0 then [(k, v)]
    else if d[0].0 == k then [(k, v)] + d[1..]
    else [d[0]] + Put(d[1..], k, v)
  }

  /** Assignment as Python defines it: afterwards `k` maps to `v`, no other
      key's value changes, an existing key keeps its place, and a new key goes
      last. */
  lemma PutSemantics(d: Dict, k: string, v: string)
    ensures Get(Put(d, k, v), k) == Some(v)
    ensures forall k' :: k' != k ==> Get(Put(d, k, v), k') == Get(d, k')
    ensures k in Keys(d) ==> Keys(Put(d, k, v)) == Keys(d)
    ensures k !in Keys(d) ==> Keys(Put(d, k, v)) == Keys(d) + [k]
  {
    PutGet(d, k, v);
    PutKeys(d, k, v);
  }

  lemma {:induction false} PutGet(d: Dict, k: string, v: string)
    ensures Get(Put(d, k, v), k) == Some(v)
    ensures forall k' :: k' != k ==> Get(Put(d, k, v), k') == Get(d, k')
  {
    if |d| > 0 {
      var r := Put(d, k, v);
      if d[0].0 == k {
        assert r[1..] == d[1..];
      } else {
        PutGet(d[1..], k, v);
        assert r[1..] == Put(d[1..], k, v);
      }
    }
  }

  lemma {:induction false} PutKeys(d: Dict, k: string, v: string)
    ensures k in Keys(d) ==> Keys(Put(d, k, v)) == Keys(d)
    ensures k !in Keys(d) ==> Keys(Put(d, k, v)) == Keys(d) + [k]
  {
    if |d| > 0 {
      var r := Put(d, k, v);
      assert Keys(d) == [d[0].0] + Keys(d[1..]);
      if d[0].0 == k {
        assert r[1..] == d[1..];
        assert Keys(r) == [k] + Keys(d[1..]);
      } else {
        var rest := Put(d[1..], k, v);
        PutKeys(d[1..], k, v);
        assert r[1..] == rest;
        assert Keys(r) == [d[0].0] + Keys(rest);
        assert k in Keys(d) <==> k in Keys(d[1..]);
      }
    }
  }

  /** Assignment keeps the keys unique. */
  lemma PutKeepsUnique(d: Dict, k: string, v: string)
    requires UniqueKeys(d)
    ensures UniqueKeys(Put(d, k, v))
  {
    var r := Put(d, k, v);
    PutSemantics(d, k, v);
    forall i, j | 0 <= i < j < |r|
      ensures r[i].0 != r[j].0
    {
      assert Keys(r)[i] == r[i].0 && Keys(r)[j] == r[j].0;
      if k !in Keys(d) && j == |d| {
        assert Keys(d)[i] == d[i].0;
      } else {
        assert Keys(d)[i] == d[i].0 && Keys(d)[j] == d[j].0;
      }
    }
  }
}
