/**
 * A Python `dict` or a JavaScript object with string keys, as the list of its
 * entries in insertion order: assigning to an existing key replaces its value
 * in place, assigning to a new key adds it at the end.
 */
module Dicts {
  type Dict = seq<(string, string)>


  function Keys(d: Dict): (ks: seq<string>)
    ensures |ks| == |d|
    ensures forall i | 0 <= i < |d| :: ks[i] == d[i].0
  {
    seq(|d|, i requires 0 <= i < |d| => d[i].0)
  }

  /** `d[k] = v`: an existing key keeps its place, a new key goes last. */
  function Put(d: Dict, k: string, v: string): (r: Dict)
    ensures k !in Keys(d) ==> r == d + [(k, v)]
    ensures k in Keys(d) ==> |r| == |d| && Keys(r) == Keys(d)
    decreases |d|
  {
    if d == [] then [(k, v)]
    else if d[0].0 == k then [(k, v)] + d[1..]
    else
      assert Keys(d) == [d[0].0] + Keys(d[1..]);
      [d[0]] + Put(d[1..], k, v)
  }

  /** The dictionary as a map (a later entry wins; keys are distinct anyway). */
  function ToMap(d: Dict): map<string, string>
    decreases |d|
  {
    if d == [] then map[]
    else ToMap(d[..|d| - 1])[d[|d| - 1].0 := d[|d| - 1].1]
  }


  predicate DistinctKeys(d: Dict) {
    forall i, j | 0 <= i < j < |d| :: d[i].0 != d[j].0
  }

  lemma {:induction false} ToMapKeys(d: Dict)
    ensures forall k :: k in ToMap(d) <==> k in Keys(d)
    decreases |d|
  {
    if d != [] {
      var init := d[..|d| - 1];
      ToMapKeys(init);
      assert Keys(d) == Keys(init) + [d[|d| - 1].0];
    }
  }

  lemma {:induction false} ToMapValues(d: Dict)
    requires DistinctKeys(d)
    ensures forall i | 0 <= i < |d| :: d[i].0 in ToMap(d) && ToMap(d)[d[i].0] == d[i].1
    decreases |d|
  {
    if d != [] {
      ToMapValues(d[..|d| - 1]);
    }
  }

  /** On a dictionary with distinct keys, `d[k] = v` on a present key replaces that entry's
      value and nothing else. */
  lemma {:induction false} PutEntries(d: Dict, k: string, v: string)
    requires DistinctKeys(d) && k in Keys(d)
    ensures forall i | 0 <= i < |d| :: Put(d, k, v)[i] == (if d[i].0 == k then (k, v) else d[i])
    decreases |d|
  {
    if d[0].0 != k {
      assert Keys(d) == [d[0].0] + Keys(d[1..]);
      PutEntries(d[1..], k, v);
    }
  }

  /** Assignment keeps keys distinct and acts on the dictionary as map update does. */
  lemma PutToMap(d: Dict, k: string, v: string)
    requires DistinctKeys(d)
    ensures DistinctKeys(Put(d, k, v))
    ensures ToMap(Put(d, k, v)) == ToMap(d)[k := v]
  {
    if k in Keys(d) {
      PutEntries(d, k, v);
      PutPresentDistinct(d, Put(d, k, v));
      PutPresentMap(d, Put(d, k, v), k, v);
    } else {
      PutAbsent(d, k, v);
    }
  }

  lemma PutAbsent(d: Dict, k: string, v: string)
    requires DistinctKeys(d) && k !in Keys(d)
    ensures DistinctKeys(Put(d, k, v))
    ensures ToMap(Put(d, k, v)) == ToMap(d)[k := v]
  {
    assert Put(d, k, v) == d + [(k, v)];
    AppendFresh(d, k, v);
    ToMapSnoc(d, k, v);
  }

  lemma AppendFresh(d: Dict, k: string, v: string)
    requires DistinctKeys(d) && k !in Keys(d)
    ensures DistinctKeys(d + [(k, v)])
  {
    var r := d + [(k, v)];
    forall i, j | 0 <= i < j < |r| ensures r[i].0 != r[j].0 {
      if j == |d| {
        assert r[i].0 == Keys(d)[i];
      } else {
        assert r[i] == d[i] && r[j] == d[j];
      }
    }
  }

  lemma ToMapSnoc(d: Dict, k: string, v: string)
    ensures ToMap(d + [(k, v)]) == ToMap(d)[k := v]
  {
    var r := d + [(k, v)];
    assert r[..|r| - 1] == d;
  }

  lemma PutPresentDistinct(d: Dict, r: Dict)
    requires DistinctKeys(d) && Keys(r) == Keys(d)
    ensures DistinctKeys(r)
  {
    forall i, j | 0 <= i < j < |r| ensures r[i].0 != r[j].0 {
      assert r[i].0 == Keys(d)[i] && r[j].0 == Keys(d)[j];
    }
  }

  lemma PutPresentMap(d: Dict, r: Dict, k: string, v: string)
    requires DistinctKeys(d) && DistinctKeys(r) && |r| == |d| && k in Keys(d)
    requires forall i | 0 <= i < |d| :: r[i] == (if d[i].0 == k then (k, v) else d[i])
    ensures ToMap(r) == ToMap(d)[k := v]
  {
    var m, m' := ToMap(r), ToMap(d)[k := v];
    PresentKeys(d, r, k, v);
    PresentValues(d, r, k, v);
    MapExtensional(m, m');
  }

  lemma PresentKeys(d: Dict, r: Dict, k: string, v: string)
    requires |r| == |d| && k in Keys(d)
    requires forall i | 0 <= i < |d| :: r[i] == (if d[i].0 == k then (k, v) else d[i])
    ensures forall x :: x in ToMap(r) <==> x in ToMap(d)[k := v]
  {
    ToMapKeys(d);
    ToMapKeys(r);
    assert Keys(r) == Keys(d);
  }

  lemma PresentValues(d: Dict, r: Dict, k: string, v: string)
    requires DistinctKeys(d) && DistinctKeys(r) && |r| == |d| && k in Keys(d)
    requires forall i | 0 <= i < |d| :: r[i] == (if d[i].0 == k then (k, v) else d[i])
    ensures forall x | x in ToMap(d)[k := v] :: x in ToMap(r) && ToMap(r)[x] == ToMap(d)[k := v][x]
  {
    ToMapKeys(d);
    ToMapValues(d);
    ToMapValues(r);
    forall x | x in ToMap(d)[k := v] ensures x in ToMap(r) && ToMap(r)[x] == ToMap(d)[k := v][x] {
      var i :| 0 <= i < |d| && d[i].0 == x;
      assert r[i].0 == x;
    }
  }

  lemma MapExtensional(m: map<string, string>, m': map<string, string>)
    requires forall x :: x in m <==> x in m'
    requires forall x | x in m' :: m[x] == m'[x]
    ensures m == m'
  {
  }
}
