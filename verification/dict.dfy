/**
 A Python dict from symbol to signed position, as the widget builds it.
 A Python dict remembers insertion order, and the spread PnL loop visits the
 legs in that order, so the dict is a sequence of entries with distinct keys;
 `ToMap` is its unordered view.
 */
module PyDict {

  /** One `symbol: position` item. */
  datatype Entry = Entry(key: string, value: int)

  type Dict = seq<Entry>

  /** The keys of the dict. */
  function Keys(d: Dict): set<string> {
    if d == [] then {} else {d[0].key} + Keys(d[1..])
  }

  /** The dict invariant: no key occurs twice. */
  predicate DistinctKeys(d: Dict) {
    d == [] || (d[0].key !in Keys(d[1..]) && DistinctKeys(d[1..]))
  }

  /** The unordered view of the dict. */
  function ToMap(d: Dict): (m: map<string, int>)
    ensures m.Keys == Keys(d)
  {
    if d == [] then map[] else ToMap(d[1..])[d[0].key := d[0].value]
  }

  /** The keys of two dicts one after the other are the keys of both. */
  lemma {:induction false} KeysAppend(a: Dict, b: Dict)
    ensures Keys(a + b) == Keys(a) + Keys(b)
  {
    if a == [] {
      assert a + b == b;
    } else {
      assert (a + b)[1..] == a[1..] + b;
      KeysAppend(a[1..], b);
    }
  }

  /** A key is in the dict exactly when some entry carries it. */
  lemma {:induction false} KeysAt(d: Dict, k: string)
    ensures k in Keys(d) <==> exists i :: 0 <= i < |d| && d[i].key == k
  {
    if d != [] {
      KeysAt(d[1..], k);
      if k in Keys(d[1..]) {
        var i :| 0 <= i < |d[1..]| && d[1..][i].key == k;
        assert d[i + 1].key == k;
      }
      if exists i :: 0 <= i < |d| && d[i].key == k {
        var i :| 0 <= i < |d| && d[i].key == k;
        if i > 0 { assert d[1..][i - 1].key == k; }
      }
    }
  }

  /** `d[k] = v`: an existing key keeps its position and takes the new value;
      a new key is appended at the end. */
  function SetItem(d: Dict, k: string, v: int): (r: Dict)
    ensures Keys(r) == Keys(d) + {k}
    ensures DistinctKeys(d) ==> DistinctKeys(r)
    ensures k in Keys(d) ==> |r| == |d| && forall i :: 0 <= i < |d| ==> r[i].key == d[i].key
    ensures k !in Keys(d) ==> r == d + [Entry(k, v)]
  {
    if d == [] then [Entry(k, v)]
    else if d[0].key == k then
      var r := [Entry(k, v)] + d[1..];
      assert r[1..] == d[1..];
      r
    else
      var rest := SetItem(d[1..], k, v);
      var r := [d[0]] + rest;
      assert r[1..] == rest;
      r
  }

  /** After `d[k] = v` the view maps `k` to `v` and every other key as before. */
  lemma {:induction false} SetItemView(d: Dict, k: string, v: int)
    ensures ToMap(SetItem(d, k, v)) == ToMap(d)[k := v]
  {
    if d != [] && d[0].key != k {
      var rest := SetItem(d[1..], k, v);
      assert SetItem(d, k, v)[1..] == rest;
      SetItemView(d[1..], k, v);
    }
  }

  /** Dropping the entry at index `i` removes exactly its key from the view. */
  lemma {:induction false} ToMapRemove(d: Dict, i: nat)
    requires DistinctKeys(d)
    requires i < |d|
    ensures DistinctKeys(d[..i] + d[i + 1..])
    ensures ToMap(d[..i] + d[i + 1..]) == ToMap(d) - {d[i].key}
  {
    var e := d[..i] + d[i + 1..];
    if i == 0 {
      assert e == d[1..];
    } else {
      var t := d[1..];
      ToMapRemove(t, i - 1);
      var f := t[..i - 1] + t[i..];
      assert e == [d[0]] + f;
      assert e[1..] == f;
      assert t[i - 1] == d[i];
      KeysAt(t, d[i].key);
      assert d[0].key != d[i].key;
      assert ToMap(e) == ToMap(f)[d[0].key := d[0].value];
    }
  }

  /** In a dict, the view maps every entry's key to that entry's value. */
  lemma {:induction false} ToMapAt(d: Dict, i: nat)
    requires DistinctKeys(d)
    requires i < |d|
    ensures d[i].key in Keys(d)
    ensures ToMap(d)[d[i].key] == d[i].value
  {
    if i > 0 {
      assert d[1..][i - 1] == d[i];
      ToMapAt(d[1..], i - 1);
      KeysAt(d[1..], d[i].key);
    }
  }

  /** Concatenating dicts with disjoint keys gives a dict whose view is the union. */
  lemma {:induction false} DisjointConcat(a: Dict, b: Dict)
    requires DistinctKeys(a) && DistinctKeys(b)
    requires Keys(a) !! Keys(b)
    ensures Keys(a + b) == Keys(a) + Keys(b)
    ensures DistinctKeys(a + b)
    ensures ToMap(a + b) == ToMap(a) + ToMap(b)
  {
    KeysAppend(a, b);
    if a == [] {
      assert a + b == b;
    } else {
      var k, t := a[0].key, a[1..];
      assert (a + b)[0] == a[0] && (a + b)[1..] == t + b;
      DisjointConcat(t, b);
      assert k !in Keys(t + b);
      assert ToMap(a + b) == ToMap(t + b)[k := a[0].value];
      assert k !in ToMap(b);
      assert ToMap(a) == ToMap(t)[k := a[0].value];
    }
  }
}
