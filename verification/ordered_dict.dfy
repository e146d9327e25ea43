/**
  Python's `dict`, which remembers insertion order: assigning to an existing
  key keeps its place, assigning to a new key appends it, `del` removes it.
  The order matters because the bot's handlers take the FIRST game that
  matches a condition while iterating over the dictionary.
*/
module OrderedDict {
  import opened Wrappers

  datatype Entry<K, V> = Entry(key: K, value: V)

  type Dict<K, V> = seq<Entry<K, V>>

  function Keys<K, V>(d: Dict<K, V>): (ks: seq<K>)
    ensures |ks| == |d|
    ensures forall i :: 0 <= i < |d| ==> ks[i] == d[i].key
  {
    seq(|d|, i requires 0 <= i < |d| => d[i].key)
  }

  /** A real dictionary never holds a key twice. */
  predicate DistinctKeys<K(==), V>(d: Dict<K, V>) {
    forall i, j :: 0 <= i < j < |d| ==> d[i].key != d[j].key
  }

  /** The mapping the dictionary denotes (an earlier entry shadows a later one). */
  function View<K, V>(d: Dict<K, V>): map<K, V>
  {
    if d == [] then map[] else View(d[1..])[d[0].key := d[0].value]
  }

  lemma ViewCons<K, V>(e: Entry<K, V>, d: Dict<K, V>)
    ensures View([e] + d) == View(d)[e.key := e.value]
  {
    assert ([e] + d)[1..] == d;
  }

  /** Every stored key is visible, and a key occurs in the view only if it is stored. */
  lemma {:induction false} ViewKeys<K, V>(d: Dict<K, V>, k: K)
    ensures k in View(d) <==> k in Keys(d)
  {
    if d != [] {
      ViewKeys(d[1..], k);
      assert Keys(d) == [d[0].key] + Keys(d[1..]);
    }
  }

  /** With distinct keys, the view maps each stored key to its stored value. */
  lemma {:induction false} ViewAt<K, V>(d: Dict<K, V>, i: nat)
    requires DistinctKeys(d) && i < |d|
    ensures d[i].key in View(d) && View(d)[d[i].key] == d[i].value
  {
    if i > 0 {
      ViewAt(d[1..], i - 1);
    }
  }

  /** `d.get(k)`. */
  function Get<K(==), V>(d: Dict<K, V>, k: K): (r: Option<V>)
    ensures r.Some? <==> k in View(d)
    ensures r.Some? ==> r.value == View(d)[k]
  {
    if d == [] then None
    else if d[0].key == k then Some(d[0].value)
    else Get(d[1..], k)
  }

  lemma DistinctCons<K, V>(e: Entry<K, V>, rest: Dict<K, V>)
    requires DistinctKeys(rest) && e.key !in Keys(rest)
    ensures DistinctKeys([e] + rest)
  {
    forall i, j | 0 <= i < j < |rest| + 1
      ensures ([e] + rest)[i].key != ([e] + rest)[j].key
    {
      if i == 0 {
        assert ([e] + rest)[j].key == Keys(rest)[j - 1];
      }
    }
  }

  lemma DistinctTail<K, V>(d: Dict<K, V>)
    requires DistinctKeys(d) && d != []
    ensures DistinctKeys(d[1..]) && d[0].key !in Keys(d[1..])
  {
    forall j | 0 <= j < |d| - 1
      ensures Keys(d[1..])[j] != d[0].key
    {
      assert Keys(d[1..])[j] == d[j + 1].key;
    }
  }

  /** `d[k] = v`. */
  function Set<K(==), V>(d: Dict<K, V>, k: K, v: V): (r: Dict<K, V>)
    ensures View(r) == View(d)[k := v]
    ensures k in View(d) ==> Keys(r) == Keys(d)
    ensures k !in View(d) ==> Keys(r) == Keys(d) + [k]
    ensures DistinctKeys(d) ==> DistinctKeys(r)
  {
    if d == [] then [Entry(k, v)]
    else if d[0].key == k then
      SetHead(d, v);
      [Entry(k, v)] + d[1..]
    else
      var rest := Set(d[1..], k, v);
      SetTail(d, k, v, rest);
      [d[0]] + rest
  }

  lemma SetHead<K, V>(d: Dict<K, V>, v: V)
    requires d != []
    ensures View([Entry(d[0].key, v)] + d[1..]) == View(d)[d[0].key := v]
    ensures Keys([Entry(d[0].key, v)] + d[1..]) == Keys(d)
    ensures d[0].key in View(d)
    ensures DistinctKeys(d) ==> DistinctKeys([Entry(d[0].key, v)] + d[1..])
  {
    ViewCons(Entry(d[0].key, v), d[1..]);
    if DistinctKeys(d) {
      DistinctTail(d);
      DistinctCons(Entry(d[0].key, v), d[1..]);
    }
  }

  lemma SetTail<K, V>(d: Dict<K, V>, k: K, v: V, rest: Dict<K, V>)
    requires d != [] && d[0].key != k
    requires View(rest) == View(d[1..])[k := v]
    requires k in View(d[1..]) ==> Keys(rest) == Keys(d[1..])
    requires k !in View(d[1..]) ==> Keys(rest) == Keys(d[1..]) + [k]
    requires DistinctKeys(d[1..]) ==> DistinctKeys(rest)
    ensures View([d[0]] + rest) == View(d)[k := v]
    ensures k in View(d) ==> Keys([d[0]] + rest) == Keys(d)
    ensures k !in View(d) ==> Keys([d[0]] + rest) == Keys(d) + [k]
    ensures DistinctKeys(d) ==> DistinctKeys([d[0]] + rest)
  {
    ViewCons(d[0], rest);
    var m := View(d[1..]);
    assert View(d) == m[d[0].key := d[0].value];
    assert m[k := v][d[0].key := d[0].value] == m[d[0].key := d[0].value][k := v];
    assert k in View(d) <==> k in m;
    SetTailKeys(d, k, rest);
    if DistinctKeys(d) {
      DistinctTail(d);
      DistinctCons(d[0], rest);
    }
  }

  lemma SetTailKeys<K, V>(d: Dict<K, V>, k: K, rest: Dict<K, V>)
    requires d != []
    requires Keys(rest) == Keys(d[1..]) || Keys(rest) == Keys(d[1..]) + [k]
    ensures Keys(rest) == Keys(d[1..]) ==> Keys([d[0]] + rest) == Keys(d)
    ensures Keys(rest) == Keys(d[1..]) + [k] ==> Keys([d[0]] + rest) == Keys(d) + [k]
    ensures d[0].key != k && !(d[0].key in Keys(d[1..])) ==> d[0].key !in Keys(rest)
  {
    assert Keys([d[0]] + rest) == [d[0].key] + Keys(rest);
    assert Keys(d) == [d[0].key] + Keys(d[1..]);
  }

  /** `del d[k]` when `k` is present; no change otherwise. */
  function Remove<K(==), V>(d: Dict<K, V>, k: K): (r: Dict<K, V>)
    ensures View(r) == View(d) - {k}
    ensures k !in View(d) ==> r == d
    ensures DistinctKeys(d) ==> DistinctKeys(r)
    ensures forall x :: x in Keys(r) ==> x in Keys(d) && x != k
    ensures |r| <= |d|
  {
    if d == [] then []
    else if d[0].key == k then
      assert View(d) - {k} == View(d[1..]) - {k};
      Remove(d[1..], k)
    else
      var rest := Remove(d[1..], k);
      RemoveTail(d, k, rest);
      [d[0]] + rest
  }

  /** With distinct keys, `del d[k]` takes out exactly the entry holding k and
      keeps every other entry in its insertion order. */
  lemma {:induction false} RemoveAt<K, V>(d: Dict<K, V>, k: K, i: nat)
    requires DistinctKeys(d) && i < |d| && d[i].key == k
    ensures Remove(d, k) == d[..i] + d[i + 1..]
  {
    if i == 0 {
      assert forall j :: 0 <= j < |d| - 1 ==> Keys(d[1..])[j] == d[j + 1].key != k;
      ViewKeys(d[1..], k);
    } else {
      assert d[0].key != k;
      RemoveAt(d[1..], k, i - 1);
      assert d[..i] + d[i + 1..] == [d[0]] + (d[1..][..i - 1] + d[1..][i..]);
    }
  }

  /** The key of the entry at position i is in the view; with distinct keys,
      deleting it takes out exactly that entry. */
  lemma RemoveEntry<K, V>(d: Dict<K, V>, i: nat)
    requires i < |d|
    ensures d[i].key in View(d)
    ensures DistinctKeys(d) ==> Remove(d, d[i].key) == d[..i] + d[i + 1..]
  {
    ViewKeys(d, d[i].key);
    assert Keys(d)[i] == d[i].key;
    if DistinctKeys(d) {
      RemoveAt(d, d[i].key, i);
    }
  }

  lemma RemoveTail<K, V>(d: Dict<K, V>, k: K, rest: Dict<K, V>)
    requires d != [] && d[0].key != k
    requires View(rest) == View(d[1..]) - {k}
    requires k !in View(d[1..]) ==> rest == d[1..]
    requires DistinctKeys(d[1..]) ==> DistinctKeys(rest)
    requires forall x :: x in Keys(rest) ==> x in Keys(d[1..]) && x != k
    ensures View([d[0]] + rest) == View(d) - {k}
    ensures k !in View(d) ==> [d[0]] + rest == d
    ensures DistinctKeys(d) ==> DistinctKeys([d[0]] + rest)
    ensures forall x :: x in Keys([d[0]] + rest) ==> x in Keys(d) && x != k
  {
    RemoveTailView(d, k, rest);
    RemoveTailKeys(d, k, rest);
  }

  lemma RemoveTailView<K, V>(d: Dict<K, V>, k: K, rest: Dict<K, V>)
    requires d != [] && d[0].key != k
    requires View(rest) == View(d[1..]) - {k}
    requires k !in View(d[1..]) ==> rest == d[1..]
    ensures View([d[0]] + rest) == View(d) - {k}
    ensures k !in View(d) ==> [d[0]] + rest == d
  {
    ViewCons(d[0], rest);
    assert View(d) == View(d[1..])[d[0].key := d[0].value];
    assert d == [d[0]] + d[1..];
  }

  lemma RemoveTailKeys<K, V>(d: Dict<K, V>, k: K, rest: Dict<K, V>)
    requires d != [] && d[0].key != k
    requires DistinctKeys(d[1..]) ==> DistinctKeys(rest)
    requires forall x :: x in Keys(rest) ==> x in Keys(d[1..]) && x != k
    ensures DistinctKeys(d) ==> DistinctKeys([d[0]] + rest)
    ensures forall x :: x in Keys([d[0]] + rest) ==> x in Keys(d) && x != k
  {
    forall x | x in Keys([d[0]] + rest)
      ensures x in Keys(d) && x != k
    {
      var m :| 0 <= m < |rest| + 1 && Keys([d[0]] + rest)[m] == x;
      if m == 0 {
        assert Keys(d)[0] == x;
      } else {
        assert Keys(rest)[m - 1] == x;
        assert x in Keys(rest);
        var p :| 0 <= p < |d| - 1 && Keys(d[1..])[p] == x;
        assert Keys(d)[p + 1] == x;
      }
    }
    if DistinctKeys(d) {
      DistinctTail(d);
      DistinctCons(d[0], rest);
    }
  }

  /** Mutating, in place, the value found at position `i`: the keys and their
      order stay, and under distinct keys the view changes at that key only. */
  function UpdateAt<K(==), V>(d: Dict<K, V>, i: nat, v: V): (r: Dict<K, V>)
    requires i < |d|
    ensures Keys(r) == Keys(d)
    ensures r[i].value == v && forall j :: 0 <= j < |d| && j != i ==> r[j] == d[j]
    ensures DistinctKeys(d) ==> DistinctKeys(r) && View(r) == View(d)[d[i].key := v]
  {
    var r := d[i := Entry(d[i].key, v)];
    assert forall j :: 0 <= j < |d| ==> Keys(r)[j] == Keys(d)[j];
    if DistinctKeys(d) then
      ViewUpdateAt(d, i, v);
      r
    else r
  }

  lemma {:induction false} ViewUpdateAt<K, V>(d: Dict<K, V>, i: nat, v: V)
    requires i < |d| && DistinctKeys(d)
    ensures View(d[i := Entry(d[i].key, v)]) == View(d)[d[i].key := v]
    decreases i
  {
    var e := Entry(d[i].key, v);
    if i == 0 {
      assert d[i := e] == [e] + d[1..];
      ViewCons(e, d[1..]);
      ViewCons(d[0], d[1..]);
      assert d == [d[0]] + d[1..];
    } else {
      var tail := d[1..];
      DistinctTail(d);
      assert tail[i - 1] == d[i];
      ViewUpdateAt(tail, i - 1, v);
      assert d[i := e] == [d[0]] + tail[i - 1 := e];
      ViewCons(d[0], tail[i - 1 := e]);
      ViewCons(d[0], tail);
      assert d == [d[0]] + tail;
      assert Keys(d)[0] != Keys(d)[i];
      MapUpdatesCommute(View(tail), d[0].key, d[0].value, d[i].key, v);
    }
  }

  lemma MapUpdatesCommute<K, V>(m: map<K, V>, a: K, x: V, b: K, y: V)
    requires a != b
    ensures m[b := y][a := x] == m[a := x][b := y]
  {
  }

  /** `next((i for i, (k, v) in enumerate(d.items()) if p(k, v)), None)`:
      the position of the first entry satisfying `p`. */
  function FindFirst<K, V>(d: Dict<K, V>, p: (K, V) -> bool): (r: Option<nat>)
    ensures r.Some? ==> r.value < |d| && p(d[r.value].key, d[r.value].value)
    ensures r.Some? ==> forall j :: 0 <= j < r.value ==> !p(d[j].key, d[j].value)
    ensures r.None? ==> forall j :: 0 <= j < |d| ==> !p(d[j].key, d[j].value)
  {
    if d == [] then None
    else if p(d[0].key, d[0].value) then Some(0)
    else match FindFirst(d[1..], p)
      case None => None
      case Some(i) => Some(i + 1)
  }
}
