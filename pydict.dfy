/**
  A Python `dict` with string keys, as the parser's registries use one: lookup
  by key, assignment `d[k] = v`, and enumeration of the values in the order in
  which their keys were first inserted.
 */
module PyDict {
  import opened Wrappers

  datatype Dict<V> = Dict(keys: seq<string>, items: map<string, V>) {

    /** Keys are listed once each, and exactly the keys that have entries are listed. */
    ghost predicate Valid() {
      && Unique(keys)
      && (forall k :: k in items <==> k in keys)
    }

    /** `d.get(k)`, with `None` for an absent key. */
    function Lookup(k: string): Option<V> {
      if k in items then Some(items[k]) else None
    }

    /** `d[k] = v`: a new key goes to the end of the order, an existing key keeps its place. */
    function Put(k: string, v: V): Dict<V> {
      if k in items then Dict(keys, items[k := v]) else Dict(keys + [k], items[k := v])
    }

    /** `list(d.values())` */
    function Values(): seq<V>
      requires Valid()
    {
      seq(|keys|, i requires 0 <= i < |keys| => items[keys[i]])
    }
  }

  /** No key is listed twice. */
  ghost predicate Unique(keys: seq<string>)
  {
    |keys| == 0 || (keys[|keys| - 1] !in keys[..|keys| - 1] && Unique(keys[..|keys| - 1]))
  }

  /** Two positions of a list without repetitions hold different keys. */
  lemma {:induction false} UniqueIndex(keys: seq<string>, i: nat, j: nat)
    requires Unique(keys) && i < j < |keys|
    ensures keys[i] != keys[j]
  {
    var front := keys[..|keys| - 1];
    if j == |keys| - 1 {
      assert keys[i] == front[i];
    } else {
      UniqueIndex(front, i, j);
    }
  }

  /** `{}` */
  function Empty<V>(): (d: Dict<V>)
    ensures d.Valid() && d.Values() == []
  {
    Dict([], map[])
  }

  /** The position of a listed key in the insertion order. */
  function IndexOf(keys: seq<string>, k: string): (i: nat)
    requires k in keys
    ensures i < |keys| && keys[i] == k
  {
    if keys[0] == k then 0 else 1 + IndexOf(keys[1..], k)
  }

  /** Assignment keeps a dict well formed; afterwards the key holds the new value and every other key its old one. */
  lemma PutSpec<V>(d: Dict<V>, k: string, v: V)
    requires d.Valid()
    ensures d.Put(k, v).Valid()
    ensures d.Put(k, v).Lookup(k) == Some(v)
    ensures forall k' :: k' != k ==> d.Put(k, v).Lookup(k') == d.Lookup(k')
  {
    if k !in d.items {
      assert (d.keys + [k])[..|d.keys|] == d.keys;
    }
  }

  /** A second assignment to the same key overrides the first. */
  lemma PutPut<V>(d: Dict<V>, k: string, v: V, w: V)
    ensures d.Put(k, v).Put(k, w) == d.Put(k, w)
  {
    assert d.items[k := v][k := w] == d.items[k := w];
  }

  /** Assigning to a new key appends its value to the enumeration. */
  lemma PutNewValues<V>(d: Dict<V>, k: string, v: V)
    requires d.Valid() && k !in d.items
    ensures d.Put(k, v).Valid()
    ensures d.Put(k, v).Values() == d.Values() + [v]
  {
    var e := d.Put(k, v);
    PutSpec(d, k, v);
    assert e.keys == d.keys + [k];
    forall i | 0 <= i < |e.keys| ensures e.Values()[i] == (d.Values() + [v])[i] {
      if i < |d.keys| {
        assert e.keys[i] == d.keys[i];
        assert d.keys[i] != k;
      }
    }
  }

  /** Assigning to an existing key replaces its value in place in the enumeration. */
  lemma PutOldValues<V>(d: Dict<V>, k: string, v: V)
    requires d.Valid() && k in d.items
    ensures d.Put(k, v).Valid()
    ensures d.Put(k, v).Values() == d.Values()[IndexOf(d.keys, k) := v]
  {
    var e := d.Put(k, v);
    var n := IndexOf(d.keys, k);
    forall i | 0 <= i < |e.keys| ensures e.Values()[i] == d.Values()[n := v][i] {
      if i < n {
        UniqueIndex(d.keys, i, n);
      } else if i > n {
        UniqueIndex(d.keys, n, i);
      }
    }
  }
}
