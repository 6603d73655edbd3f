/**
 An insertion-ordered key/value table. It models both a TinyDB table whose
 documents are keyed by their `id` field and a Python dict: `order` lists the
 keys in the order they were first inserted, `docs` holds the entries.
 */
module Tables {
  import opened Options

  datatype Table<K(!new), V> = Table(order: seq<K>, docs: map<K, V>) {

    /** Every key appears once in `order`, and `order` lists exactly the keys of `docs`. */
    ghost predicate Valid() {
      && Distinct(order)
      && (forall k :: k in docs <==> k in order)
    }

    /** `dict.get(k)`: the entry of a present key, and `None` for an absent one. */
    function Get(k: K): (r: Option<V>)
      ensures r.Some? <==> k in docs
      ensures r.Some? ==> r.value == docs[k]
    {
      if k in docs then Some(docs[k]) else None
    }

    /**
     TinyDB `upsert` and Python `d[k] = v`: overwrite the entry of a present
     key in place, or append a new key at the end of the order.
     */
    function Upsert(k: K, v: V): (t: Table<K, V>)
      ensures Valid() ==> t.Valid()
    {
      DistinctAppend(order, k);
      Table(if k in docs then order else order + [k], docs[k := v])
    }

    /** TinyDB `update(doc, where('id') == k)`: rewrites a present entry, does nothing otherwise. */
    function Update(k: K, v: V): (t: Table<K, V>)
      ensures Valid() ==> t.Valid()
      ensures t.docs.Keys == docs.Keys
    {
      if k in docs then Table(order, docs[k := v]) else this
    }

    /** `dict.pop(k, None)`: drops the key if it is present. */
    function Pop(k: K): (t: Table<K, V>)
      ensures Valid() ==> t.Valid()
      ensures t.docs == docs - {k}
    {
      Table(Without(order, k), docs - {k})
    }

    /** `dict.values()` and the documents of a table scan, in insertion order. */
    function Rows(): (rs: seq<V>)
      requires Valid()
      ensures |rs| == |order|
      ensures forall i :: 0 <= i < |order| ==> rs[i] == docs[order[i]]
    {
      seq(|order|, i requires 0 <= i < |order| => docs[order[i]])
    }
  }

  function Empty<K(!new), V>(): (t: Table<K, V>)
    ensures t.Valid() && t.docs == map[]
  {
    Table([], map[])
  }

  /** No element occurs twice. */
  ghost predicate Distinct<K>(s: seq<K>) {
    s == [] || (s[0] !in s[1..] && Distinct(s[1..]))
  }

  /** Appending an element that is not there yet keeps the elements distinct. */
  lemma {:induction false} DistinctAppend<K>(s: seq<K>, k: K)
    ensures Distinct(s) && k !in s ==> Distinct(s + [k])
  {
    if s != [] && Distinct(s) && k !in s {
      DistinctAppend(s[1..], k);
      assert (s + [k])[1..] == s[1..] + [k];
    }
  }

  /** In a sequence of distinct elements, the element at `i` does not occur before `i`. */
  lemma {:induction false} DistinctAt<K>(s: seq<K>, i: nat)
    requires Distinct(s) && i < |s|
    ensures s[i] !in s[..i]
  {
    if i > 0 {
      DistinctAt(s[1..], i - 1);
      assert s[..i] == [s[0]] + s[1..][..i - 1];
    }
  }

  /** Dropping the last element keeps the elements distinct, and the last one does not occur before it. */
  lemma {:induction false} DistinctFront<K>(s: seq<K>)
    requires Distinct(s) && s != []
    ensures Distinct(s[..|s| - 1]) && s[|s| - 1] !in s[..|s| - 1]
  {
    DistinctAt(s, |s| - 1);
    if |s| > 1 {
      DistinctFront(s[1..]);
      assert s[..|s| - 1][1..] == s[1..][..|s| - 2];
    }
  }

  /** `s` with every occurrence of `k` removed, the rest in order. */
  function Without<K(==, !new)>(s: seq<K>, k: K): (r: seq<K>)
    ensures forall x :: x in r <==> x in s && x != k
    ensures Distinct(s) ==> Distinct(r)
  {
    if s == [] then []
    else if s[0] == k then Without(s[1..], k)
    else
      var rest := Without(s[1..], k);
      assert ([s[0]] + rest)[1..] == rest;
      [s[0]] + rest
  }

  /** A value occurs among the rows exactly when some key maps to it. */
  lemma RowsHold<K(!new), V>(t: Table<K, V>, v: V)
    requires t.Valid()
    ensures v in t.Rows() <==> exists k :: k in t.docs && t.docs[k] == v
  {
    var rs := t.Rows();
    if v in rs {
      var i :| 0 <= i < |rs| && rs[i] == v;
      assert t.order[i] in t.docs;
    }
    if exists k :: k in t.docs && t.docs[k] == v {
      var k :| k in t.docs && t.docs[k] == v;
      var i :| 0 <= i < |t.order| && t.order[i] == k;
      assert rs[i] == v;
    }
  }
}
