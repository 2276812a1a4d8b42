/**
 * Insertion-ordered dictionaries (Python's `dict` and `OrderedDict`):
 * assigning to a new key appends it to the key order, assigning to a
 * present key replaces its value and keeps its position.
 */
module OrderedDicts {
  import opened Seqs

  predicate Distinct<T(==)>(s: seq<T>)
  {
    forall i, j :: 0 <= i < j < |s| ==> s[i] != s[j]
  }

  /** The elements of `s` in order of first occurrence, each once. */
  function Dedup<T(==)>(s: seq<T>): (r: seq<T>)
    ensures Distinct(r)
    ensures forall x :: x in r ==> x in s
    ensures forall x :: x in s ==> x in r
  {
    if s == [] then []
    else
      var d := Dedup(s[..|s| - 1]);
      assert s == s[..|s| - 1] + [s[|s| - 1]];
      if s[|s| - 1] in d then d else d + [s[|s| - 1]]
  }

  lemma {:induction false} DedupOfDistinct<T>(s: seq<T>)
    requires Distinct(s)
    ensures Dedup(s) == s
  {
    if s != [] {
      DedupOfDistinct(s[..|s| - 1]);
    }
  }

  /** Appending an element adds it to the end of the first occurrences, unless it already occurred. */
  lemma DedupSnoc<T>(s: seq<T>, x: T)
    ensures Dedup(s + [x]) == if x in Dedup(s) then Dedup(s) else Dedup(s) + [x]
  {
    assert (s + [x])[..|s|] == s;
  }

  /** Keys already present and distinct stay in front of the keys that follow them. */
  lemma {:induction false} DedupDisjointPrefix<T>(a: seq<T>, b: seq<T>)
    requires Distinct(a)
    requires forall x :: x in b ==> x !in a
    ensures Dedup(a + b) == a + Dedup(b)
  {
    if b == [] {
      assert a + b == a;
      DedupOfDistinct(a);
    } else {
      var init, x := b[..|b| - 1], b[|b| - 1];
      DedupDisjointPrefix(a, init);
      AppendSnoc(a, init, x);
      assert b == init + [x];
      DedupSnoc(a + init, x);
      DedupSnoc(init, x);
    }
  }

  datatype OrderedDict<K(==), V> = OrderedDict(keys: seq<K>, values: map<K, V>)
  {
    /** The key order lists each key of the map exactly once. */
    ghost predicate Valid()
    {
      && Distinct(keys)
      && (forall k :: k in values ==> k in keys)
      && (forall k :: k in keys ==> k in values)
    }

    /** `d[k] = v`. */
    function Put(k: K, v: V): (d: OrderedDict<K, V>)
      requires Valid()
      ensures d.Valid()
      ensures d.values == values[k := v]
      ensures k in values ==> d.keys == keys
      ensures k !in values ==> d.keys == keys + [k]
    {
      if k in values then OrderedDict(keys, values[k := v])
      else OrderedDict(keys + [k], values[k := v])
    }
  }

  function Empty<K, V>(): (d: OrderedDict<K, V>)
    ensures d.Valid() && d.keys == []
  {
    OrderedDict([], map[])
  }

  /** Assigning the entries one after another, in order. */
  function PutAll<K, V>(d: OrderedDict<K, V>, entries: seq<(K, V)>): (r: OrderedDict<K, V>)
    requires d.Valid()
    ensures r.Valid()
  {
    if entries == [] then d
    else PutAll(d, entries[..|entries| - 1]).Put(entries[|entries| - 1].0, entries[|entries| - 1].1)
  }

  function KeysOf<K, V>(entries: seq<(K, V)>): (ks: seq<K>)
    ensures |ks| == |entries|
    ensures forall i :: 0 <= i < |entries| ==> ks[i] == entries[i].0
  {
    seq(|entries|, i requires 0 <= i < |entries| => entries[i].0)
  }

  lemma KeysOfSnoc<K, V>(entries: seq<(K, V)>)
    requires |entries| > 0
    ensures KeysOf(entries) == KeysOf(entries[..|entries| - 1]) + [entries[|entries| - 1].0]
  {
  }

  /** The value of the last entry whose key is `k`. */
  function LastValue<K(==), V>(entries: seq<(K, V)>, k: K): V
    requires k in KeysOf(entries)
  {
    var n := |entries|;
    if entries[n - 1].0 == k then entries[n - 1].1
    else
      assert KeysOf(entries) == KeysOf(entries[..n - 1]) + [entries[n - 1].0];
      LastValue(entries[..n - 1], k)
  }

  /** LastValue is the value of an entry with key `k` that no later entry with key `k` follows. */
  lemma {:induction false} LastValueIsLast<K, V>(entries: seq<(K, V)>, k: K)
    requires k in KeysOf(entries)
    ensures exists i :: 0 <= i < |entries| && entries[i] == (k, LastValue(entries, k))
                        && forall j :: i < j < |entries| ==> entries[j].0 != k
  {
    var n := |entries|;
    if entries[n - 1].0 != k {
      assert KeysOf(entries) == KeysOf(entries[..n - 1]) + [entries[n - 1].0];
      var pre := entries[..n - 1];
      LastValueIsLast(pre, k);
      var i :| 0 <= i < n - 1 && pre[i] == (k, LastValue(pre, k))
               && forall j :: i < j < n - 1 ==> pre[j].0 != k;
      assert entries[i] == (k, LastValue(entries, k));
    } else {
      assert entries[n - 1] == (k, LastValue(entries, k));
    }
  }

  /**
   * The keys after a run of assignments are the old keys followed by the
   * new keys in order of first assignment.
   */
  lemma {:induction false} PutAllKeys<K, V>(d: OrderedDict<K, V>, entries: seq<(K, V)>)
    requires d.Valid()
    ensures PutAll(d, entries).keys == Dedup(d.keys + KeysOf(entries))
  {
    if entries == [] {
      assert d.keys + KeysOf(entries) == d.keys;
      DedupOfDistinct(d.keys);
    } else {
      var n := |entries|;
      var pre, k := entries[..n - 1], entries[n - 1].0;
      PutAllKeys(d, pre);
      var init := d.keys + KeysOf(pre);
      KeysOfSnoc(entries);
      AppendSnoc(d.keys, KeysOf(pre), k);
      PutKeysStep(PutAll(d, pre), k, entries[n - 1].1, init);
    }
  }

  /** One assignment extends the first occurrences of the keys so far by the new key, when it is new. */
  lemma PutKeysStep<K, V>(prior: OrderedDict<K, V>, k: K, v: V, keys0: seq<K>)
    requires prior.Valid() && prior.keys == Dedup(keys0)
    ensures prior.Put(k, v).keys == Dedup(keys0 + [k])
  {
    DedupSnoc(keys0, k);
  }

  /** Each assigned key holds the value it was assigned last; other keys keep their value. */
  lemma {:induction false} PutAllValues<K, V>(d: OrderedDict<K, V>, entries: seq<(K, V)>, k: K)
    requires d.Valid()
    ensures k in KeysOf(entries) ==> k in PutAll(d, entries).values && PutAll(d, entries).values[k] == LastValue(entries, k)
    ensures k !in KeysOf(entries) ==> (k in PutAll(d, entries).values <==> k in d.values)
    ensures k !in KeysOf(entries) && k in d.values ==> PutAll(d, entries).values[k] == d.values[k]
  {
    if entries != [] {
      var n := |entries|;
      assert KeysOf(entries) == KeysOf(entries[..n - 1]) + [entries[n - 1].0];
      PutAllValues(d, entries[..n - 1], k);
    }
  }
}
