/** Python dictionaries as the modelled code uses them: insertion-ordered maps,
    and the nested `species -> property -> value` parameter tables written with
    `table[species][property] = value`. */
module Dicts {
  import opened Wrappers

  type Species = string
  type Property = string

  /** A parameter key `[species, property]`. */
  type Key = (Species, Property)

  /** An insertion-ordered dictionary: `order` lists the keys in the order in
      which they were first inserted, `items` holds the values. */
  datatype Dict<K, V> = Dict(order: seq<K>, items: map<K, V>)

  ghost predicate Distinct<T>(s: seq<T>) {
    forall i, j :: 0 <= i < j < |s| ==> s[i] != s[j]
  }

  ghost predicate Valid<K(!new), V>(d: Dict<K, V>) {
    Distinct(d.order) && forall k :: k in d.items <==> k in d.order
  }

  function Empty<K, V>(): Dict<K, V> {
    Dict([], map[])
  }

  /** `d[k] = v`: an existing key keeps its place, a new key goes last. */
  function Put<K(!new), V>(d: Dict<K, V>, k: K, v: V): (r: Dict<K, V>)
    ensures Valid(d) ==> Valid(r)
    ensures r.items.Keys == d.items.Keys + {k}
  {
    Dict(if k in d.items then d.order else d.order + [k], d.items[k := v])
  }

  type Params = Dict<Property, real>
  type Table = Dict<Species, Params>

  ghost predicate TableValid(t: Table) {
    Valid(t) && forall s :: s in t.items ==> Valid(t.items[s])
  }

  predicate Has(t: Table, s: Species, p: Property) {
    s in t.items && p in t.items[s].items
  }

  function At(t: Table, s: Species, p: Property): real
    requires Has(t, s, p)
  {
    t.items[s].items[p]
  }

  /** `t[s][p] = v`. The inner dictionary is updated in place, so the outer
      order never changes; `s` must already be present (else `KeyError`). */
  function Assign(t: Table, s: Species, p: Property, v: real): (r: Table)
    requires s in t.items
    ensures r.order == t.order && r.items.Keys == t.items.Keys
    ensures TableValid(t) ==> TableValid(r)
  {
    Put(t, s, Put(t.items[s], p, v))
  }

  /** Two tables with the same outer order and, per species, the same inner
      order and key set. */
  ghost predicate SameShape(t: Table, u: Table) {
    && t.order == u.order
    && t.items.Keys == u.items.Keys
    && forall s :: s in t.items ==>
         t.items[s].order == u.items[s].order && t.items[s].items.Keys == u.items[s].items.Keys
  }

  /** Tables of the same shape that agree on every entry are equal. */
  lemma {:induction false} TableExtensionality(t: Table, u: Table)
    requires SameShape(t, u)
    requires forall s, p :: Has(t, s, p) ==> At(t, s, p) == At(u, s, p)
    ensures t == u
  {
    forall s | s in t.items
      ensures t.items[s] == u.items[s]
    {
      assert forall p :: p in t.items[s].items ==> Has(t, s, p);
      assert t.items[s].items == u.items[s].items;
    }
    assert t.items == u.items;
  }

  /** Python's `zip`: pairs up to the shorter of the two sequences. */
  function Zip<A, B>(xs: seq<A>, ys: seq<B>): (z: seq<(A, B)>)
    ensures |z| == if |xs| <= |ys| then |xs| else |ys|
    ensures forall i :: 0 <= i < |z| ==> z[i] == (xs[i], ys[i])
  {
    seq(if |xs| <= |ys| then |xs| else |ys|, i requires 0 <= i < |xs| && i < |ys| => (xs[i], ys[i]))
  }

  ghost predicate SpeciesPresent(t: Table, pairs: seq<(Key, real)>) {
    forall i :: 0 <= i < |pairs| ==> pairs[i].0.0 in t.items
  }

  /** `for key, value in pairs: t[key[0]][key[1]] = value`. */
  function WriteAll(t: Table, pairs: seq<(Key, real)>): (r: Table)
    requires SpeciesPresent(t, pairs)
    ensures r.order == t.order && r.items.Keys == t.items.Keys
    ensures TableValid(t) ==> TableValid(r)
    decreases |pairs|
  {
    if pairs == [] then t
    else
      var last := pairs[|pairs| - 1];
      Assign(WriteAll(t, pairs[..|pairs| - 1]), last.0.0, last.0.1, last.1)
  }

  /** One more pair extends the writes by one assignment. */
  lemma WriteAllNext(t: Table, pairs: seq<(Key, real)>, i: nat)
    requires i < |pairs| && SpeciesPresent(t, pairs[..i]) && pairs[i].0.0 in t.items
    ensures SpeciesPresent(t, pairs[..i + 1])
    ensures WriteAll(t, pairs[..i + 1]) == Assign(WriteAll(t, pairs[..i]), pairs[i].0.0, pairs[i].0.1, pairs[i].1)
  {
    assert pairs[..i + 1][..i] == pairs[..i];
  }

  /** The value of the last pair written under `k`, if any. */
  function LastWritten(pairs: seq<(Key, real)>, k: Key): Option<real>
    decreases |pairs|
  {
    if pairs == [] then None
    else if pairs[|pairs| - 1].0 == k then Some(pairs[|pairs| - 1].1)
    else LastWritten(pairs[..|pairs| - 1], k)
  }

  /** `LastWritten` finds a value exactly when the key was written, and with
      distinct keys that value is the one zipped with it. */
  lemma {:induction false} LastWrittenFound(pairs: seq<(Key, real)>, k: Key)
    ensures LastWritten(pairs, k).Some? <==> exists i :: 0 <= i < |pairs| && pairs[i].0 == k
    ensures forall i :: 0 <= i < |pairs| && pairs[i].0 == k && (forall j :: i < j < |pairs| ==> pairs[j].0 != k)
              ==> LastWritten(pairs, k) == Some(pairs[i].1)
    decreases |pairs|
  {
    if pairs != [] {
      var init := pairs[..|pairs| - 1];
      LastWrittenFound(init, k);
      assert forall i :: 0 <= i < |init| ==> init[i] == pairs[i];
    }
  }

  /** Entry by entry, writing `pairs` gives the last value written under a key,
      and leaves every other entry as it was. */
  lemma {:induction false} WriteAllLookup(t: Table, pairs: seq<(Key, real)>, s: Species, p: Property)
    requires SpeciesPresent(t, pairs)
    ensures Has(WriteAll(t, pairs), s, p) <==> Has(t, s, p) || LastWritten(pairs, (s, p)).Some?
    ensures Has(WriteAll(t, pairs), s, p) ==>
              At(WriteAll(t, pairs), s, p) ==
                (if LastWritten(pairs, (s, p)).Some? then LastWritten(pairs, (s, p)).value else At(t, s, p))
    decreases |pairs|
  {
    if pairs != [] {
      var init := pairs[..|pairs| - 1];
      assert SpeciesPresent(t, init) by {
        assert forall i :: 0 <= i < |init| ==> init[i] == pairs[i];
      }
      WriteAllLookup(t, init, s, p);
    }
  }

  /** Writing keys that are all present changes no order and no key set. */
  lemma {:induction false} WriteAllCovered(t: Table, pairs: seq<(Key, real)>)
    requires forall i :: 0 <= i < |pairs| ==> Has(t, pairs[i].0.0, pairs[i].0.1)
    ensures SpeciesPresent(t, pairs)
    ensures SameShape(WriteAll(t, pairs), t)
    decreases |pairs|
  {
    if pairs != [] {
      var init := pairs[..|pairs| - 1];
      assert forall i :: 0 <= i < |init| ==> init[i] == pairs[i];
      WriteAllCovered(t, init);
      var last := pairs[|pairs| - 1];
      assert Has(WriteAll(t, init), last.0.0, last.0.1);
    }
  }

  /** `for param, key in zip(values, keys): t[key[0]][key[1]] = param`. */
  ghost predicate Writable(t: Table, keys: seq<Key>) {
    forall i :: 0 <= i < |keys| ==> keys[i].0 in t.items
  }

  /** Every key is an entry of `t`. */
  ghost predicate Covers(t: Table, keys: seq<Key>) {
    forall i :: 0 <= i < |keys| ==> Has(t, keys[i].0, keys[i].1)
  }

  function WriteBack(t: Table, keys: seq<Key>, values: seq<real>): (r: Table)
    requires Writable(t, keys)
    ensures r.order == t.order && r.items.Keys == t.items.Keys
    ensures TableValid(t) ==> TableValid(r)
  {
    WriteAll(t, Zip(keys, values))
  }

  /** With pairwise distinct keys, after the write-back the entry of the i-th
      key holds the i-th value, every other entry of `t` is unchanged, and when
      the keys were all present no key is added and no order changes. */
  lemma WriteBackEntries(t: Table, keys: seq<Key>, values: seq<real>)
    requires Writable(t, keys) && Distinct(keys)
    ensures forall i :: 0 <= i < |keys| && i < |values| ==>
              Has(WriteBack(t, keys, values), keys[i].0, keys[i].1) &&
              At(WriteBack(t, keys, values), keys[i].0, keys[i].1) == values[i]
    ensures forall s, p :: Has(t, s, p) && (forall i :: 0 <= i < |keys| && i < |values| ==> keys[i] != (s, p)) ==>
              Has(WriteBack(t, keys, values), s, p) && At(WriteBack(t, keys, values), s, p) == At(t, s, p)
    ensures Covers(t, keys) ==> SameShape(WriteBack(t, keys, values), t)
  {
    var z := Zip(keys, values);
    forall i | 0 <= i < |keys| && i < |values|
      ensures Has(WriteBack(t, keys, values), keys[i].0, keys[i].1)
      ensures At(WriteBack(t, keys, values), keys[i].0, keys[i].1) == values[i]
    {
      LastWrittenFound(z, keys[i]);
      WriteAllLookup(t, z, keys[i].0, keys[i].1);
    }
    forall s, p | Has(t, s, p) && (forall i :: 0 <= i < |keys| && i < |values| ==> keys[i] != (s, p))
      ensures Has(WriteBack(t, keys, values), s, p) && At(WriteBack(t, keys, values), s, p) == At(t, s, p)
    {
      LastWrittenFound(z, (s, p));
      WriteAllLookup(t, z, s, p);
    }
    if Covers(t, keys) {
      WriteAllCovered(t, z);
    }
  }

  /** The write-back adds exactly the written keys: an entry exists afterwards
      when it existed before or its key is zipped with some value. */
  lemma WriteBackKeys(t: Table, keys: seq<Key>, values: seq<real>)
    requires Writable(t, keys)
    ensures forall s, p :: Has(WriteBack(t, keys, values), s, p) <==>
              Has(t, s, p) || exists i :: 0 <= i < |keys| && i < |values| && keys[i] == (s, p)
  {
    var z := Zip(keys, values);
    forall s, p
      ensures Has(WriteBack(t, keys, values), s, p) <==>
                Has(t, s, p) || exists i :: 0 <= i < |keys| && i < |values| && keys[i] == (s, p)
    {
      LastWrittenFound(z, (s, p));
      WriteAllLookup(t, z, s, p);
      if exists i :: 0 <= i < |keys| && i < |values| && keys[i] == (s, p) {
        var i :| 0 <= i < |keys| && i < |values| && keys[i] == (s, p);
        assert z[i].0 == (s, p);
      }
    }
  }

  /** Writing back a vector after one of the same length leaves exactly what
      writing back the second vector alone leaves: the earlier write-back is
      wholly overwritten. (This is why every `penalty(x)` depends on `x` only.) */
  lemma {:induction false} WriteBackAbsorbs(t: Table, keys: seq<Key>, u: seq<real>, v: seq<real>)
    requires Covers(t, keys) && |u| == |v|
    ensures Writable(t, keys)
    ensures Covers(WriteBack(t, keys, u), keys)
    ensures WriteBack(WriteBack(t, keys, u), keys, v) == WriteBack(t, keys, v)
  {
    var zu, zv := Zip(keys, u), Zip(keys, v);
    assert forall i :: 0 <= i < |zu| ==> zu[i].0 == zv[i].0 == keys[i];
    WriteAllCovered(t, zu);
    var w := WriteBack(t, keys, u);
    assert Covers(w, keys);
    WriteAllCovered(w, zv);
    WriteAllCovered(t, zv);
    var lhs, rhs := WriteBack(w, keys, v), WriteBack(t, keys, v);
    forall s, p | Has(lhs, s, p)
      ensures At(lhs, s, p) == At(rhs, s, p)
    {
      LastWrittenFound(zu, (s, p));
      LastWrittenFound(zv, (s, p));
      WriteAllLookup(w, zv, s, p);
      WriteAllLookup(t, zu, s, p);
      WriteAllLookup(t, zv, s, p);
    }
    TableExtensionality(lhs, rhs);
  }
}
