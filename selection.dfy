/** Selection of the parameters to optimise in `minimize_parameters`
    (fitter/fit.py:109-134): a flat value vector, the parallel list of
    `[species, property]` keys, and the start table pruned to those keys. */
module ParameterSelection {
  import opened Wrappers
  import opened Dicts
  import opened SpeciesOrder

  /** What the inner loop over one species' start parameters appends:
      values, keys, and the pruned per-species dictionary `current`. */
  datatype Picked = Picked(values: seq<real>, keys: seq<Key>, current: Params)

  /** `parameters_values`, `parameters_keys` and `parameters`. */
  datatype Selection = Selection(values: seq<real>, keys: seq<Key>, parameters: Table)

  /** The inner loop of the selection for species `a` over the start keys `ks`. */
  function Pick(a: Species, d: Params, ks: seq<Property>, ignore: seq<Property>): (r: Picked)
    requires forall k :: k in ks ==> k in d.items
    ensures |r.values| == |r.keys| <= |ks|
    decreases |ks|
  {
    if ks == [] then Picked([], [], Empty())
    else
      var prev := Pick(a, d, ks[..|ks| - 1], ignore);
      var key := ks[|ks| - 1];
      if key in ignore then prev
      else Picked(prev.values + [d.items[key]], prev.keys + [(a, key)], Put(prev.current, key, d.items[key]))
  }

  /** The outer loop of the selection over the species `atoms`. */
  function Select(atoms: seq<Species>, start: Table, ignore: seq<Property>): (r: Selection)
    requires TableValid(start)
    requires forall a :: a in atoms ==> a in start.items
    ensures |r.values| == |r.keys|
    decreases |atoms|
  {
    if atoms == [] then Selection([], [], Empty())
    else
      var prev := Select(atoms[..|atoms| - 1], start, ignore);
      var atom := atoms[|atoms| - 1];
      var d := start.items[atom];
      var picked := Pick(atom, d, d.order, ignore);
      Selection(prev.values + picked.values, prev.keys + picked.keys, Put(prev.parameters, atom, picked.current))
  }

  /** Selects the parameters of the species occurring in `molsAtoms` from the
      start table; the first species, in ascending order, without start
      parameters raises `KeyError`. */
  method SelectParameters(molsAtoms: seq<seq<Species>>, start: Table, ignore: seq<Property>)
    returns (r: Result<Selection, Exception>)
    requires TableValid(start)
    ensures r.Ok? <==> forall a :: a in SpeciesOf(molsAtoms) ==> a in start.items
    ensures r.Ok? ==> r.value == Select(SpeciesOf(molsAtoms), start, ignore)
    ensures r.Err? ==>
      exists i ::
        && 0 <= i < |SpeciesOf(molsAtoms)|
        && SpeciesOf(molsAtoms)[i] !in start.items
        && r.error == KeyError(SpeciesOf(molsAtoms)[i])
        && forall j :: 0 <= j < i ==> SpeciesOf(molsAtoms)[j] in start.items
  {
    var atoms := SpeciesOf(molsAtoms);
    var parametersValues: seq<real> := [];
    var parametersKeys: seq<Key> := [];
    var parameters: Table := Empty();
    for i := 0 to |atoms|
      invariant forall a :: a in atoms[..i] ==> a in start.items
      invariant Selection(parametersValues, parametersKeys, parameters) == Select(atoms[..i], start, ignore)
    {
      var atom := atoms[i];
      if atom !in start.items {
        return Err(KeyError(atom));
      }
      var current;
      parametersValues, parametersKeys, current := PickParameters(atom, start.items[atom], ignore, parametersValues, parametersKeys);
      parameters := Put(parameters, atom, current);
      assert atoms[..i + 1][..i] == atoms[..i];
    }
    assert atoms[..|atoms|] == atoms;
    return Ok(Selection(parametersValues, parametersKeys, parameters));
  }

  /** The inner loop for one species: appends each non-ignored start value and
      its key to the running lists and collects them in `current`. */
  method PickParameters(atom: Species, atomParams: Params, ignore: seq<Property>, valuesBefore: seq<real>, keysBefore: seq<Key>)
    returns (parametersValues: seq<real>, parametersKeys: seq<Key>, current: Params)
    requires Valid(atomParams)
    ensures var p := Pick(atom, atomParams, atomParams.order, ignore);
      parametersValues == valuesBefore + p.values && parametersKeys == keysBefore + p.keys && current == p.current
  {
    parametersValues, parametersKeys, current := valuesBefore, keysBefore, Empty();
    for j := 0 to |atomParams.order|
      invariant var p := Pick(atom, atomParams, atomParams.order[..j], ignore);
        parametersValues == valuesBefore + p.values && parametersKeys == keysBefore + p.keys && current == p.current
    {
      var key := atomParams.order[j];
      PickNext(atom, atomParams, atomParams.order, j, ignore);
      if key in ignore {
        continue;
      }
      var value := atomParams.items[key];
      current := Put(current, key, value);
      parametersValues := parametersValues + [value];
      parametersKeys := parametersKeys + [(atom, key)];
    }
    assert atomParams.order[..|atomParams.order|] == atomParams.order;
  }

  /** One more start key extends the inner loop's result by that key alone. */
  lemma PickNext(a: Species, d: Params, ks: seq<Property>, j: nat, ignore: seq<Property>)
    requires forall k :: k in ks ==> k in d.items
    requires j < |ks|
    ensures forall k :: k in ks[..j] ==> k in d.items
    ensures forall k :: k in ks[..j + 1] ==> k in d.items
    ensures var p := Pick(a, d, ks[..j], ignore);
      Pick(a, d, ks[..j + 1], ignore) ==
        if ks[j] in ignore then p
        else Picked(p.values + [d.items[ks[j]]], p.keys + [(a, ks[j])], Put(p.current, ks[j], d.items[ks[j]]))
  {
    assert ks[..j + 1][..j] == ks[..j];
  }

  /** `x` comes before `y` in `ks`. */
  ghost predicate Before<T>(ks: seq<T>, x: T, y: T) {
    exists m, n :: 0 <= m < n < |ks| && ks[m] == x && ks[n] == y
  }

  /** For one species: `current` holds exactly the non-ignored start keys,
      each with its start value. */
  lemma {:induction false} PickCurrent(a: Species, d: Params, ks: seq<Property>, ignore: seq<Property>)
    requires forall k :: k in ks ==> k in d.items
    requires Distinct(ks)
    ensures var c := Pick(a, d, ks, ignore).current;
      && Valid(c)
      && (forall p :: p in c.items <==> p in ks && p !in ignore)
      && (forall p :: p in c.items ==> c.items[p] == d.items[p])
    decreases |ks|
  {
    if ks != [] {
      var init := ks[..|ks| - 1];
      assert forall k :: k in init ==> k in ks;
      assert forall p :: p in ks <==> p in init || p == ks[|ks| - 1];
      PickCurrent(a, d, init, ignore);
    }
  }

  /** For one species: one value per picked key, each key `(a, p)` with `p`
      the matching entry of `current`'s order and the value its start value. */
  lemma {:induction false} PickAligned(a: Species, d: Params, ks: seq<Property>, ignore: seq<Property>)
    requires forall k :: k in ks ==> k in d.items
    requires Distinct(ks)
    ensures var r := Pick(a, d, ks, ignore);
      && |r.values| == |r.keys| == |r.current.order|
      && forall i :: 0 <= i < |r.keys| ==>
           r.current.order[i] in ks && r.current.order[i] !in ignore &&
           r.keys[i] == (a, r.current.order[i]) && r.values[i] == d.items[r.current.order[i]]
    decreases |ks|
  {
    if ks != [] {
      var init := ks[..|ks| - 1];
      assert forall k :: k in init ==> k in ks;
      PickAligned(a, d, init, ignore);
      PickCurrent(a, d, init, ignore);
      assert ks[|ks| - 1] !in init;
    }
  }

  /** An order in a list is kept when an element is appended. */
  lemma BeforeExtend<T>(ks: seq<T>, x: T, y: T)
    requires ks != [] && Before(ks[..|ks| - 1], x, y)
    ensures Before(ks, x, y)
  {
    var m, n :| 0 <= m < n < |ks| - 1 && ks[..|ks| - 1][m] == x && ks[..|ks| - 1][n] == y;
    assert ks[m] == x && ks[n] == y;
  }

  /** Every earlier element comes before the last one. */
  lemma BeforeLast<T>(ks: seq<T>, x: T)
    requires ks != [] && x in ks[..|ks| - 1]
    ensures Before(ks, x, ks[|ks| - 1])
  {
    var m :| 0 <= m < |ks| - 1 && ks[..|ks| - 1][m] == x;
    assert ks[m] == x;
  }

  /** For one species: the picked properties keep the start table's order. */
  lemma {:induction false} PickOrdered(a: Species, d: Params, ks: seq<Property>, ignore: seq<Property>)
    requires forall k :: k in ks ==> k in d.items
    requires Distinct(ks)
    ensures var c := Pick(a, d, ks, ignore).current;
      forall i, j :: 0 <= i < j < |c.order| ==> Before(ks, c.order[i], c.order[j])
    decreases |ks|
  {
    if ks != [] {
      var init := ks[..|ks| - 1];
      var key := ks[|ks| - 1];
      assert forall k :: k in init ==> k in ks;
      PickOrdered(a, d, init, ignore);
      var prev := Pick(a, d, init, ignore).current;
      var c := Pick(a, d, ks, ignore).current;
      if key !in ignore {
        PickCurrent(a, d, init, ignore);
        assert key !in init;
        assert c.order == prev.order + [key];
        forall i, j | 0 <= i < j < |c.order|
          ensures Before(ks, c.order[i], c.order[j])
        {
          if j < |prev.order| {
            BeforeExtend(ks, prev.order[i], prev.order[j]);
          } else {
            assert prev.order[i] in prev.items;
            BeforeLast(ks, prev.order[i]);
          }
        }
      } else {
        forall i, j | 0 <= i < j < |c.order|
          ensures Before(ks, c.order[i], c.order[j])
        {
          BeforeExtend(ks, c.order[i], c.order[j]);
        }
      }
    }
  }

  /** Each key names one of `atoms` and a non-ignored start entry, and the
      value beside it is that entry's start value. */
  ghost predicate Aligned(keys: seq<Key>, values: seq<real>, atoms: seq<Species>, start: Table, ignore: seq<Property>) {
    && |values| == |keys|
    && forall i :: 0 <= i < |keys| ==>
         keys[i].0 in atoms && keys[i].1 !in ignore &&
         Has(start, keys[i].0, keys[i].1) && values[i] == At(start, keys[i].0, keys[i].1)
  }

  /** Every selected value is the start value of its key. */
  lemma {:induction false} SelectAligned(atoms: seq<Species>, start: Table, ignore: seq<Property>)
    requires TableValid(start)
    requires forall a :: a in atoms ==> a in start.items
    ensures var r := Select(atoms, start, ignore);
      && |r.values| == |r.keys|
      && forall i :: 0 <= i < |r.keys| ==>
           r.keys[i].0 in atoms && r.keys[i].1 !in ignore &&
           Has(start, r.keys[i].0, r.keys[i].1) && r.values[i] == At(start, r.keys[i].0, r.keys[i].1)
    decreases |atoms|
  {
    if atoms != [] {
      var init := atoms[..|atoms| - 1];
      var atom := atoms[|atoms| - 1];
      assert forall a :: a in init ==> a in atoms;
      SelectAligned(init, start, ignore);
      var prev := Select(init, start, ignore);
      assert Aligned(prev.keys, prev.values, init, start, ignore);
      var d := start.items[atom];
      PickAlignedIn(atom, d, atoms, start, ignore);
      var picked := Pick(atom, d, d.order, ignore);
      AlignedAppend(prev.keys, prev.values, picked.keys, picked.values, init, atoms, start, ignore);
      assert Aligned(Select(atoms, start, ignore).keys, Select(atoms, start, ignore).values, atoms, start, ignore);
    }
  }

  /** The keys picked for a species of `atoms` are aligned with `atoms`. */
  lemma PickAlignedIn(atom: Species, d: Params, atoms: seq<Species>, start: Table, ignore: seq<Property>)
    requires TableValid(start) && atom in atoms && atom in start.items && d == start.items[atom]
    ensures forall k :: k in d.order ==> k in d.items
    ensures Aligned(Pick(atom, d, d.order, ignore).keys, Pick(atom, d, d.order, ignore).values, atoms, start, ignore)
  {
    PickAligned(atom, d, d.order, ignore);
  }

  /** Aligned lists stay aligned when concatenated, over the larger species list. */
  lemma AlignedAppend(pk: seq<Key>, pv: seq<real>, qk: seq<Key>, qv: seq<real>,
                      init: seq<Species>, atoms: seq<Species>, start: Table, ignore: seq<Property>)
    requires forall a :: a in init ==> a in atoms
    requires Aligned(pk, pv, init, start, ignore) && Aligned(qk, qv, atoms, start, ignore)
    ensures Aligned(pk + qk, pv + qv, atoms, start, ignore)
  {
    var k, v := pk + qk, pv + qv;
    forall i | 0 <= i < |k|
      ensures k[i].0 in atoms && k[i].1 !in ignore && Has(start, k[i].0, k[i].1) && v[i] == At(start, k[i].0, k[i].1)
    {
      if i < |pk| {
        assert k[i] == pk[i] && v[i] == pv[i];
      } else {
        assert k[i] == qk[i - |pk|] && v[i] == qv[i - |pk|];
      }
    }
  }

  /** Exactly the non-ignored properties of the considered species are selected. */
  lemma {:induction false} SelectComplete(atoms: seq<Species>, start: Table, ignore: seq<Property>)
    requires TableValid(start)
    requires forall a :: a in atoms ==> a in start.items
    ensures var r := Select(atoms, start, ignore);
      forall s, p :: (s, p) in r.keys <==> s in atoms && p in start.items[s].items && p !in ignore
    decreases |atoms|
  {
    if atoms != [] {
      var init := atoms[..|atoms| - 1];
      var atom := atoms[|atoms| - 1];
      assert forall a :: a in init ==> a in atoms;
      assert forall a :: a in atoms <==> a in init || a == atom;
      SelectComplete(init, start, ignore);
      var d := start.items[atom];
      PickAligned(atom, d, d.order, ignore);
      PickCurrent(atom, d, d.order, ignore);
      var picked := Pick(atom, d, d.order, ignore);
      var r := Select(atoms, start, ignore);
      var prev := Select(init, start, ignore);
      forall s, p
        ensures (s, p) in r.keys <==> s in atoms && p in start.items[s].items && p !in ignore
      {
        assert (s, p) in r.keys <==> (s, p) in prev.keys || (s, p) in picked.keys;
        if s == atom && p in d.items && p !in ignore {
          var i :| 0 <= i < |picked.current.order| && picked.current.order[i] == p;
          assert picked.keys[i] == (s, p);
        }
      }
    }
  }

  /** With distinct species, the selected keys are pairwise distinct. */
  lemma {:induction false} SelectDistinct(atoms: seq<Species>, start: Table, ignore: seq<Property>)
    requires TableValid(start)
    requires forall a :: a in atoms ==> a in start.items
    requires Distinct(atoms)
    ensures Distinct(Select(atoms, start, ignore).keys)
    decreases |atoms|
  {
    if atoms != [] {
      var init := atoms[..|atoms| - 1];
      var atom := atoms[|atoms| - 1];
      assert forall a :: a in init ==> a in atoms;
      SelectDistinct(init, start, ignore);
      SelectAligned(init, start, ignore);
      var d := start.items[atom];
      PickAligned(atom, d, d.order, ignore);
      PickCurrent(atom, d, d.order, ignore);
      var prev := Select(init, start, ignore);
      var picked := Pick(atom, d, d.order, ignore);
      var r := Select(atoms, start, ignore);
      assert atom !in init;
      forall i, j | 0 <= i < j < |r.keys|
        ensures r.keys[i] != r.keys[j]
      {
        if i >= |prev.keys| {
          assert picked.current.order[i - |prev.keys|] != picked.current.order[j - |prev.keys|];
        } else if j >= |prev.keys| {
          assert r.keys[i].0 in init;
        }
      }
    }
  }

  /** The keys all name species `a` and follow `order`. */
  ghost predicate SpeciesKeys(keys: seq<Key>, a: Species, order: seq<Property>) {
    && (forall i :: 0 <= i < |keys| ==> keys[i].0 == a)
    && (forall i, j :: 0 <= i < j < |keys| ==> Before(order, keys[i].1, keys[j].1))
  }

  /** One species' picked keys all name that species and follow its start
      order. */
  lemma PickKeysOrdered(a: Species, d: Params, ignore: seq<Property>)
    requires Valid(d)
    ensures SpeciesKeys(Pick(a, d, d.order, ignore).keys, a, d.order)
  {
    assert forall k :: k in d.order ==> k in d.items;
    PickAligned(a, d, d.order, ignore);
    PickOrdered(a, d, d.order, ignore);
    var r := Pick(a, d, d.order, ignore);
    forall i, j | 0 <= i < j < |r.keys|
      ensures Before(d.order, r.keys[i].1, r.keys[j].1)
    {
      assert r.keys[i].1 == r.current.order[i] && r.keys[j].1 == r.current.order[j];
    }
  }

  /** Keys come in ascending species order, and within a species in the
      order of that species' start dictionary. */
  ghost predicate KeysOrdered(keys: seq<Key>, start: Table) {
    forall i, j :: 0 <= i < j < |keys| ==>
      Below(keys[i].0, keys[j].0) ||
      (keys[i].0 == keys[j].0 && keys[i].0 in start.items && Before(start.items[keys[i].0].order, keys[i].1, keys[j].1))
  }

  /** Appending the keys of a species above all earlier ones, in its start
      order, keeps the keys ordered. */
  lemma KeysOrderedAppend(prev: seq<Key>, picked: seq<Key>, atom: Species, start: Table)
    requires KeysOrdered(prev, start)
    requires forall i :: 0 <= i < |prev| ==> Below(prev[i].0, atom)
    requires atom in start.items
    requires SpeciesKeys(picked, atom, start.items[atom].order)
    ensures KeysOrdered(prev + picked, start)
  {
    var r := prev + picked;
    forall i, j | 0 <= i < j < |r|
      ensures Below(r[i].0, r[j].0) ||
        (r[i].0 == r[j].0 && r[i].0 in start.items && Before(start.items[r[i].0].order, r[i].1, r[j].1))
    {
      if i >= |prev| {
        assert r[i] == picked[i - |prev|] && r[j] == picked[j - |prev|];
      } else if j >= |prev| {
        assert r[i] == prev[i] && r[j] == picked[j - |prev|];
      } else {
        assert r[i] == prev[i] && r[j] == prev[j];
      }
    }
  }

  /** The keys are ordered by species, then by each species' start order. */
  lemma {:induction false} SelectOrdered(atoms: seq<Species>, start: Table, ignore: seq<Property>)
    requires TableValid(start)
    requires forall a :: a in atoms ==> a in start.items
    requires StrictlySorted(atoms)
    ensures KeysOrdered(Select(atoms, start, ignore).keys, start)
    decreases |atoms|
  {
    if atoms != [] {
      var init := atoms[..|atoms| - 1];
      var atom := atoms[|atoms| - 1];
      assert forall a :: a in init ==> a in atoms;
      assert StrictlySorted(init);
      SelectOrdered(init, start, ignore);
      SelectAligned(init, start, ignore);
      var d := start.items[atom];
      PickKeysOrdered(atom, d, ignore);
      var prev := Select(init, start, ignore).keys;
      var picked := Pick(atom, d, d.order, ignore).keys;
      SpeciesBelowLast(prev, atoms);
      KeysOrderedAppend(prev, picked, atom, start);
    }
  }

  /** Keys of the earlier species of a strictly sorted list name species
      below the last one. */
  lemma SpeciesBelowLast(keys: seq<Key>, atoms: seq<Species>)
    requires StrictlySorted(atoms) && atoms != []
    requires forall i :: 0 <= i < |keys| ==> keys[i].0 in atoms[..|atoms| - 1]
    ensures forall i :: 0 <= i < |keys| ==> Below(keys[i].0, atoms[|atoms| - 1])
  {
    forall i | 0 <= i < |keys|
      ensures Below(keys[i].0, atoms[|atoms| - 1])
    {
      SortedLast(atoms, keys[i].0);
    }
  }

  /** In a strictly sorted list, every earlier element is below the last. */
  lemma SortedLast(atoms: seq<Species>, x: Species)
    requires StrictlySorted(atoms) && atoms != [] && x in atoms[..|atoms| - 1]
    ensures Below(x, atoms[|atoms| - 1])
  {
    var m :| 0 <= m < |atoms| - 1 && atoms[..|atoms| - 1][m] == x;
    assert atoms[m] == x;
  }

  /** The pruned dictionary of species `s`: the `current` its inner loop builds. */
  ghost function PrunedOf(s: Species, start: Table, ignore: seq<Property>): Params
    requires TableValid(start) && s in start.items
  {
    Pick(s, start.items[s], start.items[s].order, ignore).current
  }

  /** The pruned table lists the species in order, each with its pruned
      dictionary. */
  lemma {:induction false} SelectPrunedShape(atoms: seq<Species>, start: Table, ignore: seq<Property>)
    requires TableValid(start)
    requires forall a :: a in atoms ==> a in start.items
    requires Distinct(atoms)
    ensures var r := Select(atoms, start, ignore).parameters;
      && r.order == atoms
      && Valid(r)
      && forall s :: s in r.items ==> s in start.items && r.items[s] == PrunedOf(s, start, ignore)
    decreases |atoms|
  {
    if atoms != [] {
      var init := atoms[..|atoms| - 1];
      var atom := atoms[|atoms| - 1];
      assert forall a :: a in init ==> a in atoms;
      assert atom !in init;
      SelectPrunedShape(init, start, ignore);
      var prev := Select(init, start, ignore).parameters;
      var c := PrunedOf(atom, start, ignore);
      assert Select(atoms, start, ignore).parameters == Put(prev, atom, c);
      PrunedStep(prev, atom, c, init, start, ignore);
      assert init + [atom] == atoms;
    }
  }

  /** Adding the next species' pruned dictionary to a pruned table keeps it
      pruned and puts the species last. */
  lemma PrunedStep(prev: Table, atom: Species, c: Params, init: seq<Species>, start: Table, ignore: seq<Property>)
    requires TableValid(start) && atom in start.items && c == PrunedOf(atom, start, ignore)
    requires Valid(prev) && prev.order == init && atom !in init
    requires forall s :: s in prev.items ==> s in start.items && prev.items[s] == PrunedOf(s, start, ignore)
    ensures var r := Put(prev, atom, c);
      && r.order == init + [atom]
      && Valid(r)
      && forall s :: s in r.items ==> s in start.items && r.items[s] == PrunedOf(s, start, ignore)
  {
    PutNew(prev, atom, c);
  }

  /** A new key goes last and nothing else changes. */
  lemma PutNew<K(!new), V>(d: Dict<K, V>, k: K, v: V)
    requires Valid(d) && k !in d.order
    ensures Put(d, k, v).order == d.order + [k]
    ensures Put(d, k, v).items == d.items[k := v]
    ensures Valid(Put(d, k, v))
  {
  }

  /** The pruned table holds exactly the selected properties, with their
      start values. */
  lemma SelectPruned(atoms: seq<Species>, start: Table, ignore: seq<Property>)
    requires TableValid(start)
    requires forall a :: a in atoms ==> a in start.items
    requires Distinct(atoms)
    ensures var r := Select(atoms, start, ignore).parameters;
      && TableValid(r)
      && r.order == atoms
      && (forall s, p :: Has(r, s, p) <==> s in atoms && p in start.items[s].items && p !in ignore)
      && (forall s, p :: Has(r, s, p) ==> At(r, s, p) == At(start, s, p))
  {
    SelectPrunedShape(atoms, start, ignore);
    var r := Select(atoms, start, ignore).parameters;
    forall s | s in r.items
      ensures Valid(r.items[s])
      ensures forall p :: p in r.items[s].items <==> p in start.items[s].items && p !in ignore
      ensures forall p :: p in r.items[s].items ==> r.items[s].items[p] == start.items[s].items[p]
    {
      var d := start.items[s];
      assert forall k :: k in d.order ==> k in d.items;
      PickCurrent(s, d, d.order, ignore);
    }
  }

  /** The selection as `minimize_parameters` makes it (fitter/fit.py:109-134),
      for the species of a fit: one
      value per key, each the start value of its key; keys pairwise distinct;
      exactly the non-ignored properties of the considered species, none of
      them ignored; ordered by species, then by the start table's order; and
      the pruned table holds exactly the selected keys with their start values. */
  lemma SelectSpec(molsAtoms: seq<seq<Species>>, start: Table, ignore: seq<Property>)
    requires TableValid(start)
    requires forall a :: a in SpeciesOf(molsAtoms) ==> a in start.items
    ensures var r := Select(SpeciesOf(molsAtoms), start, ignore);
      && |r.values| == |r.keys|
      && (forall i :: 0 <= i < |r.keys| ==>
            r.keys[i].1 !in ignore && Has(start, r.keys[i].0, r.keys[i].1) &&
            r.values[i] == At(start, r.keys[i].0, r.keys[i].1))
      && Distinct(r.keys)
      && (forall s, p :: (s, p) in r.keys <==>
            s in SpeciesOf(molsAtoms) && p in start.items[s].items && p !in ignore)
      && (forall i, j :: 0 <= i < j < |r.keys| ==>
            Below(r.keys[i].0, r.keys[j].0) ||
            (r.keys[i].0 == r.keys[j].0 && Before(start.items[r.keys[i].0].order, r.keys[i].1, r.keys[j].1)))
      && TableValid(r.parameters)
      && r.parameters.order == SpeciesOf(molsAtoms)
      && (forall s, p :: Has(r.parameters, s, p) <==> (s, p) in r.keys)
      && (forall s, p :: Has(r.parameters, s, p) ==> At(r.parameters, s, p) == At(start, s, p))
      && Covers(r.parameters, r.keys)
  {
    var atoms := SpeciesOf(molsAtoms);
    SpeciesOfSpec(molsAtoms);
    SelectAligned(atoms, start, ignore);
    SelectComplete(atoms, start, ignore);
    SelectDistinct(atoms, start, ignore);
    SelectOrdered(atoms, start, ignore);
    SelectPruned(atoms, start, ignore);
  }
}
