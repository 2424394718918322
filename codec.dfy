/** The affine parameter codec that `set_params` (src/pipelines.py:15-37) is
    evidently meant to apply: every stored value becomes
    `value * scale[species][key] + mean[species][key]` within its own
    species. `Encode` is that corrected translation, `Decode` its inverse. */
module Codec {
  import opened Wrappers
  import opened Dicts
  import opened Pipelines

  /** The rescale loop with `params[atomtype][key] = val`: each species'
      values are stored back into that species' own dictionary. */
  function RescaleEach(t: Table, species: seq<Species>, scale: Table, mean: Table): (r: Result<Table, Exception>)
    requires TableValid(t) && forall a :: a in species ==> a in t.items
    ensures r.Ok? ==> TableValid(r.value) && r.value.order == t.order && r.value.items.Keys == t.items.Keys
    decreases |species|
  {
    if species == [] then Ok(t)
    else
      var a := species[0];
      if a !in scale.items then Err(KeyError(a))
      else if a !in mean.items then Err(KeyError(a))
      else
        var p := t.items[a];
        match RescaleKeys(t, p, p.order, Some(a), scale.items[a], mean.items[a])
        case Err(e) => Err(e)
        case Ok(u) => RescaleEach(u, species[1..], scale, mean)
  }

  /** The corrected `set_params`: group, zip in the values, and rescale each
      species within itself. */
  function Encode(list: seq<real>, keys: seq<Key>, mean: Table, scale: Table): (r: Result<Table, Exception>)
    ensures r.Ok? ==> TableValid(r.value) && r.value.order == Groups(keys).order
  {
    RescaleEach(Raw(keys, list), Groups(keys).order, scale, mean)
  }

  /** Every species has a scale and a mean dictionary holding each of its keys. */
  ghost predicate Rescalable(t: Table, species: seq<Species>, scale: Table, mean: Table) {
    forall a :: a in species ==>
      && a in scale.items && a in mean.items
      && forall q :: Has(t, a, q) ==> q in scale.items[a].items && q in mean.items[a].items
  }

  /** The tail of a list of distinct species is distinct and misses the head. */
  lemma DistinctTail(species: seq<Species>)
    requires species != [] && Distinct(species)
    ensures Distinct(species[1..]) && species[0] !in species[1..]
  {
    assert forall i :: 0 <= i < |species[1..]| ==> species[1..][i] == species[i + 1];
  }

  /** `Rescalable` looks only at the dictionaries of the listed species. */
  lemma RescalableSame(t: Table, u: Table, species: seq<Species>, scale: Table, mean: Table)
    requires forall b :: b in species ==> b in t.items && b in u.items && u.items[b] == t.items[b]
    ensures Rescalable(t, species, scale, mean) <==> Rescalable(u, species, scale, mean)
  {
  }

  /** `Rescalable` of a non-empty list: the head and then the tail. */
  lemma RescalableCons(t: Table, species: seq<Species>, scale: Table, mean: Table)
    requires species != []
    ensures Rescalable(t, species, scale, mean) <==>
      && Rescalable(t, [species[0]], scale, mean)
      && Rescalable(t, species[1..], scale, mean)
  {
    assert forall b :: b in species <==> b == species[0] || b in species[1..];
  }

  /** The corrected rescale succeeds exactly when every species and each of
      its keys has a scale and a mean. */
  lemma {:induction false} RescaleEachOutcome(t: Table, species: seq<Species>, scale: Table, mean: Table)
    requires TableValid(t) && Distinct(species) && forall a :: a in species ==> a in t.items
    ensures RescaleEach(t, species, scale, mean).Ok? <==> Rescalable(t, species, scale, mean)
    decreases |species|
  {
    if species != [] && species[0] in scale.items && species[0] in mean.items {
      var a := species[0];
      var p := t.items[a];
      var step := RescaleKeys(t, p, p.order, Some(a), scale.items[a], mean.items[a]);
      RescaleKeysOutcome(t, p, p.order, Some(a), scale.items[a], mean.items[a]);
      assert forall q :: Has(t, a, q) <==> q in p.order;
      assert step.Ok? <==> Rescalable(t, [a], scale, mean);
      RescalableCons(t, species, scale, mean);
      if step.Ok? {
        var u := step.value;
        assert RescaleEach(t, species, scale, mean) == RescaleEach(u, species[1..], scale, mean);
        RescaleKeysWrites(t, p, p.order, Some(a), scale.items[a], mean.items[a]);
        DistinctTail(species);
        RescaleEachOutcome(u, species[1..], scale, mean);
        RescalableSame(t, u, species[1..], scale, mean);
      } else {
        assert RescaleEach(t, species, scale, mean).Err?;
      }
    }
  }

  /** After a successful corrected rescale, every key of every visited species
      is kept and holds `value * scale + mean`; no key is added or removed, and
      species not visited are untouched. */
  lemma {:induction false} RescaleEachEntries(t: Table, species: seq<Species>, scale: Table, mean: Table)
    requires TableValid(t) && Distinct(species) && forall a :: a in species ==> a in t.items
    ensures var r := RescaleEach(t, species, scale, mean);
      r.Ok? ==>
        && (forall a :: a in t.items && a !in species ==> r.value.items[a] == t.items[a])
        && (forall a, q :: a in species ==> (Has(r.value, a, q) <==> Has(t, a, q)))
        && (forall a, q :: a in species && Has(t, a, q) ==>
              Has(scale, a, q) && Has(mean, a, q) &&
              At(r.value, a, q) == Affine(At(t, a, q), At(scale, a, q), At(mean, a, q)))
    decreases |species|
  {
    if species != [] && species[0] in scale.items && species[0] in mean.items {
      var a := species[0];
      var p := t.items[a];
      var step := RescaleKeys(t, p, p.order, Some(a), scale.items[a], mean.items[a]);
      if step.Ok? {
        var u := step.value;
        RescaleKeysWrites(t, p, p.order, Some(a), scale.items[a], mean.items[a]);
        assert forall q :: Has(t, a, q) <==> q in p.order;
        assert Distinct(species[1..]) by {
          assert forall i :: 0 <= i < |species[1..]| ==> species[1..][i] == species[i + 1];
        }
        assert a !in species[1..];
        RescaleEachEntries(u, species[1..], scale, mean);
        forall b | b in species[1..]
          ensures u.items[b] == t.items[b]
        {
          var i :| 1 <= i < |species| && species[i] == b;
        }
        assert forall b :: b in species <==> b == a || b in species[1..];
      }
    }
  }

  /** The corrected `set_params` succeeds exactly when every species of the
      keys has a scale and a mean dictionary and every zipped key has a scale
      and a mean. */
  lemma EncodeOutcome(list: seq<real>, keys: seq<Key>, mean: Table, scale: Table)
    ensures Encode(list, keys, mean, scale).Ok? <==>
      && (forall i :: 0 <= i < |keys| ==> keys[i].0 in scale.items && keys[i].0 in mean.items)
      && (forall s, p :: Has(Raw(keys, list), s, p) ==> Has(scale, s, p) && Has(mean, s, p))
  {
    var raw := Raw(keys, list);
    GroupsSpecies(keys);
    RescaleEachOutcome(raw, raw.order, scale, mean);
    assert forall s :: s in raw.items <==> s in raw.order;
    if Rescalable(raw, raw.order, scale, mean) {
      forall i | 0 <= i < |keys|
        ensures keys[i].0 in scale.items && keys[i].0 in mean.items
      {
        assert keys[i].0 in raw.order;
      }
    }
  }

  /** After the corrected `set_params`, the table has the same species and
      keys as before the rescale, and each entry is `value * scale + mean` of
      its raw value. */
  lemma EncodeValues(list: seq<real>, keys: seq<Key>, mean: Table, scale: Table)
    ensures Encode(list, keys, mean, scale).Ok? ==>
      var r := Encode(list, keys, mean, scale).value;
      && r.order == Groups(keys).order
      && (forall s, p :: Has(r, s, p) <==> Has(Raw(keys, list), s, p))
      && (forall s, p :: Has(r, s, p) ==>
            Has(scale, s, p) && Has(mean, s, p) &&
            At(r, s, p) == Affine(At(Raw(keys, list), s, p), At(scale, s, p), At(mean, s, p)))
  {
    var raw := Raw(keys, list);
    RescaleEachEntries(raw, raw.order, scale, mean);
    assert forall s :: s in raw.items <==> s in raw.order;
  }

  /** With distinct keys and one value per key, the corrected translation
      holds exactly the given keys, the i-th holding `list[i] * scale + mean`. */
  lemma EncodeKeys(list: seq<real>, keys: seq<Key>, mean: Table, scale: Table)
    requires Distinct(keys) && |list| == |keys|
    ensures Encode(list, keys, mean, scale).Ok? ==>
      var r := Encode(list, keys, mean, scale).value;
      && (forall s, p :: Has(r, s, p) <==> (s, p) in keys)
      && (forall i :: 0 <= i < |keys| ==>
            Has(r, keys[i].0, keys[i].1) && Has(scale, keys[i].0, keys[i].1) && Has(mean, keys[i].0, keys[i].1) &&
            At(r, keys[i].0, keys[i].1) ==
              Affine(list[i], At(scale, keys[i].0, keys[i].1), At(mean, keys[i].0, keys[i].1)))
  {
    EncodeValues(list, keys, mean, scale);
    RawKeys(keys, list);
  }

  /** With one value per key, the corrected translation succeeds whenever
      every key has a scale and a mean. */
  lemma EncodeSucceeds(list: seq<real>, keys: seq<Key>, mean: Table, scale: Table)
    requires |list| == |keys|
    requires forall i :: 0 <= i < |keys| ==> Has(scale, keys[i].0, keys[i].1) && Has(mean, keys[i].0, keys[i].1)
    ensures Encode(list, keys, mean, scale).Ok?
  {
    EncodeOutcome(list, keys, mean, scale);
    forall s, p | Has(Raw(keys, list), s, p)
      ensures Has(scale, s, p) && Has(mean, s, p)
    {
      RawHas(keys, list, s, p);
      var i :| 0 <= i < |keys| && keys[i] == (s, p);
    }
  }

  /** Every key has a scale and a mean, and no scale is zero. */
  ghost predicate Invertible(keys: seq<Key>, mean: Table, scale: Table) {
    forall i :: 0 <= i < |keys| ==>
      Has(scale, keys[i].0, keys[i].1) && Has(mean, keys[i].0, keys[i].1) && At(scale, keys[i].0, keys[i].1) != 0.0
  }

  /** The flat vector of a table, undoing the rescale: `(value - mean) / scale`
      for each key in turn. */
  function Decode(t: Table, keys: seq<Key>, mean: Table, scale: Table): (list: seq<real>)
    requires Covers(t, keys) && Invertible(keys, mean, scale)
    ensures |list| == |keys|
  {
    seq(|keys|, i requires 0 <= i < |keys| =>
      Unaffine(At(t, keys[i].0, keys[i].1), At(scale, keys[i].0, keys[i].1), At(mean, keys[i].0, keys[i].1)))
  }

  /** `(value - mean) / scale`. */
  function Unaffine(value: real, scale: real, mean: real): real
    requires scale != 0.0
  {
    (value - mean) / scale
  }

  lemma Unscaled(value: real, scale: real, mean: real)
    requires scale != 0.0
    ensures Unaffine(Affine(value, scale, mean), scale, mean) == value
  {
    assert Affine(value, scale, mean) - mean == value * scale;
  }

  /** Round trip: decoding the corrected translation of a vector gives the
      vector back, for distinct keys, one value per key and non-zero scales. */
  lemma DecodeEncode(list: seq<real>, keys: seq<Key>, mean: Table, scale: Table)
    requires Distinct(keys) && |list| == |keys|
    requires Encode(list, keys, mean, scale).Ok?
    requires forall i :: 0 <= i < |keys| ==> Has(scale, keys[i].0, keys[i].1) ==> At(scale, keys[i].0, keys[i].1) != 0.0
    ensures Covers(Encode(list, keys, mean, scale).value, keys) && Invertible(keys, mean, scale)
    ensures Decode(Encode(list, keys, mean, scale).value, keys, mean, scale) == list
  {
    EncodeKeys(list, keys, mean, scale);
    var r := Encode(list, keys, mean, scale).value;
    assert Covers(r, keys) && Invertible(keys, mean, scale);
    var d := Decode(r, keys, mean, scale);
    forall i | 0 <= i < |keys|
      ensures d[i] == list[i]
    {
      var s, m := At(scale, keys[i].0, keys[i].1), At(mean, keys[i].0, keys[i].1);
      assert At(r, keys[i].0, keys[i].1) == Affine(list[i], s, m);
      Unscaled(list[i], s, m);
    }
  }

  /** When every key names the same species, `set_params` as written is the
      corrected translation: the leaked `atom_type` is that species. */
  lemma SetParamsOneSpecies(list: seq<real>, keys: seq<Key>, mean: Table, scale: Table, a: Species)
    requires forall i :: 0 <= i < |keys| ==> keys[i].0 == a
    ensures SetParamsSpec(list, keys, mean, scale) == Encode(list, keys, mean, scale)
  {
    var raw := Raw(keys, list);
    var target := LastZipped(keys, list);
    LastZippedGrouped(keys, list);
    if |keys| > 0 {
      GroupsOneSpecies(keys, a);
      GroupsSpecies(keys);
      assert a in raw.items;
      assert SetParamsSpec(list, keys, mean, scale) == RescaleAll(raw, [a], target, scale, mean);
      assert Encode(list, keys, mean, scale) == RescaleEach(raw, [a], scale, mean);
      if a in scale.items && a in mean.items {
        var p := raw.items[a];
        var s, d := scale.items[a], mean.items[a];
        if target.None? {
          assert Zip(keys, list) == [];
          assert raw == Groups(keys);
          assert p.order == [];
        } else {
          assert target == Some(a);
        }
        var step := RescaleKeys(raw, p, p.order, Some(a), s, d);
        assert RescaleKeys(raw, p, p.order, target, s, d) == step;
        RescaleAllStep(raw, [a], target, scale, mean);
        assert [a][1..] == [];
        if step.Ok? {
          assert RescaleAll(raw, [a], target, scale, mean) == RescaleAll(step.value, [], target, scale, mean);
          assert RescaleEach(raw, [a], scale, mean) == RescaleEach(step.value, [], scale, mean);
        }
      }
    }
  }

  // Two species: the leaked `atom_type` sends every rescaled value to the
  // last zipped species.

  lemma TwoSpeciesGroups(c: Species, h: Species, q: Property)
    requires c != h
    ensures Groups([(c, q), (h, q)]).order == [c, h]
    ensures c in Groups([(c, q), (h, q)]).items && h in Groups([(c, q), (h, q)]).items
  {
    var keys: seq<Key> := [(c, q), (h, q)];
    assert keys[..1] == [(c, q)] && |keys[..1][..0]| == 0;
    assert Groups(keys[..1][..0]) == Empty();
    assert Groups(keys[..1]) == Dict([c], map[c := Empty()]);
  }

  /** Zipping `[c, q], [h, q]` with `x, y` into two empty groups. */
  lemma TwoSpeciesFill(g: Table, c: Species, h: Species, q: Property, x: real, y: real)
    requires c != h && c in g.items && h in g.items
    requires g.items[c] == Empty() && g.items[h] == Empty()
    ensures SpeciesPresent(g, [((c, q), x), ((h, q), y)])
    ensures WriteAll(g, [((c, q), x), ((h, q), y)]).order == g.order
    ensures WriteAll(g, [((c, q), x), ((h, q), y)]).items[c] == Dict([q], map[q := x])
    ensures WriteAll(g, [((c, q), x), ((h, q), y)]).items[h] == Dict([q], map[q := y])
  {
    var z: seq<(Key, real)> := [((c, q), x), ((h, q), y)];
    assert z[..1] == [((c, q), x)] && z[..1][..0] == [];
    var w1 := Assign(g, c, q, x);
    assert WriteAll(g, z[..1]) == w1;
    assert Put(Empty<Property, real>(), q, x) == Dict([q], map[q := x]);
    assert Put(Empty<Property, real>(), q, y) == Dict([q], map[q := y]);
    assert WriteAll(g, z) == Assign(w1, h, q, y);
  }

  /** The table before the rescale for keys `[c, q], [h, q]` and values `x, y`. */
  lemma TwoSpeciesRaw(c: Species, h: Species, q: Property, x: real, y: real)
    requires c != h
    ensures Groups([(c, q), (h, q)]).order == [c, h]
    ensures Raw([(c, q), (h, q)], [x, y]).order == [c, h]
    ensures Raw([(c, q), (h, q)], [x, y]).items[c] == Dict([q], map[q := x])
    ensures Raw([(c, q), (h, q)], [x, y]).items[h] == Dict([q], map[q := y])
  {
    var keys: seq<Key> := [(c, q), (h, q)];
    TwoSpeciesGroups(c, h, q);
    var g := Groups(keys);
    var z: seq<(Key, real)> := [((c, q), x), ((h, q), y)];
    TwoSpeciesFill(g, c, h, q, x, y);
    assert Zip(keys, [x, y]) == z;
    assert Raw(keys, [x, y]) == WriteAll(g, z);
  }

  lemma Overwrite(q: Property, v: real, w: real)
    ensures Put(Dict([q], map[q := v]), q, w) == Dict([q], map[q := w])
  {
    assert map[q := v][q := w] == map[q := w];
  }

  /** One visit of the inner loop over a dictionary holding the single key `q`. */
  lemma SingleKeyRescale(t: Table, p: Params, q: Property, v: real, target: Species, s: Params, d: Params)
    requires p == Dict([q], map[q := v]) && target in t.items
    requires q in s.items && q in d.items
    ensures RescaleKeys(t, p, p.order, Some(target), s, d) == Ok(Assign(t, target, q, Affine(v, s.items[q], d.items[q])))
  {
    var ks := p.order;
    assert ks == [q] && ks[0] == q && ks[1..] == [] && p.items[q] == v;
    var u := Assign(t, target, q, Affine(v, s.items[q], d.items[q]));
    RescaleKeysStep(t, p, ks, Some(target), s, d);
    assert RescaleKeys(u, p, [], Some(target), s, d) == Ok(u);
  }

  /** `set_params` as written on keys `[c, q], [h, q]` (two species) with values
      `x, y` succeeds when both keys have a scale and a mean, leaves `c` at its
      raw `x`, and stores under `h` the value of `c` rescaled first with `c`'s
      and then again with `h`'s scale and mean; `y` is lost. */
  lemma SetParamsTwoSpecies(c: Species, h: Species, q: Property, x: real, y: real, mean: Table, scale: Table)
    requires c != h
    requires Has(scale, c, q) && Has(mean, c, q) && Has(scale, h, q) && Has(mean, h, q)
    ensures SetParamsSpec([x, y], [(c, q), (h, q)], mean, scale).Ok?
    ensures SetParamsSpec([x, y], [(c, q), (h, q)], mean, scale).value.order == [c, h]
    ensures SetParamsSpec([x, y], [(c, q), (h, q)], mean, scale).value.items[c] == Dict([q], map[q := x])
    ensures SetParamsSpec([x, y], [(c, q), (h, q)], mean, scale).value.items[h] ==
      Dict([q], map[q := Affine(Affine(x, At(scale, c, q), At(mean, c, q)), At(scale, h, q), At(mean, h, q))])
  {
    var keys: seq<Key> := [(c, q), (h, q)];
    TwoSpeciesRaw(c, h, q, x, y);
    var raw := Raw(keys, [x, y]);
    var target := Some(h);
    assert LastZipped(keys, [x, y]) == target;
    var sC, dC, sH, dH := scale.items[c], mean.items[c], scale.items[h], mean.items[h];
    var once := Affine(x, sC.items[q], dC.items[q]);
    SingleKeyRescale(raw, raw.items[c], q, x, h, sC, dC);
    var u := Assign(raw, h, q, once);
    RescaleAllStep(raw, [c, h], target, scale, mean);
    assert [c, h][1..] == [h] && [h][1..] == [];
    assert raw.items[h] == Dict([q], map[q := y]);
    Overwrite(q, y, once);
    assert u.items[h] == Dict([q], map[q := once]);
    SingleKeyRescale(u, u.items[h], q, once, h, sH, dH);
    RescaleAllStep(u, [h], target, scale, mean);
    var twice := Affine(once, sH.items[q], dH.items[q]);
    var w := Assign(u, h, q, twice);
    Overwrite(q, once, twice);
    assert w.items[h] == Dict([q], map[q := twice]);
    assert w.items[c] == raw.items[c];
  }

  /** The corrected translation of the same input: each species' own value,
      rescaled once with its own scale and mean. */
  lemma EncodeTwoSpecies(c: Species, h: Species, q: Property, x: real, y: real, mean: Table, scale: Table)
    requires c != h
    requires Has(scale, c, q) && Has(mean, c, q) && Has(scale, h, q) && Has(mean, h, q)
    ensures Encode([x, y], [(c, q), (h, q)], mean, scale).Ok?
    ensures Has(Encode([x, y], [(c, q), (h, q)], mean, scale).value, c, q)
    ensures Has(Encode([x, y], [(c, q), (h, q)], mean, scale).value, h, q)
    ensures At(Encode([x, y], [(c, q), (h, q)], mean, scale).value, c, q) == Affine(x, At(scale, c, q), At(mean, c, q))
    ensures At(Encode([x, y], [(c, q), (h, q)], mean, scale).value, h, q) == Affine(y, At(scale, h, q), At(mean, h, q))
  {
    var keys: seq<Key> := [(c, q), (h, q)];
    EncodeSucceeds([x, y], keys, mean, scale);
    assert Distinct(keys);
    EncodeKeys([x, y], keys, mean, scale);
    assert keys[0] == (c, q) && keys[1] == (h, q);
  }

  /** A scale or mean table giving `v` to `USS` of carbon and of hydrogen. */
  function Uniform(v: real): (t: Table)
    ensures Has(t, "C", "USS") && At(t, "C", "USS") == v
    ensures Has(t, "H", "USS") && At(t, "H", "USS") == v
  {
    Dict(["C", "H"], map["C" := Dict(["USS"], map["USS" := v]), "H" := Dict(["USS"], map["USS" := v])])
  }

  /** Carbon `USS = 1` and hydrogen `USS = 2`, scale 10 and mean 0: as written,
      carbon stays at 1 and hydrogen becomes 100; the corrected translation
      gives 10 and 20. */
  lemma SetParamsIsNotEncode()
    ensures SetParamsSpec([1.0, 2.0], [("C", "USS"), ("H", "USS")], Uniform(0.0), Uniform(10.0)).Ok?
    ensures SetParamsSpec([1.0, 2.0], [("C", "USS"), ("H", "USS")], Uniform(0.0), Uniform(10.0)).value.items["C"] ==
      Dict(["USS"], map["USS" := 1.0])
    ensures SetParamsSpec([1.0, 2.0], [("C", "USS"), ("H", "USS")], Uniform(0.0), Uniform(10.0)).value.items["H"] ==
      Dict(["USS"], map["USS" := 100.0])
    ensures Encode([1.0, 2.0], [("C", "USS"), ("H", "USS")], Uniform(0.0), Uniform(10.0)).Ok?
    ensures Has(Encode([1.0, 2.0], [("C", "USS"), ("H", "USS")], Uniform(0.0), Uniform(10.0)).value, "C", "USS")
    ensures Has(Encode([1.0, 2.0], [("C", "USS"), ("H", "USS")], Uniform(0.0), Uniform(10.0)).value, "H", "USS")
    ensures At(Encode([1.0, 2.0], [("C", "USS"), ("H", "USS")], Uniform(0.0), Uniform(10.0)).value, "C", "USS") == 10.0
    ensures At(Encode([1.0, 2.0], [("C", "USS"), ("H", "USS")], Uniform(0.0), Uniform(10.0)).value, "H", "USS") == 20.0
  {
    assert "C"[0] != "H"[0];
    SetParamsTwoSpecies("C", "H", "USS", 1.0, 2.0, Uniform(0.0), Uniform(10.0));
    EncodeTwoSpecies("C", "H", "USS", 1.0, 2.0, Uniform(0.0), Uniform(10.0));
    assert Affine(1.0, 10.0, 0.0) == 10.0 && Affine(10.0, 10.0, 0.0) == 100.0 && Affine(2.0, 10.0, 0.0) == 20.0;
  }
}
