/** `set_params` and `calculate` of src/pipelines.py: turning a flat key/value
    list into the nested table handed to MNDO, with the affine rescale
    `value * scale + mean`, and collecting one property dictionary per
    molecule from the calculation's output blocks. */
module Pipelines {
  import opened Wrappers
  import opened Dicts
  import opened Losses

  /** `{key[0]: {} for key in param_keys}`: one empty dictionary per species,
      in the order in which species first occur. */
  function Groups(keys: seq<Key>): (t: Table)
    ensures TableValid(t)
    ensures forall s :: s in t.items ==> t.items[s] == Empty()
    decreases |keys|
  {
    if keys == [] then Empty()
    else Put(Groups(keys[..|keys| - 1]), keys[|keys| - 1].0, Empty())
  }

  /** The groups hold exactly the species of the keys, including those of
      keys beyond the shorter value list. */
  lemma {:induction false} GroupsSpecies(keys: seq<Key>)
    ensures forall s :: s in Groups(keys).items <==> exists i :: 0 <= i < |keys| && keys[i].0 == s
    decreases |keys|
  {
    if keys != [] {
      var init := keys[..|keys| - 1];
      GroupsSpecies(init);
      assert forall i :: 0 <= i < |init| ==> init[i] == keys[i];
    }
  }

  /** Keys of a single species give a single group. */
  lemma {:induction false} GroupsOneSpecies(keys: seq<Key>, a: Species)
    requires |keys| > 0 && forall i :: 0 <= i < |keys| ==> keys[i].0 == a
    ensures Groups(keys).order == [a]
    decreases |keys|
  {
    var init := keys[..|keys| - 1];
    if |init| > 0 {
      assert forall i :: 0 <= i < |init| ==> init[i] == keys[i];
      GroupsOneSpecies(init, a);
      assert a in Groups(init).items;
    }
  }

  /** Every zipped key's species has its dictionary in the groups. */
  lemma GroupsHoldZipped(keys: seq<Key>, list: seq<real>)
    ensures SpeciesPresent(Groups(keys), Zip(keys, list))
  {
    GroupsSpecies(keys);
    var z := Zip(keys, list);
    forall i | 0 <= i < |z|
      ensures z[i].0.0 in Groups(keys).items
    {
      assert keys[i].0 == z[i].0.0;
    }
  }

  /** The table after `for (atom_type, prop), param in zip(param_keys, param_list):
      params[atom_type][prop] = param`. */
  function Raw(keys: seq<Key>, list: seq<real>): (t: Table)
    ensures TableValid(t) && t.order == Groups(keys).order && t.items.Keys == Groups(keys).items.Keys
  {
    GroupsHoldZipped(keys, list);
    WriteAll(Groups(keys), Zip(keys, list))
  }

  /** The value `atom_type` keeps after that loop: the species of the last
      zipped key, or unbound when nothing was zipped. */
  function LastZipped(keys: seq<Key>, list: seq<real>): (r: Option<Species>)
    ensures r.Some? <==> |keys| > 0 && |list| > 0
  {
    var pairs := Zip(keys, list);
    if pairs == [] then None else Some(pairs[|pairs| - 1].0.0)
  }

  /** The leaked species is one of the groups. */
  lemma LastZippedGrouped(keys: seq<Key>, list: seq<real>)
    ensures LastZipped(keys, list).Some? ==> LastZipped(keys, list).value in Groups(keys).items
  {
    GroupsHoldZipped(keys, list);
  }

  /** `value * scale + mean`. */
  function Affine(value: real, scale: real, mean: real): real {
    value * scale + mean
  }

  /** `for key in p: val = p[key] * s[key] + d[key]; params[target][key] = val`
      over the keys `ks` still to visit, reading values from the snapshot `x`
      of the species' dictionary. A key missing from `s` or `d` raises
      `KeyError`; an unbound `target` raises `UnboundLocalError` once a value
      has been computed. */
  function RescaleKeys(t: Table, x: Params, ks: seq<Property>, target: Option<Species>, s: Params, d: Params)
    : (r: Result<Table, Exception>)
    requires forall k :: k in ks ==> k in x.items
    requires target.Some? ==> target.value in t.items
    ensures r.Ok? ==> r.value.order == t.order && r.value.items.Keys == t.items.Keys
    ensures r.Ok? && TableValid(t) ==> TableValid(r.value)
    decreases |ks|
  {
    if ks == [] then Ok(t)
    else if ks[0] !in s.items then Err(KeyError(ks[0]))
    else if ks[0] !in d.items then Err(KeyError(ks[0]))
    else if target.None? then Err(UnboundLocalError("atom_type"))
    else RescaleKeys(Assign(t, target.value, ks[0], Affine(x.items[ks[0]], s.items[ks[0]], d.items[ks[0]])), x, ks[1..], target, s, d)
  }

  /** One step of `RescaleKeys` when the first key can be rescaled. */
  lemma RescaleKeysStep(t: Table, x: Params, ks: seq<Property>, target: Option<Species>, s: Params, d: Params)
    requires forall k :: k in ks ==> k in x.items
    requires target.Some? && target.value in t.items
    requires ks != [] && ks[0] in s.items && ks[0] in d.items
    ensures RescaleKeys(t, x, ks, target, s, d) ==
      RescaleKeys(Assign(t, target.value, ks[0], Affine(x.items[ks[0]], s.items[ks[0]], d.items[ks[0]])), x, ks[1..], target, s, d)
  {
  }

  /** The rescale loop of `set_params` as written, over the species still to
      visit: `s` and `d` are looked up for the species being visited, but
      every value is stored under the leaked `target` (`atom_type`). */
  function RescaleAll(t: Table, species: seq<Species>, target: Option<Species>, scale: Table, mean: Table)
    : (r: Result<Table, Exception>)
    requires TableValid(t) && forall a :: a in species ==> a in t.items
    requires target.Some? ==> target.value in t.items
    ensures r.Ok? ==> TableValid(r.value) && r.value.order == t.order && r.value.items.Keys == t.items.Keys
    decreases |species|
  {
    if species == [] then Ok(t)
    else
      var a := species[0];
      if a !in scale.items then Err(KeyError(a))
      else if a !in mean.items then Err(KeyError(a))
      else
        var p := t.items[a];
        match RescaleKeys(t, p, p.order, target, scale.items[a], mean.items[a])
        case Err(e) => Err(e)
        case Ok(u) => RescaleAll(u, species[1..], target, scale, mean)
  }

  /** What `set_params` hands to `mndo.set_params`, or the exception it raises. */
  function SetParamsSpec(list: seq<real>, keys: seq<Key>, mean: Table, scale: Table): (r: Result<Table, Exception>)
    ensures r.Ok? ==> TableValid(r.value) && r.value.order == Groups(keys).order
  {
    LastZippedGrouped(keys, list);
    RescaleAll(Raw(keys, list), Groups(keys).order, LastZipped(keys, list), scale, mean)
  }

  /** `params = {key[0]: {} for key in param_keys}`. */
  method GroupKeys(paramKeys: seq<Key>) returns (params: Table)
    ensures params == Groups(paramKeys)
  {
    params := Empty();
    for i := 0 to |paramKeys|
      invariant params == Groups(paramKeys[..i])
    {
      assert paramKeys[..i + 1][..i] == paramKeys[..i];
      params := Put(params, paramKeys[i].0, Empty());
    }
    assert paramKeys[..|paramKeys|] == paramKeys;
  }

  /** `for (atom_type, prop), param in zip(param_keys, param_list):
      params[atom_type][prop] = param`, returning the table and what is left
      in `atom_type`. */
  method FillGroups(groups: Table, paramKeys: seq<Key>, paramList: seq<real>) returns (params: Table, atomType: Option<Species>)
    requires SpeciesPresent(groups, Zip(paramKeys, paramList))
    ensures params == WriteAll(groups, Zip(paramKeys, paramList))
    ensures atomType == LastZipped(paramKeys, paramList)
  {
    params := groups;
    atomType := None;
    var pairs := Zip(paramKeys, paramList);
    for i := 0 to |pairs|
      invariant SpeciesPresent(groups, pairs[..i])
      invariant params == WriteAll(groups, pairs[..i])
      invariant atomType == if i == 0 then None else Some(pairs[i - 1].0.0)
    {
      var key := pairs[i].0;
      var param := pairs[i].1;
      assert pairs[..i + 1][..i] == pairs[..i];
      atomType := Some(key.0);
      params := Assign(params, key.0, key.1, param);
    }
    assert pairs[..|pairs|] == pairs;
  }

  /** The inner rescale loop for one species: `for key in p: val = p[key] *
      s[key] + d[key]; params[atom_type][key] = val`, with `atom_type` passed
      in as `target`. */
  method RescaleInto(params: Table, p: Params, target: Option<Species>, s: Params, d: Params)
    returns (r: Result<Table, Exception>)
    requires TableValid(params) && Valid(p)
    requires target.Some? ==> target.value in params.items
    ensures r == RescaleKeys(params, p, p.order, target, s, d)
  {
    var ks := p.order;
    var current := params;
    for k := 0 to |ks|
      invariant TableValid(current) && current.items.Keys == params.items.Keys
      invariant RescaleKeys(current, p, ks[k..], target, s, d) == RescaleKeys(params, p, ks, target, s, d)
    {
      var key := ks[k];
      assert ks[k..][0] == key && ks[k..][1..] == ks[k + 1..];
      if key !in s.items {
        return Err(KeyError(key));
      }
      if key !in d.items {
        return Err(KeyError(key));
      }
      var val := Affine(p.items[key], s.items[key], d.items[key]);
      if target.None? {
        return Err(UnboundLocalError("atom_type"));
      }
      RescaleKeysStep(current, p, ks[k..], target, s, d);
      current := Assign(current, target.value, key, val);
    }
    return Ok(current);
  }

  /** One step of `RescaleAll` when the species has a scale and a mean. */
  lemma RescaleAllStep(t: Table, species: seq<Species>, target: Option<Species>, scale: Table, mean: Table)
    requires TableValid(t) && forall a :: a in species ==> a in t.items
    requires target.Some? ==> target.value in t.items
    requires species != [] && species[0] in scale.items && species[0] in mean.items
    ensures
      var p := t.items[species[0]];
      RescaleAll(t, species, target, scale, mean) ==
        match RescaleKeys(t, p, p.order, target, scale.items[species[0]], mean.items[species[0]])
        case Err(e) => Err(e)
        case Ok(u) => RescaleAll(u, species[1..], target, scale, mean)
  {
  }

  /** The outer rescale loop: `for atomtype in params: p, s, d =
      params[atomtype], scale_params[atomtype], mean_params[atomtype]`, then
      the inner loop with the leaked `atom_type`. */
  method RescaleGroups(raw: Table, atomType: Option<Species>, meanParams: Table, scaleParams: Table)
    returns (r: Result<Table, Exception>)
    requires TableValid(raw)
    requires atomType.Some? ==> atomType.value in raw.items
    ensures r == RescaleAll(raw, raw.order, atomType, scaleParams, meanParams)
  {
    var params := raw;
    var species := raw.order;
    for j := 0 to |species|
      invariant TableValid(params) && params.order == species && params.items.Keys == raw.items.Keys
      invariant RescaleAll(params, species[j..], atomType, scaleParams, meanParams) ==
                RescaleAll(raw, species, atomType, scaleParams, meanParams)
    {
      var atomtype := species[j];
      assert species[j..][0] == atomtype && species[j..][1..] == species[j + 1..];
      var p := params.items[atomtype];
      if atomtype !in scaleParams.items {
        return Err(KeyError(atomtype));
      }
      var s := scaleParams.items[atomtype];
      if atomtype !in meanParams.items {
        return Err(KeyError(atomtype));
      }
      var d := meanParams.items[atomtype];
      RescaleAllStep(params, species[j..], atomType, scaleParams, meanParams);
      var rescaled := RescaleInto(params, p, atomType, s, d);
      if rescaled.Err? {
        return Err(rescaled.error);
      }
      params := rescaled.value;
    }
    return Ok(params);
  }

  /** `set_params(param_list, param_keys, mean_params, scale_params)`, up to
      the call that writes the table to disk: the table it would write. */
  method SetParams(paramList: seq<real>, paramKeys: seq<Key>, meanParams: Table, scaleParams: Table)
    returns (r: Result<Table, Exception>)
    ensures r == SetParamsSpec(paramList, paramKeys, meanParams, scaleParams)
  {
    var groups := GroupKeys(paramKeys);
    GroupsHoldZipped(paramKeys, paramList);
    var params, atomType := FillGroups(groups, paramKeys, paramList);
    LastZippedGrouped(paramKeys, paramList);
    r := RescaleGroups(params, atomType, meanParams, scaleParams);
  }

  // Properties of the rescale loops.

  /** The inner loop succeeds exactly when every key has a scale and a mean
      and, unless there is no key, `atom_type` is bound; otherwise it raises
      `KeyError` for one of the keys or `UnboundLocalError`. */
  lemma {:induction false} RescaleKeysOutcome(t: Table, x: Params, ks: seq<Property>, target: Option<Species>, s: Params, d: Params)
    requires forall k :: k in ks ==> k in x.items
    requires target.Some? ==> target.value in t.items
    ensures RescaleKeys(t, x, ks, target, s, d).Ok? <==>
              (forall k :: k in ks ==> k in s.items && k in d.items) && (ks == [] || target.Some?)
    ensures RescaleKeys(t, x, ks, target, s, d).Err? && target.Some? ==>
              RescaleKeys(t, x, ks, target, s, d).error.KeyError?
    ensures RescaleKeys(t, x, ks, target, s, d).Err? ==>
              RescaleKeys(t, x, ks, target, s, d).error == UnboundLocalError("atom_type") ||
              exists k :: k in ks && (k !in s.items || k !in d.items) && RescaleKeys(t, x, ks, target, s, d).error == KeyError(k)
    decreases |ks|
  {
    if ks != [] && ks[0] in s.items && ks[0] in d.items && target.Some? {
      var u := Assign(t, target.value, ks[0], Affine(x.items[ks[0]], s.items[ks[0]], d.items[ks[0]]));
      RescaleKeysOutcome(u, x, ks[1..], target, s, d);
      assert forall k :: k in ks <==> k == ks[0] || k in ks[1..];
    }
  }

  /** When the inner loop succeeds, only the dictionary of `target` changes:
      it gains the visited keys, each holding the rescaled snapshot value, and
      keeps its other entries. */
  lemma {:induction false} RescaleKeysWrites(t: Table, x: Params, ks: seq<Property>, target: Option<Species>, s: Params, d: Params)
    requires forall k :: k in ks ==> k in x.items
    requires target.Some? ==> target.value in t.items
    ensures var r := RescaleKeys(t, x, ks, target, s, d);
      r.Ok? ==>
        && (forall a :: a in t.items && (target.None? || a != target.value) ==> r.value.items[a] == t.items[a])
        && (target.Some? ==> forall q :: Has(r.value, target.value, q) <==> Has(t, target.value, q) || q in ks)
        && (target.Some? ==> forall q :: q in ks ==>
              q in s.items && q in d.items && At(r.value, target.value, q) == Affine(x.items[q], s.items[q], d.items[q]))
        && (target.Some? ==> forall q :: Has(t, target.value, q) && q !in ks ==> At(r.value, target.value, q) == At(t, target.value, q))
    decreases |ks|
  {
    if ks != [] && ks[0] in s.items && ks[0] in d.items && target.Some? {
      var u := Assign(t, target.value, ks[0], Affine(x.items[ks[0]], s.items[ks[0]], d.items[ks[0]]));
      RescaleKeysWrites(u, x, ks[1..], target, s, d);
      assert forall k :: k in ks <==> k == ks[0] || k in ks[1..];
    }
  }

  /** As written, a successful rescale leaves every dictionary other than the
      leaked species' exactly as it was: those species keep their raw values. */
  lemma {:induction false} RescaleAllOthers(t: Table, species: seq<Species>, target: Option<Species>, scale: Table, mean: Table)
    requires TableValid(t) && forall a :: a in species ==> a in t.items
    requires target.Some? ==> target.value in t.items
    ensures var r := RescaleAll(t, species, target, scale, mean);
      r.Ok? ==> forall a :: a in t.items && (target.None? || a != target.value) ==> r.value.items[a] == t.items[a]
    decreases |species|
  {
    if species != [] && species[0] in scale.items && species[0] in mean.items {
      var a := species[0];
      var p := t.items[a];
      var step := RescaleKeys(t, p, p.order, target, scale.items[a], mean.items[a]);
      RescaleKeysWrites(t, p, p.order, target, scale.items[a], mean.items[a]);
      if step.Ok? {
        RescaleAllOthers(step.value, species[1..], target, scale, mean);
      }
    }
  }

  /** As written, a successful rescale found a scale and a mean for every
      species visited and for every key each of them held beforehand. */
  lemma {:induction false} RescaleAllNeeds(t: Table, species: seq<Species>, target: Option<Species>, scale: Table, mean: Table)
    requires TableValid(t) && forall a :: a in species ==> a in t.items
    requires target.Some? ==> target.value in t.items
    ensures RescaleAll(t, species, target, scale, mean).Ok? ==>
      forall a :: a in species ==>
        && a in scale.items && a in mean.items
        && forall q :: Has(t, a, q) ==> q in scale.items[a].items && q in mean.items[a].items
    decreases |species|
  {
    if species != [] && species[0] in scale.items && species[0] in mean.items {
      var a := species[0];
      var p := t.items[a];
      var step := RescaleKeys(t, p, p.order, target, scale.items[a], mean.items[a]);
      RescaleKeysOutcome(t, p, p.order, target, scale.items[a], mean.items[a]);
      RescaleKeysWrites(t, p, p.order, target, scale.items[a], mean.items[a]);
      if step.Ok? {
        var u := step.value;
        RescaleAllNeeds(u, species[1..], target, scale, mean);
        if RescaleAll(t, species, target, scale, mean).Ok? {
          assert RescaleAll(t, species, target, scale, mean) == RescaleAll(u, species[1..], target, scale, mean);
          forall b | b in species
            ensures b in scale.items && b in mean.items
            ensures forall q :: Has(t, b, q) ==> q in scale.items[b].items && q in mean.items[b].items
          {
            if b != a {
              assert b in species[1..];
              forall q | Has(t, b, q)
                ensures Has(u, b, q)
              {
                if target.Some? && b == target.value {
                } else {
                  assert u.items[b] == t.items[b];
                }
              }
            } else {
              assert forall q :: Has(t, a, q) ==> q in p.order;
            }
          }
        }
      }
    }
  }

  /** With `atom_type` unbound and every dictionary empty, the rescale either
      succeeds without change or raises `KeyError` for a species. */
  lemma {:induction false} RescaleAllUnbound(t: Table, species: seq<Species>, scale: Table, mean: Table)
    requires TableValid(t) && forall a :: a in species ==> a in t.items
    requires forall a :: a in t.items ==> t.items[a].order == []
    ensures RescaleAll(t, species, None, scale, mean) == Ok(t) ||
            exists a :: a in species && RescaleAll(t, species, None, scale, mean) == Err(KeyError(a))
    decreases |species|
  {
    if species != [] && species[0] in scale.items && species[0] in mean.items {
      RescaleAllUnbound(t, species[1..], scale, mean);
    }
  }

  /** With `atom_type` bound, the only exception the rescale raises is `KeyError`. */
  lemma {:induction false} RescaleAllBound(t: Table, species: seq<Species>, target: Option<Species>, scale: Table, mean: Table)
    requires TableValid(t) && forall a :: a in species ==> a in t.items
    requires target.Some? && target.value in t.items
    ensures RescaleAll(t, species, target, scale, mean).Err? ==> RescaleAll(t, species, target, scale, mean).error.KeyError?
    decreases |species|
  {
    if species != [] && species[0] in scale.items && species[0] in mean.items {
      var a := species[0];
      var p := t.items[a];
      var step := RescaleKeys(t, p, p.order, target, scale.items[a], mean.items[a]);
      RescaleKeysOutcome(t, p, p.order, target, scale.items[a], mean.items[a]);
      if step.Ok? {
        RescaleAllBound(step.value, species[1..], target, scale, mean);
      }
    }
  }

  // Properties of `set_params` as written.

  /** Before the rescale, the table holds one dictionary per species of
      `param_keys` (also for keys beyond the end of `param_list`, whose
      dictionaries stay empty), and `params[s][p]` is the last value zipped
      with `(s, p)`; with distinct keys, the value zipped with it. */
  lemma RawEntries(keys: seq<Key>, list: seq<real>)
    ensures Distinct(Raw(keys, list).order)
    ensures forall s :: s in Raw(keys, list).items <==> exists i :: 0 <= i < |keys| && keys[i].0 == s
    ensures forall s, p :: Has(Raw(keys, list), s, p) <==> LastWritten(Zip(keys, list), (s, p)).Some?
    ensures forall s, p :: Has(Raw(keys, list), s, p) ==> At(Raw(keys, list), s, p) == LastWritten(Zip(keys, list), (s, p)).value
    ensures Distinct(keys) ==> forall i :: 0 <= i < |keys| && i < |list| ==>
              Has(Raw(keys, list), keys[i].0, keys[i].1) && At(Raw(keys, list), keys[i].0, keys[i].1) == list[i]
  {
    GroupsSpecies(keys);
    GroupsHoldZipped(keys, list);
    var z := Zip(keys, list);
    forall s, p
      ensures Has(Raw(keys, list), s, p) <==> LastWritten(z, (s, p)).Some?
      ensures Has(Raw(keys, list), s, p) ==> At(Raw(keys, list), s, p) == LastWritten(z, (s, p)).value
    {
      WriteAllLookup(Groups(keys), z, s, p);
    }
    if Distinct(keys) {
      forall i | 0 <= i < |keys| && i < |list|
        ensures Has(Raw(keys, list), keys[i].0, keys[i].1) && At(Raw(keys, list), keys[i].0, keys[i].1) == list[i]
      {
        LastWrittenFound(z, keys[i]);
      }
    }
  }

  /** With distinct keys and one value per key, the table before the rescale
      holds exactly the given keys, the i-th holding `list[i]`. */
  lemma RawKeys(keys: seq<Key>, list: seq<real>)
    requires Distinct(keys) && |list| == |keys|
    ensures forall s, p :: Has(Raw(keys, list), s, p) <==> (s, p) in keys
    ensures forall i :: 0 <= i < |keys| ==>
              Has(Raw(keys, list), keys[i].0, keys[i].1) && At(Raw(keys, list), keys[i].0, keys[i].1) == list[i]
  {
    forall s, p
      ensures Has(Raw(keys, list), s, p) <==> (s, p) in keys
    {
      RawHas(keys, list, s, p);
    }
    RawEntries(keys, list);
  }

  /** One entry of `RawKeys`. */
  lemma RawHas(keys: seq<Key>, list: seq<real>, s: Species, p: Property)
    requires |list| == |keys|
    ensures Has(Raw(keys, list), s, p) <==> (s, p) in keys
  {
    GroupsSpecies(keys);
    var g := Groups(keys);
    assert Writable(g, keys);
    assert Raw(keys, list) == WriteBack(g, keys, list);
    WriteBackKeys(g, keys, list);
    assert !Has(g, s, p);
    if (s, p) in keys {
      var i :| 0 <= i < |keys| && keys[i] == (s, p);
      assert i < |list|;
    }
  }

  /** As written, every rescaled value lands in the dictionary of the leaked
      `atom_type`: every other species keeps its raw values, and with nothing
      zipped the table is returned as grouped. */
  lemma SetParamsLeak(list: seq<real>, keys: seq<Key>, mean: Table, scale: Table)
    ensures SetParamsSpec(list, keys, mean, scale).Ok? ==>
      var r := SetParamsSpec(list, keys, mean, scale).value;
      && r.order == Groups(keys).order
      && r.items.Keys == Raw(keys, list).items.Keys
      && (LastZipped(keys, list).None? ==> r == Raw(keys, list))
      && (LastZipped(keys, list).Some? ==> forall a :: a in r.items && a != LastZipped(keys, list).value ==>
            r.items[a] == Raw(keys, list).items[a])
  {
    var raw := Raw(keys, list);
    LastZippedGrouped(keys, list);
    RescaleAllOthers(raw, Groups(keys).order, LastZipped(keys, list), scale, mean);
    if SetParamsSpec(list, keys, mean, scale).Ok? {
      var r := SetParamsSpec(list, keys, mean, scale).value;
      if LastZipped(keys, list).None? {
        assert r.items == raw.items;
      }
    }
  }

  /** As written, `set_params` succeeds only if every species of `param_keys`
      has a scale and a mean dictionary, and every key zipped with a value has
      a scale and a mean; so a missing one raises (a `KeyError`). */
  lemma SetParamsNeeds(list: seq<real>, keys: seq<Key>, mean: Table, scale: Table)
    ensures SetParamsSpec(list, keys, mean, scale).Ok? ==>
      && (forall i :: 0 <= i < |keys| ==> keys[i].0 in scale.items && keys[i].0 in mean.items)
      && (forall s, p :: Has(Raw(keys, list), s, p) ==>
            s in scale.items && s in mean.items && p in scale.items[s].items && p in mean.items[s].items)
  {
    var raw := Raw(keys, list);
    LastZippedGrouped(keys, list);
    GroupsSpecies(keys);
    RescaleAllNeeds(raw, raw.order, LastZipped(keys, list), scale, mean);
    if SetParamsSpec(list, keys, mean, scale).Ok? {
      forall i | 0 <= i < |keys|
        ensures keys[i].0 in scale.items && keys[i].0 in mean.items
      {
        assert keys[i].0 in raw.order;
      }
      forall s, p | Has(raw, s, p)
        ensures s in scale.items && s in mean.items && p in scale.items[s].items && p in mean.items[s].items
      {
        assert s in raw.order;
      }
    }
  }

  /** The leaked `atom_type` is never read unbound: `set_params` raises at
      most `KeyError`. */
  lemma SetParamsNeverUnbound(list: seq<real>, keys: seq<Key>, mean: Table, scale: Table)
    ensures SetParamsSpec(list, keys, mean, scale).Err? ==> SetParamsSpec(list, keys, mean, scale).error.KeyError?
  {
    var raw := Raw(keys, list);
    LastZippedGrouped(keys, list);
    if LastZipped(keys, list).Some? {
      RescaleAllBound(raw, Groups(keys).order, LastZipped(keys, list), scale, mean);
    } else {
      assert Zip(keys, list) == [];
      assert raw == Groups(keys);
      RescaleAllUnbound(raw, Groups(keys).order, scale, mean);
    }
  }

  // `calculate`: one property dictionary per output block.

  /** The output lines of one molecule's calculation. */
  type Block = seq<string>

  /** A molecule's property dictionary, e.g. `{"energy": ...}`. */
  type Props = Dict<string, Float>

  /** `props = dict(); props["energy"] = np.float("nan")`. */
  const NaNProps: Props := Dict(["energy"], map["energy" := NaN])

  /** What one block contributes: the parsed dictionary, or `NaNProps` when
      the parser (`mndo.get_properties`, here `parse`, with `None` for a raised
      exception) fails. */
  function Outcome(parsed: Option<Props>): Props {
    match parsed
    case Some(props) => props
    case None => NaNProps
  }

  /** The list `calculate` builds, one append per block. */
  function Collected(blocks: seq<Block>, parse: Block -> Option<Props>): (r: seq<Props>)
    ensures |r| == |blocks|
    decreases |blocks|
  {
    if blocks == [] then []
    else Collected(blocks[..|blocks| - 1], parse) + [Outcome(parse(blocks[|blocks| - 1]))]
  }

  /** One result per block, in block order: the parser's dictionary unchanged
      where it succeeds, exactly `{"energy": NaN}` where it fails. */
  lemma {:induction false} CollectedIndex(blocks: seq<Block>, parse: Block -> Option<Props>)
    ensures |Collected(blocks, parse)| == |blocks|
    ensures forall i :: 0 <= i < |blocks| ==>
              Collected(blocks, parse)[i] == if parse(blocks[i]).Some? then parse(blocks[i]).value else NaNProps
    decreases |blocks|
  {
    if blocks != [] {
      var init := blocks[..|blocks| - 1];
      CollectedIndex(init, parse);
      assert forall i :: 0 <= i < |init| ==> init[i] == blocks[i];
    }
  }

  /** A block's failure never affects another index: two runs whose blocks
      agree at index `i` agree on the result at `i`. */
  lemma CollectedLocal(blocks: seq<Block>, others: seq<Block>, parse: Block -> Option<Props>, i: nat)
    requires i < |blocks| && i < |others| && blocks[i] == others[i]
    ensures i < |Collected(blocks, parse)| && i < |Collected(others, parse)|
    ensures Collected(blocks, parse)[i] == Collected(others, parse)[i]
  {
    CollectedIndex(blocks, parse);
    CollectedIndex(others, parse);
  }

  /** `calculate(binary, filename)` after `mndo.calculate_file` has produced
      the output blocks. */
  method Calculate(calculations: seq<Block>, parse: Block -> Option<Props>) returns (propsList: seq<Props>)
    ensures propsList == Collected(calculations, parse)
  {
    propsList := [];
    for i := 0 to |calculations|
      invariant propsList == Collected(calculations[..i], parse)
    {
      var props: Props;
      match parse(calculations[i]) {
        case Some(parsed) =>
          props := parsed;
        case None =>
          props := Dict([], map[]);
          props := Put(props, "energy", NaN);
          assert props.order == ["energy"] && props.items == map["energy" := NaN];
      }
      assert props == Outcome(parse(calculations[i]));
      assert calculations[..i + 1][..i] == calculations[..i];
      propsList := propsList + [props];
    }
    assert calculations[..|calculations|] == calculations;
  }
}
