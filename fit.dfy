/** The objective of `minimize_parameters` (fitter/fit.py:65-215): the
    `parameters` table shared by the closures `penalty` and `jacobian`, the
    write-back of the final parameters, and the module-level signed `penalty`
    of the script (fitter/fit.py:281-323). */
module Fit {
  import opened Wrappers
  import opened Dicts
  import opened SpeciesOrder
  import opened Losses
  import opened FiniteDifference
  import opened ParameterSelection

  /** `mndo.set_params(table)` followed by `mndo.calculate(filename)` and
      `[properties["energy"] for properties in properties_list]`: the
      energies of the molecules of the input file under a parameter table. */
  type Oracle = Table -> seq<Float>

  /** The oracle yields one energy per molecule of the reference batch. */
  ghost predicate OracleFits(oracle: Oracle, reference: seq<Float>) {
    forall t :: |oracle(t)| == |reference|
  }

  /** `jacobian`'s default step `dh`. */
  const DefaultStep: real := 0.000001

  /** The state shared by `penalty` and `jacobian`: the parameter table they
      write into, the selected keys, the reference energies and the oracle. */
  class Objective {
    var parameters: Table
    const keys: seq<Key>
    const reference: seq<Float>
    const oracle: Oracle

    ghost predicate Valid()
      reads this
    {
      TableValid(parameters) && Writable(parameters, keys) && OracleFits(oracle, reference)
    }

    constructor (parameters: Table, keys: seq<Key>, reference: seq<Float>, oracle: Oracle)
      requires TableValid(parameters) && Writable(parameters, keys) && OracleFits(oracle, reference)
      ensures Valid()
      ensures this.parameters == parameters && this.keys == keys
      ensures this.reference == reference && this.oracle == oracle
    {
      this.parameters := parameters;
      this.keys := keys;
      this.reference := reference;
      this.oracle := oracle;
    }

    /** `for param, key in zip(params, keys): parameters[key[0]][key[1]] = param`. */
    method WriteParams(params: seq<real>)
      requires Valid()
      modifies this
      ensures Valid()
      ensures parameters == WriteBack(old(parameters), keys, params)
    {
      var pairs := Zip(keys, params);
      for i := 0 to |pairs|
        invariant SpeciesPresent(old(parameters), pairs[..i])
        invariant Valid() && parameters == WriteAll(old(parameters), pairs[..i])
      {
        var (key, param) := pairs[i];
        WriteAllNext(old(parameters), pairs, i);
        parameters := Assign(parameters, key.0, key.1, param);
      }
      assert pairs[..|pairs|] == pairs;
    }

    /** `penalty(params)`: write the vector into the table, run the oracle,
        replace NaN differences by 700 and return the mean absolute difference. */
    method Penalty(params: seq<real>) returns (error: Float)
      requires Valid()
      modifies this
      ensures Valid()
      ensures parameters == WriteBack(old(parameters), keys, params)
      ensures error == AbsLoss(reference, oracle(parameters))
    {
      WriteParams(params);
      var calcEnergies := oracle(parameters);
      var d := Differences(reference, calcEnergies);
      var diff := new Float[|d|](i requires 0 <= i < |d| => d[i]);
      assert diff[..] == d;
      ReplaceNaN(diff);
      error := Mean(Magnitudes(diff[..]));
    }

    /** The module-level `penalty(params)`: as `Penalty`, but the plain mean
        of the differences, without absolute value. */
    method SignedPenalty(params: seq<real>) returns (error: Float)
      requires Valid()
      modifies this
      ensures Valid()
      ensures parameters == WriteBack(old(parameters), keys, params)
      ensures error == SignedLoss(reference, oracle(parameters))
    {
      WriteParams(params);
      var calcEnergies := oracle(parameters);
      var d := Differences(reference, calcEnergies);
      var diff := new Float[|d|](i requires 0 <= i < |d| => d[i]);
      assert diff[..] == d;
      ReplaceNaN(diff);
      error := Mean(diff[..]);
    }

    /** The loss as a function of the parameter vector, from table `t0`. */
    ghost function Loss(t0: Table): (f: seq<real> -> Float)
      requires Writable(t0, keys) && OracleFits(oracle, reference)
      ensures forall v :: f(v).NaN? <==> |reference| == 0
    {
      var f := v => AbsLoss(reference, oracle(WriteBack(t0, keys, v)));
      assert forall v :: f(v) == AbsLoss(reference, oracle(WriteBack(t0, keys, v)));
      f
    }

    /** Because every NaN difference is clamped to 700, the gradient that
        `jacobian` returns has a NaN component only for an empty batch, and
        then every component is NaN. */
    lemma GradientNaN(t0: Table, params: seq<real>, dh: real)
      requires Writable(t0, keys) && OracleFits(oracle, reference) && dh != 0.0
      ensures forall i :: 0 <= i < |params| ==> (Gradient(Loss(t0), params, dh)[i].NaN? <==> |reference| == 0)
    {
    }

    /** `jacobian(params, dh)`: the central difference of `penalty` in every
        dimension, each on a fresh copy of `params`. The table is left as the
        last backward evaluation wrote it. */
    method Jacobian(params: seq<real>, dh: real) returns (grad: array<Float>)
      requires Valid() && Covers(parameters, keys) && dh != 0.0
      modifies this
      ensures Valid() && Covers(parameters, keys)
      ensures fresh(grad)
      ensures grad[..] == Gradient(Loss(old(parameters)), params, dh)
      ensures parameters ==
        if |params| == 0 then old(parameters)
        else WriteBack(old(parameters), keys, Shifted(params, |params| - 1, -dh))
    {
      ghost var t0 := parameters;
      ghost var prev := params;
      grad := new Float[|params|](_ => Num(0.0));
      for i := 0 to |params|
        invariant Valid() && Covers(t0, keys) && Covers(parameters, keys) && |prev| == |params|
        invariant forall k :: 0 <= k < i ==> grad[k] == CentralDifference(Loss(t0), params, k, dh)
        invariant parameters == if i == 0 then t0 else WriteBack(t0, keys, prev)
        invariant i > 0 ==> prev == Shifted(params, i - 1, -dh)
      {
        grad[i] := Component(params, i, dh, t0, prev);
        prev := Shifted(params, i, -dh);
      }
      assert grad[..] == Gradient(Loss(t0), params, dh);
      if |params| > 0 {
        assert prev == Shifted(params, |params| - 1, -dh);
        assert parameters == WriteBack(t0, keys, prev);
      }
    }

    /** One pass of `jacobian`'s loop: the forward and the backward penalty
        of dimension `i`, on a fresh copy of `params`; the table is left as
        the backward evaluation wrote it. */
    method Component(params: seq<real>, i: nat, dh: real, ghost t0: Table, ghost prev: seq<real>) returns (g: Float)
      requires Valid() && Covers(t0, keys) && Writable(t0, keys) && i < |params| && dh != 0.0 && |prev| == |params|
      requires parameters == t0 || parameters == WriteBack(t0, keys, prev)
      modifies this
      ensures Valid() && Covers(parameters, keys)
      ensures parameters == WriteBack(t0, keys, Shifted(params, i, -dh))
      ensures g == CentralDifference(Loss(t0), params, i, dh)
    {
      var dparams := params;
      dparams := dparams[i := dparams[i] + dh];
      Rewritten(t0, keys, parameters, prev, dparams);
      var forward := Penalty(dparams);
      assert dparams == Shifted(params, i, dh);
      dparams := dparams[i := dparams[i] - 2.0 * dh];
      PerturbedPoints(params, i, dh);
      assert dparams == Shifted(params, i, -dh);
      Rewritten(t0, keys, parameters, Shifted(params, i, dh), dparams);
      var backward := Penalty(dparams);
      assert parameters == WriteBack(t0, keys, dparams);
      var de := Minus(forward, backward);
      g := Quotient(de, 2.0 * dh);
    }

    /** The end of `minimize_parameters`: `penalty(x)` and then the same
        write-back again; the table is returned as `end_parameters`. */
    method Conclude(x: seq<real>) returns (endParameters: Table, error: Float)
      requires Valid() && Covers(parameters, keys)
      modifies this
      ensures Valid() && Covers(parameters, keys)
      ensures endParameters == parameters == WriteBack(old(parameters), keys, x)
      ensures error == AbsLoss(reference, oracle(endParameters))
    {
      error := Penalty(x);
      WriteBackAbsorbs(old(parameters), keys, x, x);
      WriteParams(x);
      endParameters := parameters;
    }
  }

  /** A table reached from `t0` by writing back one vector is, for the next
      write-back of a vector of that length, as good as `t0` itself. */
  lemma Rewritten(t0: Table, keys: seq<Key>, current: Table, prev: seq<real>, v: seq<real>)
    requires Covers(t0, keys) && |prev| == |v|
    requires Writable(t0, keys) && (current == t0 || current == WriteBack(t0, keys, prev))
    ensures Writable(current, keys) && Covers(current, keys)
    ensures WriteBack(current, keys, v) == WriteBack(t0, keys, v)
    ensures Covers(WriteBack(t0, keys, v), keys)
  {
    WriteBackAbsorbs(t0, keys, v, v);
    if current != t0 {
      WriteBackAbsorbs(t0, keys, prev, v);
    }
  }

  /** Writing the optimised vector back into the selected table leaves a
      table with exactly the selected keys, each holding its entry of `x`. */
  lemma FinalTable(t: Table, keys: seq<Key>, x: seq<real>)
    requires Covers(t, keys) && Distinct(keys) && |x| == |keys|
    requires forall s, p :: Has(t, s, p) <==> (s, p) in keys
    ensures Writable(t, keys)
    ensures WriteBack(t, keys, x).order == t.order
    ensures forall s, p :: Has(WriteBack(t, keys, x), s, p) <==> (s, p) in keys
    ensures forall i :: 0 <= i < |keys| ==> At(WriteBack(t, keys, x), keys[i].0, keys[i].1) == x[i]
  {
    WriteBackEntries(t, keys, x);
    var w := WriteBack(t, keys, x);
    forall s, p
      ensures Has(w, s, p) <==> (s, p) in keys
    {
      if s in t.items {
        assert w.items[s].items.Keys == t.items[s].items.Keys;
      }
    }
  }

  /** The part of `minimize_parameters` after the selection: the penalty and
      gradient at the start vector, the optimizer's vector `x`, the final
      penalty and the write-back of `x` into the selected table. */
  method Optimize(
    parameters: Table, keys: seq<Key>, values: seq<real>, referenceProperties: seq<Float>,
    oracle: Oracle, optimizer: seq<real> -> seq<real>)
    returns (endParameters: Table, error: Float)
    requires TableValid(parameters) && Covers(parameters, keys)
    requires OracleFits(oracle, referenceProperties)
    requires forall v :: |optimizer(v)| == |v|
    ensures Writable(parameters, keys)
    ensures endParameters == WriteBack(parameters, keys, optimizer(values))
    ensures error == AbsLoss(referenceProperties, oracle(endParameters))
  {
    var objective := new Objective(parameters, keys, referenceProperties, oracle);
    var startError := objective.Penalty(values);
    ghost var p1 := objective.parameters;
    Rewritten(parameters, keys, parameters, values, values);
    var startErrorGrad := objective.Jacobian(values, DefaultStep);
    var x := optimizer(values);
    ghost var p2 := objective.parameters;
    ghost var prev := if |values| == 0 then values else Shifted(values, |values| - 1, -DefaultStep);
    Rewritten(parameters, keys, p1, values, prev);
    Rewritten(parameters, keys, p2, prev, x);
    endParameters, error := objective.Conclude(x);
  }

  /** `minimize_parameters`: select the parameters of the molecules' species,
      evaluate the penalty and gradient at the start, let the optimizer pick a
      vector, and write it back. `optimizer` stands for `scipy.optimize.minimize`
      on this objective and returns a vector of the start vector's length.
      The end table holds exactly the selected keys, each with its entry of
      the optimised vector, and the error is the loss there. */
  method MinimizeParameters(
    molsAtoms: seq<seq<Species>>, referenceProperties: seq<Float>, startParameters: Table,
    oracle: Oracle, optimizer: seq<real> -> seq<real>, ignoreKeys: seq<Property>)
    returns (r: Result<(Table, Float), Exception>)
    requires TableValid(startParameters)
    requires OracleFits(oracle, referenceProperties)
    requires forall v :: |optimizer(v)| == |v|
    ensures r.Ok? <==> forall a :: a in SpeciesOf(molsAtoms) ==> a in startParameters.items
    ensures r.Err? ==>
      exists i ::
        && 0 <= i < |SpeciesOf(molsAtoms)|
        && SpeciesOf(molsAtoms)[i] !in startParameters.items
        && r.error == KeyError(SpeciesOf(molsAtoms)[i])
        && forall j :: 0 <= j < i ==> SpeciesOf(molsAtoms)[j] in startParameters.items
    ensures r.Ok? ==>
      var sel := Select(SpeciesOf(molsAtoms), startParameters, ignoreKeys);
      var x := optimizer(sel.values);
      var endParameters := r.value.0;
      && |x| == |sel.keys|
      && endParameters.order == SpeciesOf(molsAtoms)
      && (forall s, p :: Has(endParameters, s, p) <==> (s, p) in sel.keys)
      && (forall i :: 0 <= i < |sel.keys| ==> At(endParameters, sel.keys[i].0, sel.keys[i].1) == x[i])
      && r.value.1 == AbsLoss(referenceProperties, oracle(endParameters))
  {
    var selected := SelectParameters(molsAtoms, startParameters, ignoreKeys);
    if selected.Err? {
      return Err(selected.error);
    }
    var sel := selected.value;
    SelectSpec(molsAtoms, startParameters, ignoreKeys);
    var endParameters, error := Optimize(sel.parameters, sel.keys, sel.values, referenceProperties, oracle, optimizer);
    FinalTable(sel.parameters, sel.keys, optimizer(sel.values));
    r := Ok((endParameters, error));
  }

  // The script at the bottom of fitter/fit.py.

  /** The script's `parameter_keys`. */
  const ScriptKeys: seq<Key> := [("O", "USS"), ("O", "UPP"), ("O", "ZP"), ("O", "BETAP"), ("O", "ALP")]

  /** The script's `parameters`. */
  const ScriptParameters: seq<real> := [-99.0, -77.0, 2.0, -32.0, 3.0]

  /** The script's `parameter_dict`: `{"O": {}}`. */
  const ScriptTable: Table := Dict(["O"], map["O" := Empty()])

  /** The script's `penalty(parameters)` (fitter/fit.py:288-320, taken on its
      own): the signed loss of the table that the script's vector writes into
      its oxygen table. As written the script never gets here, because
      `learning_curve` calls `quit()` after its first fold. */
  method ScriptPenalty(refEnergies: seq<Float>, oracle: Oracle) returns (error: Float)
    requires OracleFits(oracle, refEnergies)
    ensures error == SignedLoss(refEnergies, oracle(WriteBack(ScriptTable, ScriptKeys, ScriptParameters)))
  {
    var script := new Objective(ScriptTable, ScriptKeys, refEnergies, oracle);
    error := script.SignedPenalty(ScriptParameters);
  }

  /** The script's write-back fills the empty oxygen table with exactly the
      five script keys, each holding its script value; no species is added. */
  lemma ScriptTableWritten()
    ensures Writable(ScriptTable, ScriptKeys)
    ensures WriteBack(ScriptTable, ScriptKeys, ScriptParameters).order == ["O"]
    ensures forall s, p :: Has(WriteBack(ScriptTable, ScriptKeys, ScriptParameters), s, p) <==> (s, p) in ScriptKeys
    ensures forall i :: 0 <= i < |ScriptKeys| ==>
              At(WriteBack(ScriptTable, ScriptKeys, ScriptParameters), "O", ScriptKeys[i].1) == ScriptParameters[i]
  {
    ScriptKeysDistinct();
    assert forall i :: 0 <= i < |ScriptKeys| ==> ScriptKeys[i].0 == "O";
    FilledFromEmpty(ScriptTable, "O", ScriptKeys, ScriptParameters);
  }

  /** Writing keys of one species `s` into a table whose only entry of `s` is
      empty gives that species exactly the written keys, each with its value,
      and leaves the order of species alone. */
  lemma FilledFromEmpty(t: Table, s: Species, keys: seq<Key>, values: seq<real>)
    requires s in t.items && t.items[s].items == map[] && (forall r :: r in t.items ==> r == s)
    requires Distinct(keys) && |values| == |keys| && forall i :: 0 <= i < |keys| ==> keys[i].0 == s
    ensures Writable(t, keys)
    ensures WriteBack(t, keys, values).order == t.order
    ensures forall r, p :: Has(WriteBack(t, keys, values), r, p) <==> (r, p) in keys
    ensures forall i :: 0 <= i < |keys| ==> At(WriteBack(t, keys, values), s, keys[i].1) == values[i]
  {
    WriteBackEntries(t, keys, values);
    WriteBackKeys(t, keys, values);
    var w := WriteBack(t, keys, values);
    forall r, p
      ensures Has(w, r, p) <==> (r, p) in keys
    {
      assert !Has(t, r, p);
      if (r, p) in keys {
        var i :| 0 <= i < |keys| && keys[i] == (r, p);
      }
    }
    forall i | 0 <= i < |keys|
      ensures At(w, s, keys[i].1) == values[i]
    {
      assert keys[i] == (s, keys[i].1);
    }
  }

  /** The script's five keys are pairwise distinct: the property names differ
      in their length or in their second letter. */
  lemma ScriptKeysDistinct()
    ensures Distinct(ScriptKeys)
  {
    var names := seq(|ScriptKeys|, i requires 0 <= i < |ScriptKeys| => ScriptKeys[i].1);
    assert forall i :: 0 <= i < |names| ==> |names[i]| >= 2;
    assert [|names[0]|, |names[1]|, |names[2]|, |names[3]|, |names[4]|] == [3, 3, 2, 5, 3];
    assert [names[0][1], names[1][1], names[2][1], names[3][1], names[4][1]] == ['S', 'P', 'P', 'E', 'L'];
    forall i, j | 0 <= i < j < |ScriptKeys|
      ensures ScriptKeys[i] != ScriptKeys[j]
    {
      assert |names[i]| != |names[j]| || names[i][1] != names[j][1];
    }
  }
}
