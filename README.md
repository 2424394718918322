# bayes-mndo parameter fitting, modelled in Dafny

This project models the sequential core of the bayes-mndo fitter. The fitter tunes the
semi-empirical parameters of the MNDO family of quantum-chemistry methods. It does this by
minimising the error between reference energies and energies computed by an external `mndo`
binary. The model covers these pieces:

- **Parameter selection** in `minimize_parameters`. The species of the molecules are
  deduplicated and sorted, as `np.unique` does. For each species, every start parameter that
  is not in `ignore_keys` goes into a flat value vector, a parallel list of
  `[species, property]` keys and a pruned nested table (`selection.dfy`, `species.dfy`).
- **Loss assembly**. This is the inner `penalty`, which writes a parameter vector back into
  the shared table, calls the oracle and returns the mean absolute difference, with each NaN
  difference replaced by 700. The module-level `penalty` is modelled as well; it returns the
  signed mean instead (`losses.dfy`, `fit.dfy`).
- **Central finite-difference gradient**. This is the inner `jacobian` (`gradient.dfy`,
  `fit.dfy`).
- **The end of `minimize_parameters`**: the final penalty, the write-back of the optimised
  vector, and the returned table and error (`fit.dfy`).
- **`set_params`** of `src/pipelines.py`, exactly as written, including the rescale that
  writes into the dictionary of the leaked loop variable `atom_type`. Next to it is the
  evidently intended per-species codec with its inverse (`pipelines.dfy`, `codec.dfy`).
- **`calculate`** of `src/pipelines.py`: one property dictionary per output block, with
  `{"energy": NaN}` substituted for a block the parser rejects (`pipelines.dfy`).

Python dictionaries are insertion-ordered maps (`Dicts.Dict`). A parameter table is a
dictionary of dictionaries (`Dicts.Table`). Energies are `Losses.Float`, a real number or NaN.

Stateful code is modelled in imperative form:
- The table that `penalty` and `jacobian` share and mutate is the field of the class
  `Fit.Objective`.
- The NaN replacement works in place on an array (`Losses.ReplaceNaN`).
- The selection, `set_params` and `calculate` loops are methods with loop invariants.

Each method is proved equal to a specification function, and the properties are proved as
lemmas about those functions.

The parts that cannot be seen or run are parameters of the model:
- `mndo.set_params` followed by `mndo.calculate`, and the extraction of `"energy"`, form the
  oracle, a function from a table to one energy per molecule.
- `scipy.optimize.minimize` is the optimizer, a function from a vector to a vector of the same
  length.
- `mndo.get_properties` is the parser, a function from an output block to a dictionary or to a
  failure.

Two behaviours are modelled as the code has them, although they look unintended:
- The code's `set_params` does not put each rescaled value under its own species (see
  Findings).
- The code's loss is NaN, not a number, when the batch is empty: `np.mean` of an empty
  array.

## Model

| member | source | states |
|---|---|---|
| Dicts.Zip | fitter/fit.py:139 | `zip` pairs elements index by index, up to the shorter of the two lists |
| Dicts.Put | fitter/fit.py:130 | `d[k] = v` keeps a dictionary well formed and its key set becomes the old keys plus `k` |
| Dicts.Assign | fitter/fit.py:140 | `t[s][p] = v` keeps the outer order and species set and keeps the table well formed |
| Dicts.WriteAll | src/pipelines.py:25-26 | a loop of nested assignments keeps the outer order, the species set and well-formedness |
| Dicts.LastWrittenFound | src/pipelines.py:25-26 | a key was written iff some pair names it, and then the value found is that of its last pair |
| Dicts.WriteAllLookup | src/pipelines.py:25-26 | after the loop, an entry exists iff it existed before or was written; its value is the last one written, otherwise the old one |
| Dicts.WriteAllCovered | fitter/fit.py:139-140 | writing only existing entries changes neither the outer nor the inner key order |
| Dicts.WriteBack | fitter/fit.py:139-140 | the write-back of a vector keeps the outer order, the species set and well-formedness |
| Dicts.WriteBackEntries | fitter/fit.py:139-140 | with distinct keys, the i-th key's entry becomes `params[i]`, every other entry is unchanged, and the shape is kept |
| Dicts.WriteBackKeys | fitter/fit.py:139-140 | an entry exists after the write-back iff it existed before or is one of the zipped keys |
| Dicts.WriteBackAbsorbs | fitter/fit.py:137-140 | writing back a vector after another of the same length leaves exactly what writing back the second alone leaves |
| SpeciesOrder.BelowTransitive | fitter/fit.py:112 | Python's string order is transitive |
| SpeciesOrder.BelowTotal | fitter/fit.py:112 | Python's string order is total |
| SpeciesOrder.Below | fitter/fit.py:112 | Python's `<` on `str`, code point by code point with a proper prefix first; a string is never below itself |
| SpeciesOrder.BelowIrreflexive | fitter/fit.py:112 | no string is below itself |
| SpeciesOrder.BelowAsymmetric | fitter/fit.py:112 | two strings are never below each other |
| SpeciesOrder.SortedDistinct | fitter/fit.py:112 | a strictly ascending list has no repeated species |
| SpeciesOrder.Insert | fitter/fit.py:112 | inserting into a strictly sorted list keeps it strictly sorted and adds exactly that element |
| SpeciesOrder.Unique | fitter/fit.py:110-112 | `np.unique` gives a strictly ascending list of exactly the input's elements |
| SpeciesOrder.Flatten | fitter/fit.py:111 | `itertools.chain` holds exactly the elements of the molecules' lists |
| SpeciesOrder.SpeciesOf | fitter/fit.py:110-112 | the species list as `minimize_parameters` computes it (`np.unique` over the chained per-molecule `np.unique` lists) is strictly ascending |
| SpeciesOrder.SortedDetermined | fitter/fit.py:110-112 | two strictly sorted lists with the same elements are equal |
| SpeciesOrder.SpeciesOfSpec | fitter/fit.py:110-112 | the species considered are exactly those occurring in some molecule, each once, in ascending order, the same as `np.unique` of the flattened list |
| ParameterSelection.SelectParameters | fitter/fit.py:109-134 | succeeds iff every considered species has start parameters; otherwise raises `KeyError` for the first missing species in ascending order; on success returns the selection of the sorted species |
| ParameterSelection.Pick | fitter/fit.py:124-132 | one species' inner loop appends one value per key and at most one key per start property (which keys, see `PickAligned`) |
| ParameterSelection.Select | fitter/fit.py:119-134 | the outer loop's flat value vector and key list have equal length |
| ParameterSelection.PickParameters | fitter/fit.py:122-132 | the inner loop for one species appends exactly that species' picked values and keys to the running lists and returns its `current` |
| ParameterSelection.PickCurrent | fitter/fit.py:122-130 | one species' `current` holds exactly its non-ignored start properties, with their start values |
| ParameterSelection.PickAligned | fitter/fit.py:124-132 | one species appends one value per key, the key is `(species, p)` with `p` not ignored, and the value is the start value |
| ParameterSelection.PickOrdered | fitter/fit.py:124-130 | one species' picked properties keep the start table's order |
| ParameterSelection.PickKeysOrdered | fitter/fit.py:124-132 | one species' keys all name that species and follow its start-dictionary order |
| ParameterSelection.SelectAligned | fitter/fit.py:119-132 | values and keys have equal length, and `values[i]` is the start value of `keys[i]` |
| ParameterSelection.PickAlignedIn | fitter/fit.py:124-132 | the values and keys one considered species appends are aligned: each value is the start value of its non-ignored key |
| ParameterSelection.SelectComplete | fitter/fit.py:119-132 | a key is selected iff its species is considered and its property is in the start table and not in `ignore_keys` |
| ParameterSelection.SelectDistinct | fitter/fit.py:119-132 | the selected keys are pairwise distinct |
| ParameterSelection.SelectOrdered | fitter/fit.py:119-132 | keys come in ascending species order, and within a species in start-table order |
| ParameterSelection.SpeciesBelowLast | fitter/fit.py:112-132 | keys of the earlier species all name species below the one visited last |
| ParameterSelection.SelectPrunedShape | fitter/fit.py:116-134 | the pruned table lists the species in order, each with its own pruned dictionary |
| ParameterSelection.SelectPruned | fitter/fit.py:122-134 | each pruned dictionary holds exactly the non-ignored start properties, with their start values |
| ParameterSelection.SelectSpec | fitter/fit.py:109-134 | for the species of a fit, all of the properties above together |
| Losses.ReplaceNaN | fitter/fit.py:150-151 | in place, every NaN difference becomes 700 and every other entry is kept |
| Losses.Differences | fitter/fit.py:149 | one difference per molecule, NaN exactly when the reference or the computed energy is NaN |
| Losses.Clamped | fitter/fit.py:150-151 | the clamped differences have the same length, contain no NaN, and keep every numeric difference |
| Losses.Magnitudes | fitter/fit.py:153 | `np.abs` keeps the length and leaves an entry NaN exactly when it was NaN |
| Losses.Mean | fitter/fit.py:154 | `mean()` is a number iff the array is non-empty and NaN-free, and then it times the length is the sum |
| Losses.AbsLoss | fitter/fit.py:149-154 | the loss of `penalty` is NaN exactly on an empty batch |
| Losses.SignedLoss | fitter/fit.py:314-318 | the signed loss of the module-level `penalty` is NaN exactly on an empty batch |
| Losses.Total | fitter/fit.py:149-153 | the sum of the per-molecule absolute terms is non-negative |
| Losses.AbsSumOf | fitter/fit.py:149-154 | after the clamp no entry is NaN, and the sum of the magnitudes is the sum of the per-molecule terms |
| Losses.SignedSumOf | fitter/fit.py:314-318 | after the clamp no entry is NaN, and the sum is the sum of the signed per-molecule terms |
| Losses.AbsLossIsMeanOfTerms | fitter/fit.py:149-154 | the loss is NaN on an empty batch and otherwise the mean over molecules of `|ref - calc|`, with 700 for a NaN difference |
| Losses.SignedLossIsMeanOfTerms | fitter/fit.py:314-318 | the signed loss is NaN on an empty batch and otherwise the mean of `ref - calc`, with 700 for a NaN difference |
| Losses.AbsLossNonNegative | fitter/fit.py:149-154 | on a non-empty batch the loss is a number and is at least 0 |
| Losses.TotalAllFailed | fitter/fit.py:149-153 | when every difference is NaN, the total is 700 times the number of molecules |
| Losses.AbsLossAllFailed | fitter/fit.py:149-154 | when every molecule fails, the loss is exactly 700 |
| Losses.TotalAllMatch | fitter/fit.py:149-153 | when every computed energy equals its numeric reference, the total is 0 |
| Losses.AbsLossAllMatch | fitter/fit.py:149-154 | when every computed energy equals its numeric reference, the loss is 0 |
| Losses.AbsLossThreeMolecules | fitter/fit.py:149-154 | references -10, -20, -15 against -9.5, NaN, -15.2 give (0.5 + 700 + 0.2) / 3 |
| Losses.SignedTotalWithinTotal | fitter/fit.py:314-318 | the signed total is at most the absolute total in magnitude |
| Losses.SignedLossWithinAbsLoss | fitter/fit.py:314-318 | on a non-empty batch both losses are numbers, and the signed one never exceeds the absolute one in magnitude |
| Losses.SignedLossCancels | fitter/fit.py:318 | the signed loss lets errors of opposite sign cancel to 0 and can be negative, where the absolute loss cannot |
| FiniteDifference.PerturbedPoints | fitter/fit.py:174-180 | the forward and backward points differ from `params` only in dimension i, by `2 dh`, and `+dh` then `-2 dh` is the backward point |
| FiniteDifference.CentralDifference | fitter/fit.py:176-183 | a component is a number iff both penalties are, and then it times `2 dh` is forward minus backward |
| FiniteDifference.Gradient | fitter/fit.py:169-183 | one component per parameter, NaN exactly when the penalty at either perturbed point is NaN |
| FiniteDifference.AffineSlope | fitter/fit.py:176-183 | if the loss is affine in dimension i with slope m, the i-th component is exactly m |
| Fit.Objective.WriteParams | fitter/fit.py:139-140 | the shared table becomes the write-back of the vector into the old table |
| Fit.Objective.Penalty | fitter/fit.py:137-159 | the table becomes the write-back of `params`, and the error is the absolute loss of the oracle's energies for that table |
| Fit.Objective.SignedPenalty | fitter/fit.py:304-320 | as `Penalty`, but the error is the signed loss |
| Fit.Objective.Loss | fitter/fit.py:137-159 | `penalty` as a function of the vector from a fixed table: NaN for every vector exactly when the batch is empty |
| Fit.Objective.Jacobian | fitter/fit.py:161-192 | returns a fresh array whose i-th entry is the central difference of the loss in dimension i; the table ends up holding the last backward point, or is unchanged when `params` is empty |
| Fit.Objective.GradientNaN | fitter/fit.py:150-183 | with NaN differences clamped to 700, a gradient component is NaN exactly when the batch is empty |
| Fit.Objective.Component | fitter/fit.py:172-183 | one pass of the loop on a fresh copy: the component is the central difference of the loss in dimension i, and the table holds the backward point |
| Fit.Objective.Conclude | fitter/fit.py:207-215 | the end table is the write-back of the optimised vector into the table, and the error is the absolute loss there |
| Fit.Rewritten | fitter/fit.py:137-140 | a table that `penalty` has already written gives the same write-back for the next vector as the selected table does |
| Fit.FinalTable | fitter/fit.py:210-215 | writing the optimised vector into the pruned table keeps the species order and leaves exactly the selected keys, the i-th holding `x[i]` |
| Fit.Optimize | fitter/fit.py:194-215 | after the start penalty, the start gradient and the optimizer, the end table is the write-back of the optimised vector into the selected table and the error is the loss there |
| Fit.MinimizeParameters | fitter/fit.py:65-215 | raises `KeyError` iff some considered species has no start parameters, naming the first such species in ascending order; otherwise the end table lists the sorted species, holds exactly the selected keys with the optimiser's values, and the error is the loss there |
| Fit.ScriptPenalty | fitter/fit.py:288-320 | the script's `penalty(parameters)` is the signed loss of the oracle on the table filled by the five oxygen parameters |
| Fit.ScriptTableWritten | fitter/fit.py:288-307 | the script's write-back turns `{"O": {}}` into a table holding exactly the five oxygen keys with values -99, -77, 2, -32 and 3 |
| Fit.FilledFromEmpty | fitter/fit.py:296-307 | writing distinct keys of one species into its empty dictionary gives exactly those keys, each with its value, and keeps the species order |
| Pipelines.Groups | src/pipelines.py:23 | the grouped table is well formed and every species' dictionary is empty |
| Pipelines.GroupsSpecies | src/pipelines.py:23 | there is a group for a species iff some key has that species, including keys beyond the `zip` truncation |
| Pipelines.GroupsOneSpecies | src/pipelines.py:23 | keys of one species give exactly one group |
| Pipelines.GroupsHoldZipped | src/pipelines.py:23-26 | every zipped key's species has a group, so the fill loop never raises |
| Pipelines.GroupKeys | src/pipelines.py:23 | the comprehension builds the grouped table |
| Pipelines.Raw | src/pipelines.py:23-26 | filling keeps the groups' order and species |
| Pipelines.FillGroups | src/pipelines.py:25-26 | the fill loop writes every zipped pair and leaves `atom_type` at the species of the last zipped key |
| Pipelines.LastZipped | src/pipelines.py:25 | `atom_type` is bound iff both lists are non-empty |
| Pipelines.LastZippedGrouped | src/pipelines.py:23-25 | the leaked species is one of the groups |
| Pipelines.RescaleKeys | src/pipelines.py:31-33 | a successful inner loop keeps the outer order, the species set and well-formedness |
| Pipelines.RescaleInto | src/pipelines.py:31-33 | the inner loop over one species' keys computes `RescaleKeys` |
| Pipelines.RescaleAll | src/pipelines.py:28-33 | a successful outer loop keeps the outer order, the species set and well-formedness |
| Pipelines.RescaleGroups | src/pipelines.py:28-33 | the outer loop over the groups computes `RescaleAll` |
| Pipelines.SetParams | src/pipelines.py:15-37 | `set_params` builds the groups, fills them, and rescales as written |
| Pipelines.SetParamsSpec | src/pipelines.py:15-37 | on success, the table handed on is well formed and lists one dictionary per species of the keys, in first-occurrence order |
| Pipelines.RescaleKeysOutcome | src/pipelines.py:29-33 | the inner loop succeeds iff every key has a scale and a mean and either no key is visited or `atom_type` is bound; it raises `KeyError` for a missing key or, unbound, `UnboundLocalError` |
| Pipelines.RescaleKeysWrites | src/pipelines.py:31-33 | on success only the leaked species' dictionary changes: it gains exactly the visited keys, each set to the affine image of the snapshot, and its other entries are unchanged |
| Pipelines.RescaleAllOthers | src/pipelines.py:28-33 | on success every dictionary other than the leaked species' keeps its raw contents |
| Pipelines.RescaleAllNeeds | src/pipelines.py:29-32 | on success every visited species had a scale and a mean dictionary holding each of its raw keys |
| Pipelines.RescaleAllUnbound | src/pipelines.py:25-33 | with `atom_type` unbound and every group empty, the result is the unchanged table or a `KeyError` |
| Pipelines.RescaleAllBound | src/pipelines.py:28-33 | with `atom_type` bound, the only exception raised is `KeyError` |
| Pipelines.RawEntries | src/pipelines.py:23-26 | before the rescale, a species has a group iff some key names it; an entry exists iff it was zipped, and it holds the last value zipped with it; with distinct keys `params[s][p] == param_list[i]` |
| Pipelines.RawKeys | src/pipelines.py:23-26 | with distinct keys and one value per key, the entries before the rescale are exactly the keys, the i-th holding `param_list[i]` |
| Pipelines.RawHas | src/pipelines.py:23-26 | with one value per key, an entry exists before the rescale iff its key is in `param_keys` |
| Pipelines.SetParamsLeak | src/pipelines.py:25-33 | on success the order and species are kept, and every species other than the leaked `atom_type` keeps its raw, unrescaled dictionary |
| Pipelines.SetParamsNeeds | src/pipelines.py:29-32 | on success every key's species has a scale and a mean, and so has every raw entry |
| Pipelines.SetParamsNeverUnbound | src/pipelines.py:25-33 | every failure is a `KeyError`; the leaked variable is never read unbound |
| Pipelines.CollectedIndex | src/pipelines.py:47-57 | one result per block, in block order: the parser's dictionary unchanged, or exactly `{"energy": NaN}` when parsing fails |
| Pipelines.Collected | src/pipelines.py:47-57 | `calculate` returns one property dictionary per output block |
| Pipelines.CollectedLocal | src/pipelines.py:49-55 | the result at an index depends only on the block at that index |
| Pipelines.Calculate | src/pipelines.py:40-57 | the loop with its `try`/`except` builds the collected list |
| Codec.RescaleEach | src/pipelines.py:28-33 | the corrected rescale keeps the outer order, the species set and well-formedness |
| Codec.RescaleEachOutcome | src/pipelines.py:29-32 | the corrected rescale succeeds iff every species has a scale and a mean holding each of its keys |
| Codec.RescaleEachEntries | src/pipelines.py:28-33 | on success the keys are unchanged and each entry becomes `raw * scale + mean` of its own species and key |
| Codec.Encode | src/pipelines.py:15-33 | on success the corrected translation is well formed and lists one dictionary per species of the keys, in first-occurrence order |
| Codec.EncodeOutcome | src/pipelines.py:15-33 | the corrected `set_params` succeeds iff every key's species has a scale and a mean and every raw entry does too |
| Codec.EncodeSucceeds | src/pipelines.py:28-33 | with one value per key, the corrected translation succeeds whenever every key has a scale and a mean |
| Codec.EncodeValues | src/pipelines.py:23-33 | on success the table has the groups' order, the raw entries, each rescaled with its own scale and mean |
| Codec.EncodeKeys | src/pipelines.py:23-33 | with distinct keys and one value per key, the entries are exactly the keys, the i-th holding `param_list[i] * scale + mean` |
| Codec.Decode | src/pipelines.py:32 | the inverse rescale gives one value per key |
| Codec.Unscaled | src/pipelines.py:32 | `(v * s + m - m) / s == v` for a non-zero scale |
| Codec.DecodeEncode | src/pipelines.py:15-33 | with distinct keys and non-zero scales, decoding the corrected translation gives back the flat vector |
| Codec.SetParamsOneSpecies | src/pipelines.py:23-33 | when every key names one species, `set_params` as written equals the corrected translation |
| Codec.TwoSpeciesGroups | src/pipelines.py:23 | keys `[c, q], [h, q]` give two empty groups, ordered `c` then `h`, both present |
| Codec.TwoSpeciesFill | src/pipelines.py:25-26 | filling two empty groups `c` and `h` with `q: x` and `q: y` keeps the order and gives `c` exactly `q: x` and `h` exactly `q: y` |
| Codec.TwoSpeciesRaw | src/pipelines.py:23-26 | before the rescale, `c` holds `q: x` and `h` holds `q: y` |
| Codec.SingleKeyRescale | src/pipelines.py:31-33 | the inner loop over a one-key dictionary makes exactly one assignment, into the leaked species |
| Codec.SetParamsTwoSpecies | src/pipelines.py:25-33 | as written, with two species `c` then `h`: `c` keeps its raw `x`, `h` gets `x` rescaled twice, and `y` is lost |
| Codec.EncodeTwoSpecies | src/pipelines.py:28-33 | corrected, with the same input: `c` gets `x` rescaled with `c`'s scale and mean, `h` gets `y` with `h`'s |
| Codec.SetParamsIsNotEncode | src/pipelines.py:25-33 | carbon 1 and hydrogen 2, scale 10 and mean 0: as written, C is 1 and H is 100; corrected, C is 10 and H is 20 |

Single-expression definitions have no row of their own; their behaviour is stated by the
rows of the members that use them: `Pipelines.Affine` (`p[key] * s[key] + d[key]`,
src/pipelines.py:32; see `Pipelines.RescaleKeysWrites`), `Pipelines.Outcome` (the
`try`/`except` of src/pipelines.py:50-54; see `Pipelines.CollectedIndex`), `Losses.Minus` (the
subtraction of fitter/fit.py:149 and 182; see `Losses.Differences` and
`FiniteDifference.CentralDifference`), `Losses.Quotient` (the division of fitter/fit.py:183; see
`FiniteDifference.CentralDifference`), `Losses.SumOf` (the sum inside `mean()` at
fitter/fit.py:154; see `Losses.Mean` and `Losses.AbsLoss`) and `FiniteDifference.Shifted` (the
`+= dh` and `-= 2 * dh` of fitter/fit.py:176 and 179; see `FiniteDifference.PerturbedPoints`).

Reference definitions that the code is compared against have no row either: `Losses.Term`,
`Losses.SignedTerm` and `Losses.SignedTotal` (see `Losses.Total`, `Losses.AbsLossIsMeanOfTerms`
and `Losses.SignedLossIsMeanOfTerms`), the inverse rescale `Codec.Unaffine` (see `Codec.Decode`
and `Codec.Unscaled`), and `Codec.Uniform`, the scale and mean table of the two-species example.

Proof helpers that model no source line by themselves have no row:
`ParameterSelection.BeforeExtend`, `BeforeLast`, `AlignedAppend`, `KeysOrderedAppend`, `SortedLast`,
`PickNext`, `PrunedStep`, `PutNew` and `PrunedOf`; `Dicts.WriteAllNext` and `TableExtensionality`;
`Losses.ScaledBound`; `FiniteDifference.SlopeArithmetic`; `Pipelines.RescaleKeysStep` and
`RescaleAllStep`; `Codec.Overwrite`, `RescalableCons`, `RescalableSame` and `DistinctTail`; and `Fit.ScriptKeysDistinct`.

## Left out

- I/O: writing `_tmp_optimizer`, `mndo.get_inputs`, the `mndo` subprocess and the parameter
  file written by `mndo.set_params` are left out; they appear only as the oracle parameter.
  Parsing output blocks (`mndo.get_properties`) is the parser parameter.
- The oracle's failure modes, such as a missing `"energy"` key or a non-zero exit of the
  binary, are left out. The oracle is assumed to return one energy per reference molecule,
  so numpy broadcasting of mismatched lengths is not modelled.
- `scipy.optimize.minimize` with L-BFGS-B is an abstract function returning a vector of the
  same length. The penalty and gradient calls it makes in between are not modelled: by
  `Dicts.WriteBackAbsorbs` they cannot affect the end table, which is rewritten from the
  final vector.
- `calculate_parallel` and `worker` in src/pipelines.py are left out; they are process pools,
  scratch directories and file copies.
- `load_data`, `learning_curve`, the argparse setup and the rest of the top-level script are
  left out. The exception is the signed `penalty` and the script's table and vector, which are
  modelled.
- `mndo.calculate_file` is not part of this model. `Pipelines.Calculate` starts from the
  output blocks it yields.
- The HMC sampler (src/hmc_optim.py, fitter/hmc.py) is TensorFlow Probability code and is not
  part of this model.
- Floating point: arithmetic is exact over `real`, NaN is a separate value, and infinities
  and rounding are not modelled. In particular `p + dh - 2*dh` is taken to equal `p - dh`.
- The debug `print`s of `penalty` and `jacobian` are left out, and so is the norm they print.
- The default value of `ignore_keys` (fitter/fit.py:72-88) is not fixed in the model:
  `Fit.MinimizeParameters` takes the ignore list as a parameter, so every property holds for
  any list, the default included.
- The top-level script (fitter/fit.py:281-323) is modelled on its own (`Fit.ScriptPenalty`). As
  written it is unreachable: line 272 calls `learning_curve`, which calls `quit()` after the
  first fold (fitter/fit.py:239-240).
- Fit.Objective.Jacobian: `np.zeros_like(params)` takes the dtype of `params`, so an
  all-integer start vector would truncate the gradient. The model assumes real parameters.
- Pipelines.Calculate: the bare `except:` also catches interrupts; the model knows only parse
  success or failure. The model also assumes a NumPy in which `np.float` exists (older than
  1.24); on later versions the handler itself raises `AttributeError`, so `calculate` raises
  instead of substituting `{"energy": NaN}`.

## Findings

| source | as written | input that shows it | evidently intended | confidence | as-written member | corrected member |
|---|---|---|---|---|---|---|
| src/pipelines.py:33 | `params[atom_type][key] = val` writes every rescaled value into the dictionary of `atom_type`, the species of the last zipped key left over from line 25, not into that of the species being visited (`atomtype`) | keys `["C","USS"], ["H","USS"]`, values `1, 2`, every scale 10 and mean 0: the result is C `USS = 1` (never rescaled) and H `USS = 100` (carbon's value rescaled twice); hydrogen's own 2 is lost | `params[atomtype][key] = val`, giving C `USS = 10` and H `USS = 20`, each key rescaled once with its own scale and mean, and decodable back to the flat vector | high (not executed) | Codec.SetParamsIsNotEncode | Codec.DecodeEncode |
