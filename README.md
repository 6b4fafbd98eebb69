# mypy utilities: nearest indices, runs, slices, key subselection and array melting

This project models the array and dictionary helpers of `mypy/utils.py` and proves properties of them.

- `find_index` and `find_range` look up, in a sorted numeric vector, the index nearest to a value. `find_range` turns a pair `(lo, hi)`, or several such pairs, into slices. The model follows numpy's `argmin`: the first position with the smallest distance wins.
- `extend_slice` widens a slice by some amount in both directions, clamped to `[minval, maxval]`.
- `group` (in its default, non-`diff` mode) finds the maximal runs of true elements in a boolean vector. It returns them as `[start, end]` pairs or as half-open slices.
- `subselect_keys` keeps the entries of a string-keyed mapping whose separator-delimited parts include every part of every requested key.
- `_check_dict` normalises one dimension's group specification into a map from position to label, in any of its four input forms.
- `array2df` melts an N-dimensional array into a long table with one row per element. Each row holds the element's value and one label per dimension. The array is modelled as its flat row-major contents plus its shape. The pandas DataFrame is modelled as a list of column names and a sequence of rows.

Python exceptions are values of `Errors.Error`, returned through `Wrappers.Result`. `LookupError` stands for the `IndexError` and `KeyError` that `array2df` raises on a missing dimension, name or label.

Modules:
- `Wrappers`: `Option` and `Result`.
- `Errors`: the exception kinds.
- `Slices`: slices and `extend_slice`.
- `Nearest`: `find_index` and `find_range`.
- `Runs`: `group`.
- `KeySelect`: `subselect_keys`.
- `GroupSpecs`: `_check_dict`.
- `RowMajor`: row-major addresses and the order of `itertools.product`.
- `Melt`: `array2df`.

## Model

| member | source | states |
|---|---|---|
| Nearest.ArgMin | mypy/utils.py:62 | `np.abs(vec - x).argmin()` on a non-empty vector returns the first position whose value is nearest to `x` |
| Nearest.FirstNearestUnique | mypy/utils.py:62 | the first nearest position is unique, so argmin has exactly one admissible answer |
| Nearest.ArgMinMonotone | mypy/utils.py:65-95 | in a sorted vector, `lo <= hi` gives nearest indices `start <= stop`, so each range becomes a non-empty slice |
| Nearest.FindIndex | mypy/utils.py:59-62 | a scalar is wrapped into a list; there is one first-nearest index per value; `ValueError` exactly when the vector is empty and there is something to look up |
| Nearest.FindRange | mypy/utils.py:82-95 | empty `ranges` raise `AssertionError`; a flat list of another length than 2 raises `TypeError`; an empty vector or an inner range of another length than 2 raises `ValueError`; otherwise each range becomes `slice(nearest(lo), nearest(hi) + 1)`; one flat pair gives a single slice, a list of ranges gives a list |
| Slices.ExtendSlice | mypy/utils.py:116-127 | the step is kept; for a slice inside the bounds and `val >= 0`, the result contains the original slice and stays inside `[minval, maxval]` |
| Slices.ExtendSliceEndpoints | mypy/utils.py:116-127 | an endpoint already on its bound stays; otherwise `start` moves down by `val` (clamped at `minval`) and `stop` moves up (clamped at `maxval`) |
| Slices.ExtendSliceWidens | mypy/utils.py:116-127 | for a slice inside the bounds and `val >= 0`, the result is the slice widened by `val` on both sides and clamped to the bounds |
| Slices.ExtendSliceCompose | mypy/utils.py:116-127 | extending by `a` and then by `b` equals extending once by `a + b` |
| Slices.ExtendSliceByZero | mypy/utils.py:116-127 | extending by 0 is the identity exactly when the slice lies inside the bounds; otherwise its endpoints are clamped |
| Runs.CloseRun | mypy/utils.py:149-151 | closing a run keeps every earlier true position covered and covers the run |
| Runs.FindRuns | mypy/utils.py:139-155 | the loop over `vec + [False]` returns every maximal run of true elements as an inclusive `[start, end]` pair, left to right, with non-adjacent runs |
| Runs.ToSlices | mypy/utils.py:160-164 | each pair `[start, end]` becomes `slice(start, end + 1)` |
| Runs.Group | mypy/utils.py:135-166 | returns slices exactly when `return_slice` is set; either form describes exactly the maximal runs of `vec` |
| Runs.RunListOrdered | mypy/utils.py:148-155 | the runs found are strictly increasing and pairwise separated, not only neighbouring ones |
| Runs.RunListCoversOnce | mypy/utils.py:148-155 | every true position lies in exactly one run |
| KeySelect.Split | mypy/utils.py:194 | `str.split` returns at least one part and no part contains the separator |
| KeySelect.JoinSplit | mypy/utils.py:194 | joining the parts of a split gives back the string |
| KeySelect.SplitAfterPart | mypy/utils.py:194 | a separator-free part followed by the separator is the first part of the split |
| KeySelect.SplitJoin | mypy/utils.py:194 | splitting a join of separator-free parts gives back the parts |
| KeySelect.SubselectKeysAsWritten | mypy/utils.py:183-204 | `subselect_keys` as written (splitting on `'/'`, the deletion loop read as a filter): `ValueError` exactly when no key contains `sep`; any result is a sub-mapping of the input with the same values |
| KeySelect.AsWrittenFiltersOnSlash | mypy/utils.py:188-196 | as written, once some key holds `sep` and some requested key is missing, the result is the entries covering the request when split on `'/'` |
| KeySelect.AsWrittenNeverRaisesNoMatch | mypy/utils.py:198-201 | as written, the "no event matches all criteria" `KeyError` is never raised |
| KeySelect.AsWrittenReturnsEmpty | mypy/utils.py:189-201 | as written, requesting `"x"` from `{"a/b": 1}` returns an empty mapping although no key matches, once the deletion loop filters as intended (Python 3 raises `RuntimeError` on the deletion instead) |
| KeySelect.AsWrittenIgnoresSeparator | mypy/utils.py:188-196 | as written, with `sep='.'`, key `"a.b"` is dropped for request `"a"`, while filtering on `sep` would keep it; the loop is read as a filter (Python 3 raises `RuntimeError` on the deletion instead) |
| KeySelect.SubselectKeys | mypy/utils.py:183-204 | `ValueError` exactly when no key contains `sep`; the mapping unchanged when every requested key is present; otherwise the entries whose parts cover every requested key's parts, with their values, and `KeyError` exactly when no entry is left |
| GroupSpecs.Spread | mypy/utils.py:370-384 | the new dict maps exactly the listed positions |
| GroupSpecs.SpreadLastListing | mypy/utils.py:372-383 | a position listed several times keeps the label of its last listing |
| GroupSpecs.SpreadTwo | mypy/utils.py:372-383 | spreading two entries assigns the first, then the second over it |
| GroupSpecs.IndexedSize | mypy/utils.py:389-390 | a sequence of `n` labels has exactly `n` positions |
| GroupSpecs.SpreadEntries | mypy/utils.py:370-384 | the nested loops build exactly the spread dict and the set of listed positions |
| GroupSpecs.CheckDict | mypy/utils.py:363-391 | `_check_dict` returns the normalised specification or raises `AssertionError`, as `Normalized` defines |
| GroupSpecs.NormalizedDict | mypy/utils.py:369-384 | a dict form passes exactly when `dim_len` distinct positions are listed; the result maps exactly the listed positions, each to the label of its last listing; failure is `AssertionError` |
| GroupSpecs.ListedContains | mypy/utils.py:375 | every position that any entry lists is in the set of positions seen |
| GroupSpecs.NormalizedByLabel | mypy/utils.py:369-376 | the label-keyed form passes exactly when `dim_len` distinct positions are listed, and maps each listed position to a label that lists it |
| GroupSpecs.NormalizedPassThrough | mypy/utils.py:385-390 | another non-empty dict is returned unchanged; a sequence of labels passes exactly when its length is `dim_len` and is looked up by position |
| GroupSpecs.SpreadDescribes | mypy/utils.py:370-384 | entries that describe a position -> label map spread back into that map |
| GroupSpecs.EncodingsAgree | mypy/utils.py:363-391 | the label-keyed, tuple-keyed, position-keyed and list forms of one assignment all normalise to that assignment |
| RowMajor.Address | mypy/utils.py:348 | the row-major address of a flat index lies inside the shape |
| RowMajor.Flatten | mypy/utils.py:348 | the flat index of an in-bounds address is below `arr.size` |
| RowMajor.FlattenAddress | mypy/utils.py:348 | flattening the address of an index gives back the index |
| RowMajor.AddressFlatten | mypy/utils.py:348 | addressing the flat index of an address gives back the address |
| RowMajor.AddressTwoDim | mypy/utils.py:304-321 | in a `rows x cols` array, flat index `idx` sits at row `idx / cols`, column `idx % cols` |
| RowMajor.BlocksLength | mypy/utils.py:347 | the nested enumeration has `n` times as many entries as there are tails |
| RowMajor.BlocksAt | mypy/utils.py:347 | with `t` tails, entry `k` of the nested enumeration is block `k / t` followed by tail `k % t` |
| RowMajor.ProductLength | mypy/utils.py:347 | `itertools.product(*map(range, shape))` yields `arr.size` addresses |
| RowMajor.ProductIsRowMajor | mypy/utils.py:347 | the `idx`-th address of the product is the row-major address of `idx`, so the rows come in flat order |
| Melt.DecimalString | mypy/utils.py:332 | `str(i)` is a non-empty string of decimal digits |
| Melt.ParseDecimalString | mypy/utils.py:332 | `int(str(i)) == i` |
| Melt.NormalizeLoop | mypy/utils.py:334-340 | running `_check_dict` on each dimension's specification gives the normalised groups, or the first error (an `IndexError` for a dimension the array lacks) |
| Melt.NormalizeListFrom | mypy/utils.py:338-340 | with the first `k` specifications of a list already normalised, the rest succeeds exactly when every specification names a dimension of the array and passes `_check_dict`; the groups are then each dimension's `_check_dict` result; otherwise the error is that of the first failing specification |
| Melt.NormalizeList | mypy/utils.py:334-340 | the list form of `groups` is normalised exactly when it has at most as many entries as the array has dimensions and each passes `_check_dict`; dimension `d` then maps as `_check_dict(groups[d], shape[d])`; otherwise the first failing entry's error (`AssertionError`, or `IndexError` for a missing dimension) is raised and no table is built |
| Melt.DictOutcome | mypy/utils.py:335-337 | dict entries normalise exactly when every entry names a dimension of the array and passes `_check_dict`; otherwise the error is that of the first failing entry |
| Melt.DictKeys | mypy/utils.py:335-337 | on success, a dimension is present exactly when it was present before or some entry names it |
| Melt.DictKeepsUnnamed | mypy/utils.py:335-337 | on success, a dimension present before that no entry names keeps its value |
| Melt.DictLastWins | mypy/utils.py:335-337 | on success, the dimension of an entry that no later entry names holds that entry's `_check_dict` result |
| Melt.NormalizeDictFrom | mypy/utils.py:335-337 | normalising (dimension, specification) entries on top of earlier groups succeeds exactly when every entry names a dimension of the array and passes `_check_dict`; the dimensions are then the earlier ones plus the entries' keys, each key holding the `_check_dict` result of the last entry naming it, other earlier dimensions unchanged; otherwise the error is that of the first failing entry |
| Melt.NormalizeDict | mypy/utils.py:334-337 | the dict form of `groups` is normalised exactly when every key is a dimension of the array and every specification passes `_check_dict`; the dimensions are then exactly the keys, each mapping as `_check_dict(groups[dim], shape[dim])`; otherwise the first failing entry's error (`AssertionError`, or `IndexError` for a key past the last dimension) is raised |
| Melt.EquivalentListsAgree | mypy/utils.py:334-340 | two lists whose specifications normalise alike, dimension by dimension, give the same groups, so equivalent encodings melt to the same table |
| Melt.MeltedUnique | mypy/utils.py:343-351 | the melted table is determined by the array, the names and the groups: two tables that both melt them are equal |
| Melt.ProdPositive | mypy/utils.py:347 | an array with at least one element has no empty dimension |
| Melt.PositionLabelled | mypy/utils.py:347-351 | each position of each dimension is a coordinate of some address, so it is looked up |
| Melt.LookupsCoverAll | mypy/utils.py:347-351 | when every address of a non-empty array finds its labels, every position of every dimension has a label |
| Melt.ColumnNames | mypy/utils.py:343 | the value name followed by each dimension's name; fails exactly when a dimension has no name |
| Melt.RowLabels | mypy/utils.py:350-351 | the label of each coordinate of an address; fails exactly when one is missing |
| Melt.MeltRows | mypy/utils.py:347-351 | one row per element in row-major order, holding the element's value and its coordinates' labels; fails exactly when the array is non-empty and some position of some dimension has no label |
| Melt.Array2Df | mypy/utils.py:269-351 | with `dim_names` and `groups` defaulting to none and `value_name` to `"value"`: a normalisation error is raised as is; otherwise success exactly when every dimension has a name and (for a non-empty array) every position a label; every later failure is a lookup error; on success the table is the melt of the array |
| Melt.DefaultGroupsAndNames | mypy/utils.py:327-333 | default labels are the dimension's letter followed by `str(i)`, and they fail only for a non-empty dimension beyond the eighth; default names are `dim_` plus the letter, for at most eight dimensions |
| Melt.DefaultLabelsDistinct | mypy/utils.py:332-333 | distinct positions get distinct default labels |
| GroupSpecs.CheckedTwo | mypy/utils.py:369-384 | two entries listing disjoint positions, `n` in all, pass the check with `n` and label each position once |
| Melt.ExampleLabelKeyed | mypy/utils.py:306 | `{'A': [0, 2], 'B': [1, 3]}` on a dimension of length 4 labels positions 0 to 3 as A, B, A, B |
| Melt.ExampleTupleKeyed | mypy/utils.py:307 | `{(0, 2): 'abc', (1,): 'd'}` on a dimension of length 3 labels positions 0 to 2 as abc, d, abc |
| Melt.NormalizeTwo | mypy/utils.py:338-340 | a list of two specifications that both pass normalises to dimension 0 and dimension 1 in order |

## Left out

- The other helpers of `mypy/utils.py` are not modelled: `silent_mne`, `silent`, `whos`, `get_info`, `mne_types`, `get_chan_pos` and the `AtribDict` class. They do I/O, inspect interpreter frames or call into MNE. `mypy/init.py` is not part of this model.
- `group` with `diff=True` is not modelled (numpy `diff` over arbitrary numbers).
- `Nearest.FindIndex`, `Nearest.FindRange`: vectors and values are unbounded integers. Floating-point distances, NaN and ties under rounding are not modelled. Neither is fixed-width numpy arithmetic: with integer dtypes `vec - x` wraps on overflow and `np.abs` of the most negative integer stays negative, so the source can then pick another index than the nearest one.
- `Melt.Array2Df`: pandas itself is not modelled. That covers the DataFrame index and column dtype inference (`infer_objects`/`convert_objects`), and how pandas handles duplicate column names.
- `Melt.Array2Df`: `dim_names` is modelled as a map from dimension to name. A list such as `['first', 'second']` is the same map with positions as keys.
- `Melt.NormalizeDict`: dimension keys are natural numbers. Python's `shape[dim]` also accepts a negative key such as `-1`, counting from the last dimension; the model does not express that.
- `Melt.Array2Df`: a tuple or other non-list, non-dict `groups` argument, which the source leaves unnormalised, is not modelled.
- `Melt.Array2Df`: the array holds integer values; other element types are not modelled.
- `Melt.Array2Df`: every missing label or name is reported as one `LookupError`. Which row or column the source hits first is not modelled.
- `GroupSpecs.CheckDict`: positions outside `[0, dim_len)` and labels of other types than strings are accepted without complaint, as the code does. Only the number of distinct positions is checked.
- `GroupSpecs.CheckDict`: a dict whose keys mix strings, tuples and other values is modelled as the pass-through form `ByPosition`, which is what the code does with it. Non-integer positions are not modelled.
- The docstring of `array2df` lists row 4 of its second example as `(4, "B", "d")`. The model agrees, by `Melt.ExampleLabelKeyed`, `Melt.ExampleTupleKeyed`, `Melt.NormalizeTwo` and `RowMajor.AddressTwoDim` (flat index 4 is address (1, 1)). A single lemma for the whole melted 4 x 3 example is not included.
- `Slices.ExtendSlice`: `None` endpoints and float bounds are not modelled. The model's slice endpoints are integers.
- `KeySelect.SubselectKeys`: the separator is one character. Python 3 raises `RuntimeError` when a dict is deleted from while it is being iterated; that is not modelled, and the mapping is filtered as the loop evidently intends. The deep copy is implicit because maps are values.
- `Runs.Group`: elements are booleans; numpy truthiness of other element types is not modelled.

## Findings

| source | as written | input that shows it | evidently intended | confidence | as-written member | corrected member |
|---|---|---|---|---|---|---|
| mypy/utils.py:198 | `if len(key) == 0` tests the list of requested keys, which is never empty on this path, so the `KeyError` is never raised | `subselect_keys("x", {"a/b": 1})` returns `{}` once the deletion loop filters as intended; Python 3 raises `RuntimeError` on the deletion | raise `KeyError` when no entry of the mapping is left | not executed | KeySelect.SubselectKeysAsWritten, KeySelect.AsWrittenReturnsEmpty | KeySelect.SubselectKeys |
| mypy/utils.py:194 | keys and requests are split on `'/'` whatever `sep` is | `subselect_keys("a", {"a.b": 1}, sep='.')` returns `{}` once the deletion loop filters as intended; Python 3 raises `RuntimeError` on the deletion | split on `sep` and keep `"a.b"` | not executed | KeySelect.SubselectKeysAsWritten, KeySelect.AsWrittenIgnoresSeparator | KeySelect.SubselectKeys |
