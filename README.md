# cmip6_preprocessing post-processing, modelled in Dafny

This project models `cmip6_preprocessing/postprocessing.py` and proves facts about the model. That file is the matching engine of cmip6_preprocessing. It does four things:

- it scores two datasets on a list of attributes (`_match_attrs`, with the list `exact_attrs`);
- it finds the entries of a dictionary of datasets that agree with a dataset on all of those attributes (`match_datasets`). It tags each one with `original_key` and optionally pops it;
- it attaches a metric DataArray to a dataset as a coordinate after checking dimension lengths (`parse_metric`);
- it drives two loops over such dictionaries. `match_metrics` picks, for every dataset and requested variable, the best-matching metric and counts exact, non-exact and missing matches. `combine_datasets` splits a copy of a dictionary into groups of agreeing datasets and reduces each group with a function the caller supplies.

Modules:

- `Xr` (`xr.dfy`) holds the values.
  - A Dataset is modelled as its attributes, its dimension lengths and its variables.
  - A DataArray is modelled as its name, attributes, ordered dimensions and coordinate names.
  - A dictionary of datasets is a sequence of (key, dataset) entries in insertion order.
  - Exceptions and warnings are datatypes.
- `Matching` (`matching.dfy`) holds `exact_attrs`, `_match_attrs` and `match_datasets`.
  - The dictionary `match_datasets` changes in place is the class `Registry`.
  - Its method `MatchDatasets` is proved against the specification functions `MatchList`, `Unmatched` and `TagMatched`.
- `MetricParsing` (`parse_metric.dfy`) holds `parse_metric`. The method `ParseMetric` and its loop `MismatchedDims` are proved against `ParseMetricSpec` and `Mismatches`.
- `MetricMatching` (`match_metrics.dfy`) holds `match_metrics`.
  - Its two nested loops are the methods `MatchAll`, `MatchVariables` and `MatchVariable`.
  - These are proved against the folds `RunAll`, `RunVars` and `VarStep`.
  - The metric dictionary is a `Registry`, because the non-destructive lookups tag its entries.
- `Combining` (`combine.dfy`) holds `combine_datasets`.
  - The method `CombineDatasets` copies the dictionary into a fresh `Registry` and empties it seed by seed.
  - It is proved against `CombineSpec`, which reduces the partition `Groups`.

Functions that this repository does not define, or that run outside the interpreter, become parameters:

- `combine_func` is a `Combiner`. `None` means it raised.
- `_key_from_attrs` is a `KeyMaker`.
- The inner-join length that `xr.align` leaves on a dimension is a `JoinOracle`.

Some choices the source leaves open:

- **Ties in metric selection.** Lines 203-207 sort `(score, candidate)` pairs and take the last. On equal scores this compares the xarray objects themselves, which has no defined meaning. The model picks the *last* candidate of maximal score (`LastMax`), which is where a stable sort on the score alone leaves it. A leftmost rule would be just as arbitrary; the code's `[-1]` points at the right end, so that is the rule chosen here.
- **The target as its own candidate.** The candidate list of line 190 starts with the target dataset itself, because line 50 puts `ds` first. If the target carries the variable, it can be chosen. The read of `original_key` on line 222 then raises when the target lacks that attribute. The model keeps this behaviour (`SelfCandidateRaises`).
- **The line-262 defect.** The source stores combined groups under a name that is never defined (see Findings). The model of `combine_datasets` stores them in the dictionary it returns, as evidently intended. It also models the code as written, and proves the two differ.

## Model

| member | source | states |
|---|---|---|
| `Matching.MatchAttrs` | cmip6_preprocessing/postprocessing.py:21-23 | the score lies between 0 and the number of attributes, and reaches that number exactly when the datasets agree on every listed attribute |
| `Matching.DefaultsOmitOriginalKey` | cmip6_preprocessing/postprocessing.py:10-18 | neither `exact_attrs` nor the default `match_attrs` of line 133 lists `original_key`, and the latter is part of the former, so the facts stated for lists without `original_key` apply to both defaults |
| `Matching.FullMatchSymmetric` | cmip6_preprocessing/postprocessing.py:21-23 | full agreement does not depend on the order of the two datasets |
| `Matching.FullMatchTransitive` | cmip6_preprocessing/postprocessing.py:21-23 | two datasets that both fully agree with a third fully agree with each other |
| `Matching.MatchAttrsSymmetric` | cmip6_preprocessing/postprocessing.py:21-23 | the score does not depend on the order of the two datasets |
| `Matching.TagKeepsAttrs` | cmip6_preprocessing/postprocessing.py:59 | tagging a dataset with `original_key` keeps every other attribute and its value |
| `Matching.Tag` | cmip6_preprocessing/postprocessing.py:59 | the tagged dataset has the entry's attributes plus `original_key`, which holds the entry's key; every other attribute, the dimensions and the variables are those of the entry's dataset |
| `Matching.Matches` | cmip6_preprocessing/postprocessing.py:51-56 | the entries the loop finds agreeing with `ds`, in dictionary order; never more than the dictionary holds |
| `Matching.Unmatched` | cmip6_preprocessing/postprocessing.py:54-58 | the entries a destructive lookup leaves behind, in dictionary order; never more than the dictionary holds |
| `Matching.MatchList` | cmip6_preprocessing/postprocessing.py:50-61 | the returned list starts with `ds` and has at most one more element than the dictionary has entries |
| `Matching.SplitMembers` | cmip6_preprocessing/postprocessing.py:52-60 | an entry is returned as a match if and only if it is in the dictionary and agrees with `ds` on all attributes; an entry is left after popping if and only if it is in the dictionary and does not agree |
| `Matching.MatchListShape` | cmip6_preprocessing/postprocessing.py:50-61 | the returned list is `ds` followed by one tagged dataset per match; each later element is a dictionary entry's dataset agreeing with `ds`, with `original_key` set to that entry's key; every fully agreeing entry is among the matches |
| `Matching.MatchesAppend` | cmip6_preprocessing/postprocessing.py:51-60 | the matches keep dictionary order: the matches of a concatenation are those of the first part followed by those of the second |
| `Matching.SplitCounts` | cmip6_preprocessing/postprocessing.py:54-58 | every entry is on exactly one side of the split: the matched and the unmatched entries together are the dictionary's entries, counted with multiplicity |
| `Matching.UnmatchedDistinct` | cmip6_preprocessing/postprocessing.py:54-56 | popping matches leaves a dictionary without repeated keys |
| `Matching.TagMatchedDistinct` | cmip6_preprocessing/postprocessing.py:57-59 | a non-destructive lookup leaves a dictionary without repeated keys |
| `Matching.TagMatched` | cmip6_preprocessing/postprocessing.py:57-59 | a non-destructive lookup keeps the dictionary's keys and their order |
| `Matching.PopRemovesMatched` | cmip6_preprocessing/postprocessing.py:54-58 | with `pop`, the removed keys are exactly the matched keys, no remaining entry agrees with `ds`, and the dictionary shrinks by the length of the returned list minus one |
| `Matching.LookupTwice` | cmip6_preprocessing/postprocessing.py:54-59 | when `original_key` is not a matched attribute, a second non-destructive lookup returns the same list and leaves the dictionary as the first left it |
| `Matching.TagTwice` | cmip6_preprocessing/postprocessing.py:59 | tagging a dataset that already carries its own key changes nothing |
| `Matching.FoundStep` | cmip6_preprocessing/postprocessing.py:54-60 | one turn of the lookup loop appends the tagged entry to the returned list exactly when it agrees with `ds` |
| `Matching.KeptStep` | cmip6_preprocessing/postprocessing.py:54-59 | one turn of the lookup loop keeps an entry that does not agree, drops an agreeing one with `pop`, and tags it in place without |
| `Matching.Retag` | cmip6_preprocessing/postprocessing.py:54-59 | when `original_key` is not a matched attribute, tagging does not change whether an entry agrees, and a tagged entry is left as it is by a second lookup |
| `Matching.Registry.constructor` | cmip6_preprocessing/postprocessing.py:246 | the new dictionary holds exactly the given entries |
| `Matching.Registry.PopFirst` | cmip6_preprocessing/postprocessing.py:251-252 | removes and returns the first entry; the rest stay in order |
| `Matching.Registry.MatchDatasets` | cmip6_preprocessing/postprocessing.py:26-61 | returns `ds` followed by every agreeing entry's dataset tagged with its key, in dictionary order. With `pop` the dictionary becomes exactly the entries that do not agree; without it, every agreeing entry is tagged in place and nothing else changes. Keys stay distinct |
| `MetricParsing.Mismatches` | cmip6_preprocessing/postprocessing.py:98-101 | the reported names are no more than the metric's dimensions |
| `MetricParsing.MismatchesErrSticky` | cmip6_preprocessing/postprocessing.py:99-100 | once a dimension is missing, the later dimensions do not change the outcome |
| `MetricParsing.MismatchesFails` | cmip6_preprocessing/postprocessing.py:99-100 | the check raises exactly when some metric dimension is not a dimension of the dataset, and then names the first such dimension |
| `MetricParsing.MismatchesNames` | cmip6_preprocessing/postprocessing.py:98-101 | with every dimension present, a name is reported if and only if a metric dimension of that name differs in length from the dataset's |
| `MetricParsing.NoMismatch` | cmip6_preprocessing/postprocessing.py:98-103 | nothing is reported exactly when every dimension is present and agrees in length |
| `MetricParsing.AlignResolves` | cmip6_preprocessing/postprocessing.py:111-113 | after the inner-join alignment no dimension mismatches remain, and the dataset's attributes, dimension names and variable names and the metric's name are kept |
| `MetricParsing.Align` | cmip6_preprocessing/postprocessing.py:113 | the inner join changes only the lengths of the mismatched dimensions: the metric keeps its name, attributes, coordinates and dimension names in order, and the dataset keeps its attributes, dimension names and variable names |
| `MetricParsing.Strip` | cmip6_preprocessing/postprocessing.py:116 | dropping non-index coordinates leaves only coordinates named after dimensions, and keeps the name, attributes and dimensions |
| `MetricParsing.Label` | cmip6_preprocessing/postprocessing.py:119-121 | the stripped metric gains `parsed_with` holding the producer's name, and keeps its name, dimensions, coordinates and every other attribute |
| `MetricParsing.Attach` | cmip6_preprocessing/postprocessing.py:124 | the dataset gains the metric as a coordinate under the metric's name; its attributes, dimensions and all other variables stay as they were |
| `MetricParsing.ParseMetricSpec` | cmip6_preprocessing/postprocessing.py:64-126 | a successful parse keeps the dataset's attributes; it keeps its dimension lengths unless the policy is "align" |
| `MetricParsing.MismatchedDims` | cmip6_preprocessing/postprocessing.py:98-101 | the loop returns exactly the mismatch list of `Mismatches`, or its missing-dimension error |
| `MetricParsing.ParseMetric` | cmip6_preprocessing/postprocessing.py:64-126 | result and warnings are those of `ParseMetricSpec`; a value that is not a DataArray is refused with no warning |
| `MetricParsing.RefusesOtherValues` | cmip6_preprocessing/postprocessing.py:85-88 | a value that is not a DataArray raises before anything else happens, with no warning |
| `MetricParsing.WarnsUnnamed` | cmip6_preprocessing/postprocessing.py:90-94 | the first warning is the unnamed-metric warning if and only if the metric has no name |
| `MetricParsing.MissingDimensionRaises` | cmip6_preprocessing/postprocessing.py:99-100 | a metric dimension that the dataset lacks raises, whatever the policy |
| `MetricParsing.ErrorPolicy` | cmip6_preprocessing/postprocessing.py:103-110 | under "error", parsing succeeds if and only if every dimension is present and agrees; a length conflict raises and names exactly the conflicting dimensions |
| `MetricParsing.AttachesWhenDimsAgree` | cmip6_preprocessing/postprocessing.py:115-126 | when all dimensions agree, under any policy, the result is `ds` with one coordinate added under the metric's name, carrying the metric's dimensions and the `parsed_with` tag; other variables, dimensions and attributes are unchanged |
| `MetricParsing.AlignPolicy` | cmip6_preprocessing/postprocessing.py:103-126 | under "align" a length conflict is warned about and resolved: the attached coordinate has the metric's dimension names in order, all with the returned dataset's lengths, and is otherwise attached as usual |
| `MetricParsing.OtherPolicyProceeds` | cmip6_preprocessing/postprocessing.py:103-126 | under any other policy string a length conflict neither raises nor aligns: the metric is attached as it is, and only the unnamed-metric warning can be issued |
| `MetricMatching.Zeros` | cmip6_preprocessing/postprocessing.py:178-180 | the counters are keyed by exactly the listed variables |
| `MetricMatching.Bump` | cmip6_preprocessing/postprocessing.py:194 | incrementing a counter raises that variable's count by one and no other |
| `MetricMatching.Carrying` | cmip6_preprocessing/postprocessing.py:190 | the candidates are exactly the matched datasets that carry the variable |
| `MetricMatching.LastMax` | cmip6_preprocessing/postprocessing.py:203-207 | the chosen position has maximal score, and every later position scores strictly less |
| `MetricMatching.Chosen` | cmip6_preprocessing/postprocessing.py:203-207 | the chosen metric is one of the matched datasets and carries the variable |
| `MetricMatching.Selected` | cmip6_preprocessing/postprocessing.py:222-224 | the variable passed to `parse_metric` is named after the requested variable and carries the chosen dataset's `original_key`; its dimensions, coordinates and other attributes are the variable's own |
| `MetricMatching.VarStep` | cmip6_preprocessing/postprocessing.py:189-231 | handling one variable never changes the dataset's attributes |
| `MetricMatching.RunVars` | cmip6_preprocessing/postprocessing.py:189-231 | the inner loop never changes the dataset's attributes |
| `MetricMatching.DatasetStep` | cmip6_preprocessing/postprocessing.py:183-233 | handling one dataset keeps the metric dictionary's keys, in order |
| `MetricMatching.RunAll` | cmip6_preprocessing/postprocessing.py:183-233 | the outer loop keeps the metric dictionary's keys, in order |
| `MetricMatching.RunVarsSticky` | cmip6_preprocessing/postprocessing.py:222-227 | an exception ends the inner loop: the later variables change nothing |
| `MetricMatching.RunAllSticky` | cmip6_preprocessing/postprocessing.py:183-233 | an exception ends the outer loop: the later datasets change nothing |
| `MetricMatching.MatchVariable` | cmip6_preprocessing/postprocessing.py:189-231 | one variable's turn computes exactly `VarStep` |
| `MetricMatching.MatchVariables` | cmip6_preprocessing/postprocessing.py:189-232 | the inner loop computes exactly `RunVars` and stops at the first exception |
| `MetricMatching.MatchAll` | cmip6_preprocessing/postprocessing.py:177-233 | the outer loop returns the parsed dictionary, total, counters and warnings of `RunAll`, or its exception. It leaves the metric dictionary as `RunAll` says and keeps its keys distinct |
| `MetricMatching.MatchMetrics` | cmip6_preprocessing/postprocessing.py:129-238 | `match_metrics` computes exactly `MatchMetricsSpec`: the result and the metric dictionary it leaves behind |
| `MetricMatching.Resolve` | cmip6_preprocessing/postprocessing.py:174-175 | the attributes looked up on: the exact attributes when `match_attrs` is "exact", the given list otherwise |
| `MetricMatching.Aggregated` | cmip6_preprocessing/postprocessing.py:166-167 | some dataset of `ds_dict` has a `member_id` dimension |
| `MetricMatching.MatchMetricsSpec` | cmip6_preprocessing/postprocessing.py:129-238 | `match_metrics` as a value: the `member_id` error when `Aggregated` holds, otherwise the outer loop `RunAll` from empty counters over the resolved attribute list |
| `MetricMatching.AggregatedRaisesFirst` | cmip6_preprocessing/postprocessing.py:165-171 | a dataset with a `member_id` dimension raises before any lookup: nothing is parsed, counted or warned about, and the metric dictionary is unchanged |
| `MetricMatching.ExactSelectsExactAttrs` | cmip6_preprocessing/postprocessing.py:173-175 | `match_attrs="exact"` behaves exactly as passing the list `exact_attrs` |
| `MetricMatching.ChosenIsBest` | cmip6_preprocessing/postprocessing.py:199-207 | the chosen metric is a candidate carrying the variable, and no candidate has a higher exact-attribute score |
| `MetricMatching.NoCandidateCountsNoMatch` | cmip6_preprocessing/postprocessing.py:190-194 | with no candidate carrying the variable, the dataset is unchanged, `nomatch` for that variable goes up by one, no other counter changes, and the one warning issued is the no-match warning for that variable |
| `MetricMatching.TimeDependentRefused` | cmip6_preprocessing/postprocessing.py:213-219 | a chosen metric with a `time` dimension that is not an exact match is refused: nothing is attached, no counter changes, and the one warning issued is the time-dependence warning for that variable |
| `MetricMatching.AttachedCountsOnce` | cmip6_preprocessing/postprocessing.py:220-231 | an attached metric raises exactly one of `exact` and `nonexact`, the one the exact-match test picks; `nomatch` and every other variable's counts stay; the coordinate is named after the variable and carries the metric's `original_key` and the `parsed_with` tag |
| `MetricMatching.VarStepBound` | cmip6_preprocessing/postprocessing.py:189-231 | one variable's turn adds at most one to its own three counters and nothing to any other variable's |
| `MetricMatching.RunVarsBound` | cmip6_preprocessing/postprocessing.py:189-232 | the inner loop adds to a variable's counters at most the number of times it is listed |
| `MetricMatching.DatasetStepBound` | cmip6_preprocessing/postprocessing.py:184-233 | a dataset either changes neither total nor counters, or adds one to the total and to each variable's counters at most the number of times that variable is listed |
| `MetricMatching.RunAllBound` | cmip6_preprocessing/postprocessing.py:183-233 | over the outer loop a variable's counters grow by at most the datasets processed times the number of times the variable is listed |
| `MetricMatching.CountersBounded` | cmip6_preprocessing/postprocessing.py:177-233 | for every variable, exact + non-exact + no-match is at most `total_datasets` times the number of times the variable is listed |
| `MetricMatching.CountersBoundedByTotal` | cmip6_preprocessing/postprocessing.py:177-233 | with no variable listed twice, exact + non-exact + no-match is at most `total_datasets` for every listed variable, and zero for any other |
| `MetricMatching.DatasetStepParsed` | cmip6_preprocessing/postprocessing.py:184-233 | a dataset's turn that raises nothing adds one entry under its key with its attributes, and counts it |
| `MetricMatching.RunAllParsed` | cmip6_preprocessing/postprocessing.py:183-233 | without an exception, the outer loop adds one entry per dataset under its own key, in order, keeping its attributes, and counts each dataset once |
| `MetricMatching.ParsedKeepsKeys` | cmip6_preprocessing/postprocessing.py:182-238 | the returned dictionary has exactly the keys of `ds_dict`, in order and distinct, each dataset keeping its attributes, and `total_datasets` is the number of datasets |
| `MetricMatching.RunAllOnlyTags` | cmip6_preprocessing/postprocessing.py:186 | every lookup leaves each metric entry in place, either unchanged or tagged with its own key |
| `MetricMatching.RegistryOnlyTagged` | cmip6_preprocessing/postprocessing.py:186 | the metric dictionary keeps its keys and order, and its datasets are only ever tagged with their own keys |
| `MetricMatching.SoleSelfCandidate` | cmip6_preprocessing/postprocessing.py:190-224 | a dataset that is its own only candidate is chosen, is an exact match for itself, and raises on its missing `original_key` |
| `MetricMatching.SelfCandidateRaises` | cmip6_preprocessing/postprocessing.py:186-224 | a dataset that carries the variable, with an empty metric dictionary, is chosen as its own metric, and `match_metrics` raises on its missing `original_key` |
| `Combining.Groups` | cmip6_preprocessing/postprocessing.py:249-253 | there are no more groups than entries, the first group's seed is the first entry, and every seed is an entry |
| `Combining.GroupDatasets` | cmip6_preprocessing/postprocessing.py:253 | the list handed to `combine_func` is the seed's dataset followed by each member tagged with its key, in order |
| `Combining.Reduce` | cmip6_preprocessing/postprocessing.py:255-264 | the groups are reduced in order; a success is stored under the group's new key, a failure adds a warning naming the seed, and the next group proceeds either way |
| `Combining.ReduceAsWritten` | cmip6_preprocessing/postprocessing.py:255-264 | the same loop as the code stands: every group, succeeding or not, adds a failure warning and stores nothing |
| `Combining.CombineSpec` | cmip6_preprocessing/postprocessing.py:241-266 | `combine_datasets` as evidently intended: `Reduce` over `Groups`, starting from an empty result |
| `Combining.CombineAsWritten` | cmip6_preprocessing/postprocessing.py:241-266 | `combine_datasets` as written: `ReduceAsWritten` over `Groups`, starting from an empty result |
| `Combining.GroupsPartition` | cmip6_preprocessing/postprocessing.py:249-253 | every entry of the dictionary lands in exactly one group |
| `Combining.GroupsAgree` | cmip6_preprocessing/postprocessing.py:252-253 | every member of a group is an entry agreeing with the group's seed on all attributes |
| `Combining.GroupsStep` | cmip6_preprocessing/postprocessing.py:251-253 | the first group is the first entry with every later entry agreeing with it; the remaining groups are those of the entries that do not agree |
| `Combining.SeedsDisagree` | cmip6_preprocessing/postprocessing.py:249-253 | no seed agrees with an earlier seed on all attributes, so no two groups could have been one |
| `Combining.ReduceKeys` | cmip6_preprocessing/postprocessing.py:255-264 | the stored keys are exactly the new keys of the groups whose reduction succeeds, whatever failed before them |
| `Combining.ReduceValues` | cmip6_preprocessing/postprocessing.py:260-262 | every stored dataset is the reduction of a group with that key |
| `Combining.Failures` | cmip6_preprocessing/postprocessing.py:260-264 | the failure warnings name exactly the seeds of the groups whose reduction fails, one per such group at most |
| `Combining.ReduceWarnings` | cmip6_preprocessing/postprocessing.py:260-264 | the warnings are those issued before, followed by exactly the failure warnings of the groups in order; a failing group does not stop the later ones |
| `Combining.AsWrittenStep` | cmip6_preprocessing/postprocessing.py:260-264 | as written, each group ends in a warning whether or not its reduction succeeds |
| `Combining.AsWrittenStoresNothing` | cmip6_preprocessing/postprocessing.py:260-266 | as written, nothing is ever stored, and there is one warning per group |
| `Combining.AsWrittenLosesResults` | cmip6_preprocessing/postprocessing.py:262 | for a non-empty dictionary whose first group reduces, the code as written returns an empty dictionary while the intended function stores the first group's result |
| `Combining.CombineDatasets` | cmip6_preprocessing/postprocessing.py:241-266 | the loop, which empties a copy of the dictionary seed by seed, returns exactly the stored results and warnings of `CombineSpec` over the partition `Groups` |

## Left out

- `Matching.MatchAttrs`: an attribute missing from either dataset raises KeyError in the source. The model requires every listed attribute to be present (`HasAttrs`, `AllHave`), and so do all members built on it. The KeyError path is not modelled.
- `MetricMatching.MatchMetrics`: this also requires the metric and dataset dictionaries to carry the exact attributes when `match_attrs` is a list. The source reads them only on the paths that score candidates.
- `Matching.Registry.MatchDatasets`: the source pops matched keys one by one during the loop. The model rebuilds the dictionary once the loop ends. The final state and the returned list are the same.
- Aliasing of xarray objects is not modelled.
  - Line 222 writes `original_key` into the metric variable's attributes, and through shared objects into the metric dictionary and `ds_dict`. Lines 119-121 write `parsed_with` into the attributes of `metric.reset_coords(drop=True)`, which likely shares its attributes with that same metric variable. The model puts both tags only on the copy it attaches, so `RegistryOnlyTagged` and `RunAllOnlyTags` describe the model's entries, not the shared xarray objects.
  - The `original_key` tags written by `combine_datasets` also reach the caller's datasets through the shallow copy of line 246. The model writes them only into the working copy.
- Default arguments are not modelled: every model member takes all arguments explicitly. The defaults are `pop=True` (line 26), `dim_length_conflict="error"` (lines 64 and 136), `match_attrs=["source_id", "grid_label"]` (line 133) and `exact_attrs` (lines 135 and 242). Both default lists are the constants `DefaultMatchAttrs` and `ExactAttrs`, and `DefaultsOmitOriginalKey` states what the lookups need of them.
- `xr.align(join="inner")` is a parameter giving the joined length of each mismatched dimension. Index labels, values and the dropped positions are not modelled.
- `assign_coords` has its own size checks under policies other than "error" and "align". These are not modelled: the metric is attached as it is.
- `metric[di]` and `ds[di]` are modelled as dimension lookups. A non-dimension coordinate of that name is not.
- Array values, dtypes, chunking and lazy evaluation are not modelled.
- `cmip6_dataset_id` and `_key_from_attrs` come from `cmip6_preprocessing/utils.py`, which is not part of this model.
  - `_key_from_attrs` is the `KeyMaker` parameter.
  - A warning carries the seed dataset instead of its id string.
- `combine_func` and `combine_func_kwargs` are one `Combiner` parameter. Which exceptions it raises is reduced to `None`.
- Warning message texts are not modelled. The `print_statistics` output of lines 234-237 is not modelled either; the counters it prints are returned instead.
- `inspect.currentframe()` on line 121 is replaced by the constant `Producer`.
- The tie-break among equally scored candidates follows the stable-sort reading (the last of maximal score). The source's comparison of xarray objects on equal scores is not modelled.
- `MetricMatching.CountersBounded`: when a variable is listed twice in `match_variables`, its counters are bounded by `total_datasets` times its multiplicity. The plain bound by `total_datasets` (`CountersBoundedByTotal`) holds when no variable is repeated.

## Findings

| source | as written | input that shows it | evidently intended | confidence | as-written member | corrected member |
|---|---|---|---|---|---|---|
| cmip6_preprocessing/postprocessing.py:262 | a successful `combine_func` result is stored into `ds_dict_merged`, a name bound nowhere; the NameError is caught by the bare `except` of line 263, a failure warning is issued, and the function always returns an empty dictionary | a dictionary with one dataset and a `combine_func` that returns a dataset | store the result in `ds_dict_combined`, the dictionary that line 266 returns | not executed | `Combining.AsWrittenLosesResults` | `Combining.CombineDatasets` |
