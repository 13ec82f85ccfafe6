/** `combine_datasets`: partitioning a copy of a dictionary of datasets into
    groups that agree on a list of attributes, and reducing each group with a
    caller-supplied function, a failure of which spoils only its own group. */
module Combining {
  import opened Xr
  import opened Matching

  /** The caller's `combine_func` applied to one group; None when it raises. */
  type Combiner = seq<Dataset> -> Option<Dataset>

  /** `_key_from_attrs(ds, match_attrs, sep=".")`, which is not part of this model. */
  type KeyMaker = (Dataset, seq<string>) -> string

  /** One turn of the loop of lines 249-264: the seed entry, popped first, and
      the entries `match_datasets(..., pop=True)` pulled out with it. */
  datatype Group = Group(seed: Entry, members: seq<Entry>)

  /** What the reduction produces: the combined datasets by key, and the warnings. */
  datatype Combined = Combined(merged: map<string, Dataset>, log: seq<Warning>)

  /** The groups the loop of lines 249-253 forms, in the order it forms them. */
  function Groups(es: seq<Entry>, keys: seq<string>): (gs: seq<Group>)
    requires AllHave(es, keys)
    ensures |gs| <= |es|
    ensures es != [] ==> |gs| > 0 && gs[0].seed == es[0]
    ensures forall g | g in gs :: g.seed in es
    decreases |es|
  {
    if es == [] then []
    else
      var seed, rest := es[0], es[1..];
      assert forall e | e in rest :: e in es;
      SplitMembers(seed.ds, rest, keys);
      [Group(seed, Matches(seed.ds, rest, keys))] + Groups(Unmatched(seed.ds, rest, keys), keys)
  }

  /** The entries of the groups, each seed before its members. */
  function Flatten(gs: seq<Group>): seq<Entry>
  {
    if gs == [] then [] else [gs[0].seed] + gs[0].members + Flatten(gs[1..])
  }

  /** The list `combine_func` receives for a group: the seed's dataset, then the
      members' datasets with their `original_key` tags. */
  function GroupDatasets(g: Group): (r: seq<Dataset>)
    ensures |r| == |g.members| + 1 && r[0] == g.seed.ds
    ensures forall i :: 0 <= i < |g.members| ==> r[i + 1] == Tag(g.members[i])
  {
    [g.seed.ds] + Tagged(g.members)
  }

  /** Lines 256-264 for each group in turn, storing each result under the
      group's new key; a failure is warned about and the next group proceeds. */
  function Reduce(gs: seq<Group>, combine: Combiner, keys: seq<string>, keyOf: KeyMaker, acc: Combined): Combined
  {
    if gs == [] then acc
    else
      var g := gs[0];
      match combine(GroupDatasets(g))
      case Some(d) => Reduce(gs[1..], combine, keys, keyOf, acc.(merged := acc.merged[keyOf(g.seed.ds, keys) := d]))
      case None => Reduce(gs[1..], combine, keys, keyOf, acc.(log := acc.log + [CombineFailed(g.seed.ds)]))
  }

  /** Lines 256-264 exactly as written: line 262 stores into `ds_dict_merged`, a
      name bound nowhere, so a successful `combine_func` raises NameError there;
      the bare `except` catches it like a failure of `combine_func` itself, and
      every group ends in a warning. */
  function ReduceAsWritten(gs: seq<Group>, combine: Combiner, keys: seq<string>, keyOf: KeyMaker, acc: Combined): Combined
  {
    if gs == [] then acc
    else
      var g := gs[0];
      match combine(GroupDatasets(g))
      case Some(_) => ReduceAsWritten(gs[1..], combine, keys, keyOf, acc.(log := acc.log + [CombineFailed(g.seed.ds)]))
      case None => ReduceAsWritten(gs[1..], combine, keys, keyOf, acc.(log := acc.log + [CombineFailed(g.seed.ds)]))
  }

  /** `combine_datasets(ds_dict, combine_func, match_attrs=keys)`, storing into
      `ds_dict_combined` as evidently intended. */
  function CombineSpec(dsDict: seq<Entry>, combine: Combiner, keys: seq<string>, keyOf: KeyMaker): Combined
    requires AllHave(dsDict, keys)
  {
    Reduce(Groups(dsDict, keys), combine, keys, keyOf, Combined(map[], []))
  }

  /** `combine_datasets` as written. */
  function CombineAsWritten(dsDict: seq<Entry>, combine: Combiner, keys: seq<string>, keyOf: KeyMaker): Combined
    requires AllHave(dsDict, keys)
  {
    ReduceAsWritten(Groups(dsDict, keys), combine, keys, keyOf, Combined(map[], []))
  }

  /** The first turn of the loop: the group of the first entry, then the
      groups of the entries that do not agree with it. */
  lemma GroupsStep(es: seq<Entry>, keys: seq<string>)
    requires es != [] && AllHave(es, keys)
    ensures AllHave(es[1..], keys)
    ensures AllHave(Unmatched(es[0].ds, es[1..], keys), keys)
    ensures Groups(es, keys) ==
      [Group(es[0], Matches(es[0].ds, es[1..], keys))] + Groups(Unmatched(es[0].ds, es[1..], keys), keys)
  {
    assert forall e | e in es[1..] :: e in es;
    SplitMembers(es[0].ds, es[1..], keys);
  }

  /** Every entry of the dictionary lands in exactly one group: the groups'
      entries are the dictionary's, each as often as there. */
  lemma {:induction false} GroupsPartition(es: seq<Entry>, keys: seq<string>)
    requires AllHave(es, keys)
    ensures multiset(Flatten(Groups(es, keys))) == multiset(es)
    decreases |es|
  {
    if es != [] {
      var seed, rest := es[0], es[1..];
      GroupsStep(es, keys);
      var m, u := Matches(seed.ds, rest, keys), Unmatched(seed.ds, rest, keys);
      SplitCounts(seed.ds, rest, keys);
      GroupsPartition(u, keys);
      var gs := Groups(es, keys);
      assert gs[0] == Group(seed, m);
      assert gs[1..] == Groups(u, keys);
      MultisetFirst(es);
      calc {
        multiset(Flatten(gs));
        multiset([seed] + m + Flatten(gs[1..]));
        multiset{seed} + multiset(m) + multiset(Flatten(Groups(u, keys)));
        multiset{seed} + multiset(rest);
        multiset(es);
      }
    }
  }

  /** Every member of a group is an entry of the dictionary agreeing with the
      group's seed on all of `keys`. */
  lemma {:induction false} GroupsAgree(es: seq<Entry>, keys: seq<string>)
    requires AllHave(es, keys)
    ensures forall g | g in Groups(es, keys) ::
      forall m | m in g.members :: m in es && FullMatch(g.seed.ds, m.ds, keys)
    decreases |es|
  {
    if es != [] {
      var seed, rest := es[0], es[1..];
      GroupsStep(es, keys);
      SplitMembers(seed.ds, rest, keys);
      var u := Unmatched(seed.ds, rest, keys);
      GroupsAgree(u, keys);
      assert forall e | e in rest :: e in es;
    }
  }

  /** No seed of the groups agrees with an earlier seed on all of `keys`. */
  predicate SeedsApart(gs: seq<Group>, keys: seq<string>)
  {
    forall i, j :: 0 <= i < j < |gs| ==>
      HasAttrs(gs[i].seed.ds, keys) && HasAttrs(gs[j].seed.ds, keys) &&
      !FullMatch(gs[i].seed.ds, gs[j].seed.ds, keys)
  }

  lemma ConsApart(g: Group, tail: seq<Group>, keys: seq<string>)
    requires HasAttrs(g.seed.ds, keys) && SeedsApart(tail, keys)
    requires forall t | t in tail :: HasAttrs(t.seed.ds, keys) && !FullMatch(g.seed.ds, t.seed.ds, keys)
    ensures SeedsApart([g] + tail, keys)
  {
    var gs := [g] + tail;
    forall i, j | 0 <= i < j < |gs|
      ensures HasAttrs(gs[i].seed.ds, keys) && HasAttrs(gs[j].seed.ds, keys) && !FullMatch(gs[i].seed.ds, gs[j].seed.ds, keys)
    {
      assert gs[j] == tail[j - 1] && tail[j - 1] in tail;
      if i > 0 {
        assert gs[i] == tail[i - 1];
      }
    }
  }

  /** No seed agrees with an earlier seed on all of `keys`: no two groups
      could have been one. */
  lemma {:induction false} SeedsDisagree(es: seq<Entry>, keys: seq<string>)
    requires AllHave(es, keys)
    ensures SeedsApart(Groups(es, keys), keys)
    decreases |es|
  {
    if es != [] {
      var seed, rest := es[0], es[1..];
      GroupsStep(es, keys);
      SplitMembers(seed.ds, rest, keys);
      var u := Unmatched(seed.ds, rest, keys);
      SeedsDisagree(u, keys);
      var tail := Groups(u, keys);
      forall t | t in tail ensures HasAttrs(t.seed.ds, keys) && !FullMatch(seed.ds, t.seed.ds, keys) {
        assert t.seed in u;
      }
      ConsApart(Group(seed, Matches(seed.ds, rest, keys)), tail, keys);
    }
  }

  /** The keys stored are those already stored and the new key of every group
      whose `combine_func` succeeds, failures before it notwithstanding. */
  lemma {:induction false} ReduceKeys(gs: seq<Group>, combine: Combiner, keys: seq<string>, keyOf: KeyMaker, acc: Combined)
    ensures Reduce(gs, combine, keys, keyOf, acc).merged.Keys ==
      acc.merged.Keys + set g | g in gs && combine(GroupDatasets(g)).Some? :: keyOf(g.seed.ds, keys)
  {
    if gs != [] {
      var g := gs[0];
      var next := match combine(GroupDatasets(g))
        case Some(d) => acc.(merged := acc.merged[keyOf(g.seed.ds, keys) := d])
        case None => acc.(log := acc.log + [CombineFailed(g.seed.ds)]);
      ReduceKeys(gs[1..], combine, keys, keyOf, next);
      assert forall h | h in gs :: h == g || h in gs[1..];
    }
  }

  /** Every stored dataset is the result of `combine_func` on a group stored
      under that key, unless it was stored before. */
  lemma {:induction false} ReduceValues(gs: seq<Group>, combine: Combiner, keys: seq<string>, keyOf: KeyMaker, acc: Combined)
    ensures var r := Reduce(gs, combine, keys, keyOf, acc);
      forall k | k in r.merged ::
        (k in acc.merged && r.merged[k] == acc.merged[k]) ||
        exists g | g in gs :: keyOf(g.seed.ds, keys) == k && combine(GroupDatasets(g)) == Some(r.merged[k])
  {
    if gs != [] {
      var g := gs[0];
      var next := match combine(GroupDatasets(g))
        case Some(d) => acc.(merged := acc.merged[keyOf(g.seed.ds, keys) := d])
        case None => acc.(log := acc.log + [CombineFailed(g.seed.ds)]);
      ReduceValues(gs[1..], combine, keys, keyOf, next);
      assert forall h | h in gs[1..] :: h in gs;
    }
  }

  /** The warnings for the groups whose `combine_func` fails, in order: one per
      such group, naming its seed, and no other. */
  function Failures(gs: seq<Group>, combine: Combiner): (ws: seq<Warning>)
    ensures |ws| <= |gs|
    ensures forall g | g in gs && combine(GroupDatasets(g)).None? :: CombineFailed(g.seed.ds) in ws
    ensures forall w | w in ws :: exists g | g in gs :: combine(GroupDatasets(g)).None? && w == CombineFailed(g.seed.ds)
  {
    if gs == [] then []
    else
      assert forall h | h in gs :: h == gs[0] || h in gs[1..];
      (if combine(GroupDatasets(gs[0])).None? then [CombineFailed(gs[0].seed.ds)] else []) + Failures(gs[1..], combine)
  }

  /** The warnings are those issued before, then those of `Failures`. */
  lemma {:induction false} ReduceWarnings(gs: seq<Group>, combine: Combiner, keys: seq<string>, keyOf: KeyMaker, acc: Combined)
    ensures Reduce(gs, combine, keys, keyOf, acc).log == acc.log + Failures(gs, combine)
  {
    if gs != [] {
      var g := gs[0];
      var next := match combine(GroupDatasets(g))
        case Some(d) => acc.(merged := acc.merged[keyOf(g.seed.ds, keys) := d])
        case None => acc.(log := acc.log + [CombineFailed(g.seed.ds)]);
      ReduceWarnings(gs[1..], combine, keys, keyOf, next);
      if combine(GroupDatasets(g)).None? {
        assert acc.log + [CombineFailed(g.seed.ds)] + Failures(gs[1..], combine) ==
          acc.log + ([CombineFailed(g.seed.ds)] + Failures(gs[1..], combine));
      } else {
        assert Failures(gs, combine) == [] + Failures(gs[1..], combine);
      }
    }
  }

  /** As written, nothing is ever stored, and every group ends in a warning. */
  lemma {:induction false} AsWrittenStoresNothing(gs: seq<Group>, combine: Combiner, keys: seq<string>, keyOf: KeyMaker, acc: Combined)
    ensures var r := ReduceAsWritten(gs, combine, keys, keyOf, acc);
      r.merged == acc.merged && |r.log| == |acc.log| + |gs|
  {
    if gs != [] {
      AsWrittenStep(gs, combine, keys, keyOf, acc);
      AsWrittenStoresNothing(gs[1..], combine, keys, keyOf, acc.(log := acc.log + [CombineFailed(gs[0].seed.ds)]));
    }
  }

  lemma AsWrittenStep(gs: seq<Group>, combine: Combiner, keys: seq<string>, keyOf: KeyMaker, acc: Combined)
    requires gs != []
    ensures ReduceAsWritten(gs, combine, keys, keyOf, acc) ==
      ReduceAsWritten(gs[1..], combine, keys, keyOf, acc.(log := acc.log + [CombineFailed(gs[0].seed.ds)]))
  {
  }

  /** The discrepancy of line 262: for a non-empty dictionary whose first group
      `combine_func` reduces, the intended function returns a non-empty
      dictionary, while the function as written returns an empty one. */
  lemma AsWrittenLosesResults(dsDict: seq<Entry>, combine: Combiner, keys: seq<string>, keyOf: KeyMaker)
    requires AllHave(dsDict, keys) && dsDict != []
    requires combine(GroupDatasets(Groups(dsDict, keys)[0])).Some?
    ensures CombineAsWritten(dsDict, combine, keys, keyOf).merged == map[]
    ensures keyOf(dsDict[0].ds, keys) in CombineSpec(dsDict, combine, keys, keyOf).merged
  {
    var gs := Groups(dsDict, keys);
    AsWrittenStoresNothing(gs, combine, keys, keyOf, Combined(map[], []));
    ReduceKeys(gs, combine, keys, keyOf, Combined(map[], []));
    assert gs[0] in gs;
  }

  /** `combine_datasets` with line 262 storing into `ds_dict_combined`: the
      dictionary is copied (line 246) into a working registry that the loop
      empties, seed by seed. */
  method CombineDatasets(dsDict: seq<Entry>, combine: Combiner, keys: seq<string>, keyOf: KeyMaker)
    returns (merged: map<string, Dataset>, log: seq<Warning>)
    requires DistinctKeys(dsDict) && AllHave(dsDict, keys)
    ensures Combined(merged, log) == CombineSpec(dsDict, combine, keys, keyOf)
  {
    var work := new Registry(dsDict);
    merged, log := map[], [];
    while |work.entries| > 0
      invariant work.Valid() && AllHave(work.entries, keys)
      invariant Reduce(Groups(work.entries, keys), combine, keys, keyOf, Combined(merged, log)) ==
        CombineSpec(dsDict, combine, keys, keyOf)
      decreases |work.entries|
    {
      ghost var es := work.entries;
      assert es[0] in es;
      var seed := work.PopFirst();
      assert forall e | e in work.entries :: e in es;
      var matched := work.MatchDatasets(seed.ds, keys, true);
      SplitMembers(seed.ds, es[1..], keys);
      ghost var g := Group(seed, Matches(seed.ds, es[1..], keys));
      assert Groups(es, keys) == [g] + Groups(work.entries, keys);
      assert matched == GroupDatasets(g);
      var newKey := keyOf(seed.ds, keys);
      var out := combine(matched);
      if out.Some? {
        merged := merged[newKey := out.value];
      } else {
        log := log + [CombineFailed(seed.ds)];
      }
    }
  }
}
