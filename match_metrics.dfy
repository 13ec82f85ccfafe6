/** `match_metrics`: for every dataset of a dictionary and every requested
    variable, choosing the best-matching metric of a second dictionary and
    attaching it with `parse_metric`, while counting exact, non-exact and
    missing matches. */
module MetricMatching {
  import opened Xr
  import opened Matching
  import opened MetricParsing

  /** The `match_attrs` argument: the string "exact", or a list of attributes. */
  datatype AttrSelection = ExactSelection | Listed(keys: seq<string>)

  /** Lines 174-175: "exact" stands for the `exact_attrs` argument. */
  function Resolve(sel: AttrSelection, exact: seq<string>): seq<string>
  {
    if sel.ExactSelection? then exact else sel.keys
  }

  /** The counters `exact_datasets`, `nonexact_datasets` and `nomatch_datasets`
      (lines 178-180), keyed by variable. */
  datatype Counts = Counts(exact: map<string, nat>, nonexact: map<string, nat>, nomatch: map<string, nat>)

  /** `{va: 0 for va in match_variables}`. */
  function Zeros(vars: seq<string>): (z: map<string, nat>)
    ensures z.Keys == set v | v in vars
  {
    map v | v in vars :: 0
  }

  function InitCounts(vars: seq<string>): Counts
  {
    Counts(Zeros(vars), Zeros(vars), Zeros(vars))
  }

  /** The value of a counter; one that was never set reads 0. */
  function Get(m: map<string, nat>, v: string): nat
  {
    if v in m then m[v] else 0
  }

  /** `counter[v] += 1`. */
  function Bump(m: map<string, nat>, v: string): (r: map<string, nat>)
    ensures Get(r, v) == Get(m, v) + 1
    ensures forall u :: u != v ==> Get(r, u) == Get(m, u)
    ensures r.Keys == m.Keys + {v}
  {
    m[v := Get(m, v) + 1]
  }

  /** The three counters of one variable together. */
  function Sum(c: Counts, v: string): nat
  {
    Get(c.exact, v) + Get(c.nonexact, v) + Get(c.nomatch, v)
  }

  /** Every dataset of the list carries every attribute of `keys`. */
  predicate AllCarry(ds: seq<Dataset>, keys: seq<string>)
  {
    forall d | d in ds :: HasAttrs(d, keys)
  }

  /** `[ds for ds in matched_metrics if mv in ds.variables]` (line 190). */
  function Carrying(ds: seq<Dataset>, mv: string): (r: seq<Dataset>)
    ensures |r| <= |ds|
    ensures forall d :: d in r <==> d in ds && Some(mv) in d.variables
  {
    if ds == [] then []
    else
      var last := ds[|ds| - 1];
      assert ds == ds[..|ds| - 1] + [last];
      Carrying(ds[..|ds| - 1], mv) + (if Some(mv) in last.variables then [last] else [])
  }

  /** `nmatch` (lines 199-202): each candidate's exact-attribute score against `ds`. */
  function Scores(ds: Dataset, cands: seq<Dataset>, exact: seq<string>): seq<nat>
    requires HasAttrs(ds, exact) && AllCarry(cands, exact)
  {
    seq(|cands|, j requires 0 <= j < |cands| => MatchAttrs(ds, cands[j], exact))
  }

  /** The position lines 203-207 take: one of maximal score, and of those with
      that score the last, where a stable sort leaves it. */
  function LastMax(s: seq<nat>): (b: nat)
    requires |s| > 0
    ensures b < |s|
    ensures forall j :: 0 <= j < |s| ==> s[j] <= s[b]
    ensures forall j :: b < j < |s| ==> s[j] < s[b]
  {
    if |s| == 1 then 0
    else
      var b := LastMax(s[..|s| - 1]);
      if s[|s| - 1] >= s[b] then |s| - 1 else b
  }

  /** `ds_metric` (line 207): the chosen candidate carrying `mv`. */
  function Chosen(ds: Dataset, matched: seq<Dataset>, mv: string, exact: seq<string>): (m: Dataset)
    requires HasAttrs(ds, exact) && AllCarry(matched, exact) && Carrying(matched, mv) != []
    ensures m in matched && Some(mv) in m.variables && HasAttrs(m, exact)
  {
    var cands := Carrying(matched, mv);
    cands[LastMax(Scores(ds, cands, exact))]
  }

  /** `ds_metric[mv]` as `parse_metric` receives it after line 222: the
      variable, named `mv`, carrying the `original_key` of `ds_metric`. */
  function Selected(m: Dataset, mv: string): (a: DataArray)
    requires Some(mv) in m.variables && OriginalKey in m.attrs
    ensures a.name == Some(mv) && OriginalKey in a.attrs && a.attrs[OriginalKey] == m.attrs[OriginalKey]
    ensures a.dims == m.variables[Some(mv)].dims && a.coords == m.variables[Some(mv)].coords
    ensures forall k | k in m.variables[Some(mv)].attrs && k != OriginalKey ::
      k in a.attrs && a.attrs[k] == m.variables[Some(mv)].attrs[k]
  {
    var a := m.variables[Some(mv)];
    a.(name := Some(mv), attrs := a.attrs[OriginalKey := m.attrs[OriginalKey]])
  }

  /** The state of the inner loop: the dataset as parsed so far, the counters,
      the warnings, and the exception that ended the call, if any. */
  datatype Progress = Progress(ds: Dataset, counts: Counts, log: seq<Warning>, failure: Option<Error>)

  /** One turn of the inner loop (lines 189-231), for the variable `mv`. */
  function VarStep(p: Progress, matched: seq<Dataset>, mv: string, exact: seq<string>,
                   policy: string, joined: JoinOracle): (q: Progress)
    requires HasAttrs(p.ds, exact) && AllCarry(matched, exact)
    ensures q.ds.attrs == p.ds.attrs
  {
    if p.failure.Some? then p
    else if Carrying(matched, mv) == [] then
      p.(counts := p.counts.(nomatch := Bump(p.counts.nomatch, mv)), log := p.log + [NoMatchingMetric(mv)])
    else
      var m := Chosen(p.ds, matched, mv, exact);
      var isExact := MatchAttrs(p.ds, m, exact) == |exact|;
      if "time" in m.dims && !isExact then
        p.(log := p.log + [TimeDependentInexact(mv)])
      else if OriginalKey !in m.attrs then
        p.(failure := Some(MissingOriginalKey))
      else
        var parsed := ParseMetricSpec(p.ds, ArrayInput(Selected(m, mv)), policy, joined);
        match parsed.result
        case Err(e) => p.(log := p.log + parsed.log, failure := Some(e))
        case Ok(ds2) =>
          var counts := if isExact then p.counts.(exact := Bump(p.counts.exact, mv))
                        else p.counts.(nonexact := Bump(p.counts.nonexact, mv));
          Progress(ds2, counts, p.log + parsed.log, None)
  }

  /** The inner loop over `match_variables`, up to some point. */
  function RunVars(p: Progress, matched: seq<Dataset>, vars: seq<string>, exact: seq<string>,
                   policy: string, joined: JoinOracle): (q: Progress)
    requires HasAttrs(p.ds, exact) && AllCarry(matched, exact)
    ensures q.ds.attrs == p.ds.attrs
  {
    if vars == [] then p
    else VarStep(RunVars(p, matched, vars[..|vars| - 1], exact, policy, joined), matched, vars[|vars| - 1], exact, policy, joined)
  }

  /** The state of the outer loop: `ds_dict_parsed`, `total_datasets`, the
      counters, the warnings, the metric dictionary as the lookups left it, and
      the exception that ended the call, if any. */
  datatype Run = Run(parsed: seq<Entry>, total: nat, counts: Counts, log: seq<Warning>,
                     registry: seq<Entry>, failure: Option<Error>)

  /** One turn of the outer loop (lines 183-233), for the entry `e` of `ds_dict`. */
  function DatasetStep(r: Run, e: Entry, vars: seq<string>, keys: seq<string>, exact: seq<string>,
                       policy: string, joined: JoinOracle): (s: Run)
    requires HasAttrs(e.ds, keys) && HasAttrs(e.ds, exact)
    requires AllHave(r.registry, keys) && AllHave(r.registry, exact)
    ensures AllHave(s.registry, keys) && AllHave(s.registry, exact)
    ensures Keys(s.registry) == Keys(r.registry)
  {
    if r.failure.Some? then r
    else
      MatchListHas(e.ds, r.registry, keys, exact);
      TagMatchedHas(e.ds, r.registry, keys, exact);
      var matched := MatchList(e.ds, r.registry, keys);
      var p := RunVars(Progress(e.ds, r.counts, r.log, None), matched, vars, exact, policy, joined);
      Run(r.parsed + [Entry(e.key, p.ds)], r.total + 1, p.counts, p.log,
          TagMatched(e.ds, r.registry, keys), p.failure)
  }

  /** The outer loop over `ds_dict`, up to some point. */
  function RunAll(init: Run, es: seq<Entry>, vars: seq<string>, keys: seq<string>, exact: seq<string>,
                  policy: string, joined: JoinOracle): (s: Run)
    requires AllHave(es, keys) && AllHave(es, exact)
    requires AllHave(init.registry, keys) && AllHave(init.registry, exact)
    ensures AllHave(s.registry, keys) && AllHave(s.registry, exact)
    ensures Keys(s.registry) == Keys(init.registry)
  {
    if es == [] then init
    else
      var last := es[|es| - 1];
      assert es == es[..|es| - 1] + [last];
      DatasetStep(RunAll(init, es[..|es| - 1], vars, keys, exact, policy, joined), last, vars, keys, exact, policy, joined)
  }

  /** Some dataset was aggregated over members by intake-esm (line 167). */
  predicate Aggregated(es: seq<Entry>)
  {
    exists e | e in es :: "member_id" in e.ds.dims
  }

  /** `match_metrics(ds_dict, metric_dict, match_variables, match_attrs=sel,
      exact_attrs=exact, dim_length_conflict=policy)`. */
  function MatchMetricsSpec(dsDict: seq<Entry>, registry: seq<Entry>, vars: seq<string>, sel: AttrSelection,
                            exact: seq<string>, policy: string, joined: JoinOracle): Run
    requires AllHave(dsDict, Resolve(sel, exact)) && AllHave(dsDict, exact)
    requires AllHave(registry, Resolve(sel, exact)) && AllHave(registry, exact)
  {
    if Aggregated(dsDict) then Run([], 0, InitCounts(vars), [], registry, Some(AggregatedMembers))
    else RunAll(Run([], 0, InitCounts(vars), [], registry, None), dsDict, vars, Resolve(sel, exact), exact, policy, joined)
  }

  /** The outer loop's turn for the next entry. */
  lemma OuterStep(init: Run, es: seq<Entry>, n: nat, vars: seq<string>, keys: seq<string>, exact: seq<string>,
                  policy: string, joined: JoinOracle)
    requires n < |es| && AllHave(es, keys) && AllHave(es, exact)
    requires AllHave(init.registry, keys) && AllHave(init.registry, exact)
    ensures AllHave(es[..n], keys) && AllHave(es[..n], exact) && AllHave(es[..n + 1], keys) && AllHave(es[..n + 1], exact)
    ensures RunAll(init, es[..n + 1], vars, keys, exact, policy, joined) ==
      DatasetStep(RunAll(init, es[..n], vars, keys, exact, policy, joined), es[n], vars, keys, exact, policy, joined)
  {
    assert es[..n + 1][..n] == es[..n];
    assert es[n] in es;
  }

  /** The inner loop's turn for the next variable. */
  lemma InnerStep(p: Progress, matched: seq<Dataset>, vars: seq<string>, j: nat, exact: seq<string>,
                  policy: string, joined: JoinOracle)
    requires j < |vars| && HasAttrs(p.ds, exact) && AllCarry(matched, exact)
    ensures RunVars(p, matched, vars[..j + 1], exact, policy, joined) ==
      VarStep(RunVars(p, matched, vars[..j], exact, policy, joined), matched, vars[j], exact, policy, joined)
  {
    assert vars[..j + 1][..j] == vars[..j];
  }

  /** An exception ends the inner loop: the later variables are not looked at. */
  lemma {:induction false} RunVarsSticky(p: Progress, matched: seq<Dataset>, vars: seq<string>, j: nat,
                                         exact: seq<string>, policy: string, joined: JoinOracle)
    requires j <= |vars| && HasAttrs(p.ds, exact) && AllCarry(matched, exact)
    requires RunVars(p, matched, vars[..j], exact, policy, joined).failure.Some?
    ensures RunVars(p, matched, vars, exact, policy, joined) == RunVars(p, matched, vars[..j], exact, policy, joined)
    decreases |vars| - j
  {
    if j < |vars| {
      InnerStep(p, matched, vars, j, exact, policy, joined);
      RunVarsSticky(p, matched, vars, j + 1, exact, policy, joined);
    } else {
      assert vars[..j] == vars;
    }
  }

  /** An exception ends the outer loop: the later datasets are not looked at. */
  lemma {:induction false} RunAllSticky(init: Run, es: seq<Entry>, n: nat, vars: seq<string>, keys: seq<string>,
                                        exact: seq<string>, policy: string, joined: JoinOracle)
    requires n <= |es| && AllHave(es, keys) && AllHave(es, exact)
    requires AllHave(init.registry, keys) && AllHave(init.registry, exact)
    requires AllHave(es[..n], keys) && AllHave(es[..n], exact)
    requires RunAll(init, es[..n], vars, keys, exact, policy, joined).failure.Some?
    ensures RunAll(init, es, vars, keys, exact, policy, joined) == RunAll(init, es[..n], vars, keys, exact, policy, joined)
    decreases |es| - n
  {
    if n < |es| {
      OuterStep(init, es, n, vars, keys, exact, policy, joined);
      RunAllSticky(init, es, n + 1, vars, keys, exact, policy, joined);
    } else {
      assert es[..n] == es;
    }
  }

  /** One turn of the inner loop (lines 189-231): the variable `mv` looked up
      among the candidates and, unless refused, attached to `ds`. */
  method MatchVariable(ds: Dataset, matched: seq<Dataset>, mv: string, exact: seq<string>,
                       policy: string, joined: JoinOracle, counts: Counts, log: seq<Warning>)
    returns (p: Progress)
    requires HasAttrs(ds, exact) && AllCarry(matched, exact)
    ensures p == VarStep(Progress(ds, counts, log, None), matched, mv, exact, policy, joined)
  {
    p := Progress(ds, counts, log, None);
    if Carrying(matched, mv) == [] {
      p := p.(counts := counts.(nomatch := Bump(counts.nomatch, mv)), log := log + [NoMatchingMetric(mv)]);
      return;
    }
    var m := Chosen(ds, matched, mv, exact);
    var isExact := MatchAttrs(ds, m, exact) == |exact|;
    if "time" in m.dims && !isExact {
      p := p.(log := log + [TimeDependentInexact(mv)]);
      return;
    }
    if OriginalKey !in m.attrs {
      p := p.(failure := Some(MissingOriginalKey));
      return;
    }
    var out, w := ParseMetric(ds, ArrayInput(Selected(m, mv)), policy, joined);
    if out.Err? {
      p := p.(log := log + w, failure := Some(out.error));
      return;
    }
    if isExact {
      p := Progress(out.value, counts.(exact := Bump(counts.exact, mv)), log + w, None);
    } else {
      p := Progress(out.value, counts.(nonexact := Bump(counts.nonexact, mv)), log + w, None);
    }
  }

  /** The inner loop (lines 189-231) over `match_variables`; an exception ends it. */
  method MatchVariables(ds: Dataset, matched: seq<Dataset>, vars: seq<string>, exact: seq<string>,
                        policy: string, joined: JoinOracle, counts: Counts, log: seq<Warning>)
    returns (p: Progress)
    requires HasAttrs(ds, exact) && AllCarry(matched, exact)
    ensures p == RunVars(Progress(ds, counts, log, None), matched, vars, exact, policy, joined)
  {
    ghost var p0 := Progress(ds, counts, log, None);
    p := Progress(ds, counts, log, None);
    var j := 0;
    while j < |vars|
      invariant 0 <= j <= |vars| && p.failure.None? && p.ds.attrs == ds.attrs
      invariant p == RunVars(p0, matched, vars[..j], exact, policy, joined)
    {
      InnerStep(p0, matched, vars, j, exact, policy, joined);
      p := MatchVariable(p.ds, matched, vars[j], exact, policy, joined, p.counts, p.log);
      if p.failure.Some? {
        RunVarsSticky(p0, matched, vars, j + 1, exact, policy, joined);
        return;
      }
      j := j + 1;
    }
    assert vars[..j] == vars;
  }

  /** The outer loop's turn, written out for an entry the loop reaches. */
  lemma DatasetStepRuns(r: Run, e: Entry, vars: seq<string>, keys: seq<string>, exact: seq<string>,
                        policy: string, joined: JoinOracle, matched: seq<Dataset>, p: Progress)
    requires HasAttrs(e.ds, keys) && HasAttrs(e.ds, exact)
    requires AllHave(r.registry, keys) && AllHave(r.registry, exact) && r.failure.None?
    requires matched == MatchList(e.ds, r.registry, keys) && AllCarry(matched, exact)
    requires p == RunVars(Progress(e.ds, r.counts, r.log, None), matched, vars, exact, policy, joined)
    ensures DatasetStep(r, e, vars, keys, exact, policy, joined) ==
      Run(r.parsed + [Entry(e.key, p.ds)], r.total + 1, p.counts, p.log, TagMatched(e.ds, r.registry, keys), p.failure)
  {
  }

  /** The outer loop (lines 183-233) over `ds_dict`, looking up the metrics of
      each dataset in `metrics` with `match_datasets(..., pop=False)`; an
      exception ends it. */
  method MatchAll(dsDict: seq<Entry>, metrics: Registry, vars: seq<string>, keys: seq<string>,
                  exact: seq<string>, policy: string, joined: JoinOracle)
    returns (r: Result<seq<Entry>>, total: nat, counts: Counts, log: seq<Warning>)
    requires metrics.Valid()
    requires AllHave(dsDict, keys) && AllHave(dsDict, exact)
    requires AllHave(metrics.entries, keys) && AllHave(metrics.entries, exact)
    modifies metrics
    ensures metrics.Valid()
    ensures var s := RunAll(Run([], 0, InitCounts(vars), [], old(metrics.entries), None), dsDict, vars, keys, exact, policy, joined);
      && metrics.entries == s.registry
      && log == s.log
      && (if s.failure.Some? then r == Err(s.failure.value)
          else r == Ok(s.parsed) && total == s.total && counts == s.counts)
  {
    total, counts, log := 0, InitCounts(vars), [];
    ghost var init := Run([], 0, InitCounts(vars), [], metrics.entries, None);
    var parsed: seq<Entry> := [];
    var n := 0;
    assert dsDict[..0] == [];
    assert RunAll(init, dsDict[..0], vars, keys, exact, policy, joined) == init;
    while n < |dsDict|
      invariant 0 <= n <= |dsDict|
      invariant metrics.Valid() && AllHave(metrics.entries, keys) && AllHave(metrics.entries, exact)
      invariant AllHave(dsDict[..n], keys) && AllHave(dsDict[..n], exact)
      invariant RunAll(init, dsDict[..n], vars, keys, exact, policy, joined) == Run(parsed, total, counts, log, metrics.entries, None)
    {
      var e := dsDict[n];
      OuterStep(init, dsDict, n, vars, keys, exact, policy, joined);
      ghost var before := Run(parsed, total, counts, log, metrics.entries, None);
      MatchListHas(e.ds, metrics.entries, keys, exact);
      total := total + 1;
      var matched := metrics.MatchDatasets(e.ds, keys, false);
      var p := MatchVariables(e.ds, matched, vars, exact, policy, joined, counts, log);
      DatasetStepRuns(before, e, vars, keys, exact, policy, joined, matched, p);
      parsed, counts, log := parsed + [Entry(e.key, p.ds)], p.counts, p.log;
      assert RunAll(init, dsDict[..n + 1], vars, keys, exact, policy, joined) ==
        Run(parsed, total, counts, log, metrics.entries, p.failure);
      if p.failure.Some? {
        RunAllSticky(init, dsDict, n + 1, vars, keys, exact, policy, joined);
        return Err(p.failure.value), total, counts, log;
      }
      n := n + 1;
    }
    assert dsDict[..n] == dsDict;
    r := Ok(parsed);
  }

  /** `match_metrics` itself: its result, and the metric dictionary it leaves
      behind, are those of `MatchMetricsSpec`. */
  method MatchMetrics(dsDict: seq<Entry>, metrics: Registry, vars: seq<string>, sel: AttrSelection,
                      exact: seq<string>, policy: string, joined: JoinOracle)
    returns (r: Result<seq<Entry>>, total: nat, counts: Counts, log: seq<Warning>)
    requires metrics.Valid() && DistinctKeys(dsDict)
    requires AllHave(dsDict, Resolve(sel, exact)) && AllHave(dsDict, exact)
    requires AllHave(metrics.entries, Resolve(sel, exact)) && AllHave(metrics.entries, exact)
    modifies metrics
    ensures metrics.Valid()
    ensures var s := MatchMetricsSpec(dsDict, old(metrics.entries), vars, sel, exact, policy, joined);
      && metrics.entries == s.registry
      && log == s.log
      && (if s.failure.Some? then r == Err(s.failure.value)
          else r == Ok(s.parsed) && total == s.total && counts == s.counts)
  {
    if Aggregated(dsDict) {
      return Err(AggregatedMembers), 0, InitCounts(vars), [];
    }
    r, total, counts, log := MatchAll(dsDict, metrics, vars, Resolve(sel, exact), exact, policy, joined);
  }

  // Properties of match_metrics

  /** A dataset with a `member_id` dimension raises before any lookup: no
      dataset is parsed, nothing is counted or warned about, and the metric
      dictionary is as it was. */
  lemma AggregatedRaisesFirst(dsDict: seq<Entry>, registry: seq<Entry>, vars: seq<string>, sel: AttrSelection,
                              exact: seq<string>, policy: string, joined: JoinOracle)
    requires AllHave(dsDict, Resolve(sel, exact)) && AllHave(dsDict, exact)
    requires AllHave(registry, Resolve(sel, exact)) && AllHave(registry, exact)
    requires exists e | e in dsDict :: "member_id" in e.ds.dims
    ensures var s := MatchMetricsSpec(dsDict, registry, vars, sel, exact, policy, joined);
      s.failure == Some(AggregatedMembers) && s.registry == registry && s.parsed == [] && s.log == [] &&
      s.total == 0 && forall v :: Sum(s.counts, v) == 0
  {
  }

  /** `match_attrs="exact"` behaves as the list `exact_attrs`. */
  lemma ExactSelectsExactAttrs(dsDict: seq<Entry>, registry: seq<Entry>, vars: seq<string>,
                               exact: seq<string>, policy: string, joined: JoinOracle)
    requires AllHave(dsDict, exact) && AllHave(registry, exact)
    ensures MatchMetricsSpec(dsDict, registry, vars, ExactSelection, exact, policy, joined) ==
      MatchMetricsSpec(dsDict, registry, vars, Listed(exact), exact, policy, joined)
  {
  }

  /** The chosen metric is a candidate carrying `mv` whose score no other
      candidate exceeds, and no later candidate equals. */
  lemma ChosenIsBest(ds: Dataset, matched: seq<Dataset>, mv: string, exact: seq<string>)
    requires HasAttrs(ds, exact) && AllCarry(matched, exact) && Carrying(matched, mv) != []
    ensures Chosen(ds, matched, mv, exact) in Carrying(matched, mv)
    ensures forall c | c in Carrying(matched, mv) ::
      HasAttrs(c, exact) && MatchAttrs(ds, c, exact) <= MatchAttrs(ds, Chosen(ds, matched, mv, exact), exact)
  {
    var cands := Carrying(matched, mv);
    var sc := Scores(ds, cands, exact);
    var b := LastMax(sc);
    forall c | c in cands ensures HasAttrs(c, exact) && MatchAttrs(ds, c, exact) <= MatchAttrs(ds, cands[b], exact) {
      var j :| 0 <= j < |cands| && cands[j] == c;
      assert sc[j] <= sc[b];
    }
  }

  /** No candidate carries `mv`: `ds` is left as it is, `nomatch[mv]` goes up by
      one, and no other counter changes. */
  lemma NoCandidateCountsNoMatch(p: Progress, matched: seq<Dataset>, mv: string, exact: seq<string>,
                                 policy: string, joined: JoinOracle)
    requires HasAttrs(p.ds, exact) && AllCarry(matched, exact)
    requires p.failure.None? && forall d | d in matched :: Some(mv) !in d.variables
    ensures var q := VarStep(p, matched, mv, exact, policy, joined);
      && q.failure.None? && q.ds == p.ds
      && q.counts.exact == p.counts.exact && q.counts.nonexact == p.counts.nonexact
      && Get(q.counts.nomatch, mv) == Get(p.counts.nomatch, mv) + 1
      && (forall u :: u != mv ==> Get(q.counts.nomatch, u) == Get(p.counts.nomatch, u))
      && q.log == p.log + [NoMatchingMetric(mv)]
  {
  }

  /** A time-dependent metric that is not an exact match is refused: nothing is
      attached and no counter changes. */
  lemma TimeDependentRefused(p: Progress, matched: seq<Dataset>, mv: string, exact: seq<string>,
                             policy: string, joined: JoinOracle)
    requires HasAttrs(p.ds, exact) && AllCarry(matched, exact) && p.failure.None? && Carrying(matched, mv) != []
    requires "time" in Chosen(p.ds, matched, mv, exact).dims
    requires MatchAttrs(p.ds, Chosen(p.ds, matched, mv, exact), exact) < |exact|
    ensures var q := VarStep(p, matched, mv, exact, policy, joined);
      q.failure.None? && q.ds == p.ds && q.counts == p.counts && q.log == p.log + [TimeDependentInexact(mv)]
  {
  }

  /** A metric that is attached counts once: `exact[mv]` when it agrees with
      `ds` on every exact attribute, `nonexact[mv]` otherwise, and `nomatch`
      stays. The attached coordinate is named `mv` and carries both the
      `original_key` of the dataset it came from and the `parsed_with` tag. */
  lemma AttachedCountsOnce(p: Progress, matched: seq<Dataset>, mv: string, exact: seq<string>,
                           policy: string, joined: JoinOracle)
    requires HasAttrs(p.ds, exact) && AllCarry(matched, exact) && p.failure.None? && Carrying(matched, mv) != []
    requires VarStep(p, matched, mv, exact, policy, joined).failure.None?
    requires "time" !in Chosen(p.ds, matched, mv, exact).dims ||
             MatchAttrs(p.ds, Chosen(p.ds, matched, mv, exact), exact) == |exact|
    ensures var q := VarStep(p, matched, mv, exact, policy, joined);
      var m := Chosen(p.ds, matched, mv, exact);
      && OriginalKey in m.attrs
      && q.counts.nomatch == p.counts.nomatch
      && (if MatchAttrs(p.ds, m, exact) == |exact|
          then Get(q.counts.exact, mv) == Get(p.counts.exact, mv) + 1 && q.counts.nonexact == p.counts.nonexact
          else Get(q.counts.nonexact, mv) == Get(p.counts.nonexact, mv) + 1 && q.counts.exact == p.counts.exact)
      && (forall u :: u != mv ==> Sum(q.counts, u) == Sum(p.counts, u))
      && Some(mv) in q.ds.variables
      && q.ds.variables[Some(mv)].attrs[OriginalKey] == m.attrs[OriginalKey]
      && q.ds.variables[Some(mv)].attrs[ParsedWith] == Producer
  {
    var m := Chosen(p.ds, matched, mv, exact);
    var parsed := ParseMetricSpec(p.ds, ArrayInput(Selected(m, mv)), policy, joined);
    var d := Selected(m, mv);
    NoMismatch(p.ds, d.dims);
    MismatchesFails(p.ds, d.dims);
    if policy == "align" && Present(p.ds, d.dims) && !Agree(p.ds, d.dims) {
      AlignPolicy(p.ds, d, joined);
    } else if Present(p.ds, d.dims) && Agree(p.ds, d.dims) {
      AttachesWhenDimsAgree(p.ds, d, policy, joined);
    } else if Present(p.ds, d.dims) && policy != "error" {
      OtherPolicyProceeds(p.ds, d, policy, joined);
    } else if Present(p.ds, d.dims) {
      ErrorPolicy(p.ds, d, joined);
    }
  }

  /** One variable adds at most one to the counters of `mv`, and nothing to any other's. */
  lemma VarStepBound(p: Progress, matched: seq<Dataset>, mv: string, exact: seq<string>,
                     policy: string, joined: JoinOracle)
    requires HasAttrs(p.ds, exact) && AllCarry(matched, exact)
    ensures var q := VarStep(p, matched, mv, exact, policy, joined);
      forall v :: Sum(q.counts, v) <= Sum(p.counts, v) + (if v == mv then 1 else 0)
  {
    var c := p.counts;
    var q := VarStep(p, matched, mv, exact, policy, joined);
    assert || q.counts == c
           || q.counts == c.(nomatch := Bump(c.nomatch, mv))
           || q.counts == c.(exact := Bump(c.exact, mv))
           || q.counts == c.(nonexact := Bump(c.nonexact, mv));
  }

  /** The inner loop adds at most the number of times `v` is listed to the counters of `v`. */
  lemma {:induction false} RunVarsBound(p: Progress, matched: seq<Dataset>, vars: seq<string>, exact: seq<string>,
                                        policy: string, joined: JoinOracle)
    requires HasAttrs(p.ds, exact) && AllCarry(matched, exact)
    ensures var q := RunVars(p, matched, vars, exact, policy, joined);
      forall v :: Sum(q.counts, v) <= Sum(p.counts, v) + multiset(vars)[v]
  {
    if vars != [] {
      var init, last := vars[..|vars| - 1], vars[|vars| - 1];
      assert vars == init + [last];
      RunVarsBound(p, matched, init, exact, policy, joined);
      VarStepBound(RunVars(p, matched, init, exact, policy, joined), matched, last, exact, policy, joined);
    }
  }

  /** One dataset adds at most the number of times `v` is listed to the
      counters of `v`, and is counted unless an exception already ended the loop. */
  lemma DatasetStepBound(r: Run, e: Entry, vars: seq<string>, keys: seq<string>, exact: seq<string>,
                         policy: string, joined: JoinOracle)
    requires HasAttrs(e.ds, keys) && HasAttrs(e.ds, exact)
    requires AllHave(r.registry, keys) && AllHave(r.registry, exact)
    ensures var s := DatasetStep(r, e, vars, keys, exact, policy, joined);
      || (s.total == r.total && s.counts == r.counts)
      || (s.total == r.total + 1 && forall v :: Sum(s.counts, v) <= Sum(r.counts, v) + multiset(vars)[v])
  {
    if r.failure.None? {
      MatchListHas(e.ds, r.registry, keys, exact);
      RunVarsBound(Progress(e.ds, r.counts, r.log, None), MatchList(e.ds, r.registry, keys), vars, exact, policy, joined);
    }
  }

  /** Each dataset the outer loop processes adds at most the number of times `v`
      is listed to the counters of `v`. */
  lemma {:induction false} RunAllBound(init: Run, es: seq<Entry>, vars: seq<string>, keys: seq<string>,
                                       exact: seq<string>, policy: string, joined: JoinOracle, v: string)
    requires AllHave(es, keys) && AllHave(es, exact) && AllHave(init.registry, keys) && AllHave(init.registry, exact)
    ensures var s := RunAll(init, es, vars, keys, exact, policy, joined);
      && s.total >= init.total
      && Sum(s.counts, v) <= Sum(init.counts, v) + Allowance(s.total - init.total, multiset(vars)[v])
  {
    if es != [] {
      var n := |es| - 1;
      OuterStep(init, es, n, vars, keys, exact, policy, joined);
      assert es[..n + 1] == es;
      RunAllBound(init, es[..n], vars, keys, exact, policy, joined, v);
      var r := RunAll(init, es[..n], vars, keys, exact, policy, joined);
      assert es[n] in es;
      DatasetStepBound(r, es[n], vars, keys, exact, policy, joined);
      AllowanceStep(r.total - init.total, multiset(vars)[v]);
    }
  }

  /** `t` datasets, each adding at most `k`. */
  function Allowance(t: int, k: nat): int
  {
    t * k
  }

  lemma AllowanceStep(t: int, k: nat)
    ensures Allowance(t + 1, k) == Allowance(t, k) + k
  {
  }

  /** For every variable, exact + non-exact + no-match is at most
      `total_datasets` times the number of times the variable is listed in
      `match_variables`. */
  lemma CountersBounded(dsDict: seq<Entry>, registry: seq<Entry>, vars: seq<string>, sel: AttrSelection,
                        exact: seq<string>, policy: string, joined: JoinOracle)
    requires AllHave(dsDict, Resolve(sel, exact)) && AllHave(dsDict, exact)
    requires AllHave(registry, Resolve(sel, exact)) && AllHave(registry, exact)
    ensures var s := MatchMetricsSpec(dsDict, registry, vars, sel, exact, policy, joined);
      forall v :: Sum(s.counts, v) <= s.total * multiset(vars)[v]
  {
    var s := MatchMetricsSpec(dsDict, registry, vars, sel, exact, policy, joined);
    if !Aggregated(dsDict) {
      forall v ensures Sum(s.counts, v) <= s.total * multiset(vars)[v] {
        RunAllBound(Run([], 0, InitCounts(vars), [], registry, None), dsDict, vars, Resolve(sel, exact), exact, policy, joined, v);
      }
    }
  }

  /** With no variable listed twice, exact + non-exact + no-match is at most
      `total_datasets` for every variable, and zero for one not listed. */
  lemma CountersBoundedByTotal(dsDict: seq<Entry>, registry: seq<Entry>, vars: seq<string>, sel: AttrSelection,
                               exact: seq<string>, policy: string, joined: JoinOracle)
    requires AllHave(dsDict, Resolve(sel, exact)) && AllHave(dsDict, exact)
    requires AllHave(registry, Resolve(sel, exact)) && AllHave(registry, exact)
    requires forall i, j :: 0 <= i < j < |vars| ==> vars[i] != vars[j]
    ensures var s := MatchMetricsSpec(dsDict, registry, vars, sel, exact, policy, joined);
      forall v :: Sum(s.counts, v) <= (if v in vars then s.total else 0)
  {
    CountersBounded(dsDict, registry, vars, sel, exact, policy, joined);
    DistinctOnce(vars);
  }

  /** In a list without repetitions every element occurs once. */
  lemma {:induction false} DistinctOnce(vars: seq<string>)
    requires forall i, j :: 0 <= i < j < |vars| ==> vars[i] != vars[j]
    ensures forall v :: multiset(vars)[v] == if v in vars then 1 else 0
  {
    if vars != [] {
      var init, last := vars[..|vars| - 1], vars[|vars| - 1];
      assert vars == init + [last];
      DistinctOnce(init);
      assert last !in init;
    }
  }

  /** A dataset's turn that ends without an exception adds one entry under its
      key, with its attributes, and counts it. */
  lemma DatasetStepParsed(r: Run, e: Entry, vars: seq<string>, keys: seq<string>, exact: seq<string>,
                          policy: string, joined: JoinOracle)
    requires HasAttrs(e.ds, keys) && HasAttrs(e.ds, exact)
    requires AllHave(r.registry, keys) && AllHave(r.registry, exact)
    ensures var s := DatasetStep(r, e, vars, keys, exact, policy, joined);
      s.failure.None? ==>
        && r.failure.None? && s.total == r.total + 1
        && s.parsed == r.parsed + [s.parsed[|r.parsed|]]
        && s.parsed[|r.parsed|].key == e.key && s.parsed[|r.parsed|].ds.attrs == e.ds.attrs
  {
  }

  /** The outer loop's turn for the next entry, as far as the parsed entries go. */
  lemma RunAllParsedStep(init: Run, es: seq<Entry>, vars: seq<string>, keys: seq<string>,
                         exact: seq<string>, policy: string, joined: JoinOracle)
    requires es != [] && AllHave(es, keys) && AllHave(es, exact)
    requires AllHave(init.registry, keys) && AllHave(init.registry, exact)
    ensures AllHave(es[..|es| - 1], keys) && AllHave(es[..|es| - 1], exact)
    ensures var r, s := RunAll(init, es[..|es| - 1], vars, keys, exact, policy, joined),
                        RunAll(init, es, vars, keys, exact, policy, joined);
      s.failure.None? ==>
        && r.failure.None? && s.total == r.total + 1
        && s.parsed == r.parsed + [s.parsed[|r.parsed|]]
        && s.parsed[|r.parsed|].key == es[|es| - 1].key
        && s.parsed[|r.parsed|].ds.attrs == es[|es| - 1].ds.attrs
  {
    var n := |es| - 1;
    OuterStep(init, es, n, vars, keys, exact, policy, joined);
    assert es[..n + 1] == es;
    DatasetStepParsed(RunAll(init, es[..n], vars, keys, exact, policy, joined), es[n], vars, keys, exact, policy, joined);
  }

  /** Without an exception the outer loop adds one entry per dataset, under the
      dataset's own key and with the dataset's attributes, and counts it. */
  lemma {:induction false} RunAllParsed(init: Run, es: seq<Entry>, vars: seq<string>, keys: seq<string>,
                                        exact: seq<string>, policy: string, joined: JoinOracle)
    requires AllHave(es, keys) && AllHave(es, exact) && AllHave(init.registry, keys) && AllHave(init.registry, exact)
    ensures var s := RunAll(init, es, vars, keys, exact, policy, joined);
      s.failure.None? ==>
        && s.total == init.total + |es|
        && |s.parsed| == |init.parsed| + |es|
        && s.parsed[..|init.parsed|] == init.parsed
        && Keys(s.parsed) == Keys(init.parsed) + Keys(es)
        && forall i :: 0 <= i < |es| ==> s.parsed[|init.parsed| + i].ds.attrs == es[i].ds.attrs
  {
    if es != [] {
      var n := |es| - 1;
      var init' := es[..n];
      RunAllParsedStep(init, es, vars, keys, exact, policy, joined);
      RunAllParsed(init, init', vars, keys, exact, policy, joined);
      var r := RunAll(init, init', vars, keys, exact, policy, joined);
      var s := RunAll(init, es, vars, keys, exact, policy, joined);
      if s.failure.None? {
        var last := s.parsed[|r.parsed|];
        assert s.parsed == r.parsed + [last];
        assert s.parsed[..|init.parsed|] == r.parsed[..|init.parsed|];
        KeysSnoc(r.parsed, last);
        KeysLast(es);
        forall i | 0 <= i < |es| ensures s.parsed[|init.parsed| + i].ds.attrs == es[i].ds.attrs {
          if i < n {
            assert s.parsed[|init.parsed| + i] == r.parsed[|init.parsed| + i];
            assert es[i] == init'[i];
          }
        }
      }
    }
  }

  /** `match_metrics` returns a dictionary with exactly the keys of `ds_dict`, in
      its order, each dataset keeping its attributes, and `total_datasets` is
      the number of datasets. */
  lemma ParsedKeepsKeys(dsDict: seq<Entry>, registry: seq<Entry>, vars: seq<string>, sel: AttrSelection,
                        exact: seq<string>, policy: string, joined: JoinOracle)
    requires AllHave(dsDict, Resolve(sel, exact)) && AllHave(dsDict, exact)
    requires AllHave(registry, Resolve(sel, exact)) && AllHave(registry, exact)
    requires DistinctKeys(dsDict)
    ensures var s := MatchMetricsSpec(dsDict, registry, vars, sel, exact, policy, joined);
      s.failure.None? ==>
        && Keys(s.parsed) == Keys(dsDict) && DistinctKeys(s.parsed)
        && s.total == |dsDict|
        && forall i :: 0 <= i < |dsDict| ==> s.parsed[i].ds.attrs == dsDict[i].ds.attrs
  {
    var s := MatchMetricsSpec(dsDict, registry, vars, sel, exact, policy, joined);
    if !Aggregated(dsDict) {
      RunAllParsed(Run([], 0, InitCounts(vars), [], registry, None), dsDict, vars, Resolve(sel, exact), exact, policy, joined);
      if s.failure.None? {
        assert Keys(s.parsed) == Keys(dsDict);
        forall i, j | 0 <= i < j < |s.parsed| ensures s.parsed[i].key != s.parsed[j].key {
          assert Keys(s.parsed)[i] == dsDict[i].key && Keys(s.parsed)[j] == dsDict[j].key;
        }
      }
    }
  }

  /** The lookups only ever add the `original_key` tag: every entry of the
      metric dictionary keeps its key and position, and its dataset is the
      original one, or the original one tagged with its key. */
  lemma {:induction false} RunAllOnlyTags(init: Run, es: seq<Entry>, vars: seq<string>, keys: seq<string>,
                                          exact: seq<string>, policy: string, joined: JoinOracle)
    requires AllHave(es, keys) && AllHave(es, exact) && AllHave(init.registry, keys) && AllHave(init.registry, exact)
    ensures var s := RunAll(init, es, vars, keys, exact, policy, joined);
      && |s.registry| == |init.registry|
      && forall i :: 0 <= i < |init.registry| ==>
           s.registry[i] == init.registry[i] || s.registry[i] == Entry(init.registry[i].key, Tag(init.registry[i]))
  {
    if es != [] {
      var n := |es| - 1;
      OuterStep(init, es, n, vars, keys, exact, policy, joined);
      assert es[..n + 1] == es;
      RunAllOnlyTags(init, es[..n], vars, keys, exact, policy, joined);
      var r := RunAll(init, es[..n], vars, keys, exact, policy, joined);
      var s := RunAll(init, es, vars, keys, exact, policy, joined);
      if r.failure.None? {
        forall i | 0 <= i < |init.registry|
          ensures s.registry[i] == init.registry[i] || s.registry[i] == Entry(init.registry[i].key, Tag(init.registry[i]))
        {
          TagTwice(init.registry[i]);
        }
      }
    }
  }

  /** The metric dictionary keeps its keys, in order, and each dataset is only
      ever tagged with its own key. */
  lemma RegistryOnlyTagged(dsDict: seq<Entry>, registry: seq<Entry>, vars: seq<string>, sel: AttrSelection,
                           exact: seq<string>, policy: string, joined: JoinOracle)
    requires AllHave(dsDict, Resolve(sel, exact)) && AllHave(dsDict, exact)
    requires AllHave(registry, Resolve(sel, exact)) && AllHave(registry, exact)
    ensures var s := MatchMetricsSpec(dsDict, registry, vars, sel, exact, policy, joined);
      && Keys(s.registry) == Keys(registry)
      && |s.registry| == |registry|
      && forall i :: 0 <= i < |registry| ==>
           s.registry[i] == registry[i] || s.registry[i] == Entry(registry[i].key, Tag(registry[i]))
  {
    if !Aggregated(dsDict) {
      RunAllOnlyTags(Run([], 0, InitCounts(vars), [], registry, None), dsDict, vars, Resolve(sel, exact), exact, policy, joined);
    }
  }

  /** A dataset that is its own only candidate for `mv` is chosen, is an exact
      match for itself, and so reaches line 222. */
  lemma SoleSelfCandidate(p: Progress, d: Dataset, mv: string, exact: seq<string>, policy: string, joined: JoinOracle)
    requires p.failure.None? && p.ds.attrs == d.attrs && HasAttrs(d, exact) && Some(mv) in d.variables
    ensures OriginalKey !in d.attrs ==>
      RunVars(p, [d], [mv], exact, policy, joined).failure == Some(MissingOriginalKey)
  {
    InnerStep(p, [d], [mv], 0, exact, policy, joined);
    assert [mv][..1] == [mv] && [mv][..0] == [];
    assert Carrying([d], mv) == [d];
    assert Chosen(p.ds, [d], mv, exact) == d;
    assert MatchAttrs(p.ds, d, exact) == |exact| by {
      assert FullMatch(p.ds, d, exact);
    }
  }

  /** The target dataset is its own first candidate (line 50): a dataset that
      already carries `mv` and has no metric to match is chosen for itself, and
      reading its missing `original_key` (line 222) raises. */
  lemma SelfCandidateRaises(k: string, d: Dataset, mv: string, keys: seq<string>, exact: seq<string>,
                            policy: string, joined: JoinOracle)
    requires HasAttrs(d, keys) && HasAttrs(d, exact)
    requires Some(mv) in d.variables && OriginalKey !in d.attrs && "member_id" !in d.dims
    ensures MatchMetricsSpec([Entry(k, d)], [], [mv], Listed(keys), exact, policy, joined).failure ==
      Some(MissingOriginalKey)
  {
    var init := Run([], 0, InitCounts([mv]), [], [], None);
    var es := [Entry(k, d)];
    assert !Aggregated(es);
    OuterStep(init, es, 0, [mv], keys, exact, policy, joined);
    assert es[..1] == es && es[..0] == [];
    assert MatchList(d, [], keys) == [d];
    SoleSelfCandidate(Progress(d, init.counts, [], None), d, mv, exact, policy, joined);
  }
}
