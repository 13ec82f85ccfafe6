/** `parse_metric`: checking a metric DataArray against a dataset's dimension
    lengths and attaching it to the dataset as a coordinate. */
module MetricParsing {
  import opened Xr

  /** The attribute the attached metric is tagged with, and its value: the
      module path followed by the function's own name. */
  const ParsedWith := "parsed_with"
  const Producer := "cmip6_preprocessing/postprocessing/parse_metric"

  /** The length `xr.align(ds, metric, join="inner")` leaves on a dimension: the
      number of index labels the two share, which the model does not compute. */
  type JoinOracle = (Dataset, DataArray, string) -> nat

  /** The `metric` argument: a DataArray, or a value of some other type. */
  datatype MetricInput = ArrayInput(da: DataArray) | OtherValue(typeName: string)

  /** What `parse_metric` produces: the dataset or the exception it raises, and
      the warnings it issued on the way. */
  datatype Parsed = Parsed(result: Result<Dataset>, log: seq<Warning>)

  /** Every dimension of `dims` is a dimension of `ds`, so `ds[di]` finds it. */
  predicate Present(ds: Dataset, dims: seq<Dim>)
  {
    forall i :: 0 <= i < |dims| ==> dims[i].name in ds.dims
  }

  /** Every dimension of `dims` has the length `ds` gives it. */
  predicate Agree(ds: Dataset, dims: seq<Dim>)
    requires Present(ds, dims)
  {
    forall i :: 0 <= i < |dims| ==> ds.dims[dims[i].name] == dims[i].size
  }

  /** The loop of lines 98-101: the names of the dimensions whose length differs
      from the dataset's, in the metric's order; or the KeyError of the first
      dimension the dataset lacks. */
  function Mismatches(ds: Dataset, dims: seq<Dim>): (r: Result<seq<string>>)
    ensures r.Ok? ==> |r.value| <= |dims|
  {
    if dims == [] then Ok([])
    else
      var d := dims[|dims| - 1];
      match Mismatches(ds, dims[..|dims| - 1])
      case Err(e) => Err(e)
      case Ok(ms) =>
        if d.name !in ds.dims then Err(MissingDimension(d.name))
        else if ds.dims[d.name] != d.size then Ok(ms + [d.name])
        else Ok(ms)
  }

  /** Once a dimension is missing, the later ones do not matter. */
  lemma {:induction false} MismatchesErrSticky(ds: Dataset, dims: seq<Dim>, n: nat)
    requires n <= |dims| && Mismatches(ds, dims[..n]).Err?
    ensures Mismatches(ds, dims) == Mismatches(ds, dims[..n])
    decreases |dims| - n
  {
    if n < |dims| {
      assert dims[..n + 1][..n] == dims[..n];
      MismatchesErrSticky(ds, dims, n + 1);
    } else {
      assert dims[..n] == dims;
    }
  }

  /** The lookup fails exactly when a dimension is missing, and then it names the
      first missing one. */
  lemma {:induction false} MismatchesFails(ds: Dataset, dims: seq<Dim>)
    ensures Mismatches(ds, dims).Err? <==> !Present(ds, dims)
    ensures Mismatches(ds, dims).Err? ==>
      exists i :: 0 <= i < |dims| && dims[i].name !in ds.dims &&
        Mismatches(ds, dims).error == MissingDimension(dims[i].name) &&
        Present(ds, dims[..i])
  {
    if dims != [] {
      var init := dims[..|dims| - 1];
      MismatchesFails(ds, init);
      if Mismatches(ds, init).Err? {
        var i :| 0 <= i < |init| && init[i].name !in ds.dims &&
          Mismatches(ds, init).error == MissingDimension(init[i].name) && Present(ds, init[..i]);
        assert init[..i] == dims[..i];
      } else {
        assert init == dims[..|dims| - 1];
      }
    }
  }

  /** With every dimension present, a name is reported exactly when one of the
      metric's dimensions of that name differs in length from the dataset's. */
  lemma {:induction false} MismatchesNames(ds: Dataset, dims: seq<Dim>)
    requires Present(ds, dims)
    ensures Mismatches(ds, dims).Ok?
    ensures forall x :: x in Mismatches(ds, dims).value <==>
      exists i :: 0 <= i < |dims| && dims[i].name == x && ds.dims[x] != dims[i].size
  {
    if dims != [] {
      var init := dims[..|dims| - 1];
      assert Present(ds, init);
      MismatchesNames(ds, init);
      forall x ensures x in Mismatches(ds, dims).value <==>
        exists i :: 0 <= i < |dims| && dims[i].name == x && ds.dims[x] != dims[i].size
      {
        if x in Mismatches(ds, init).value {
          var i :| 0 <= i < |init| && init[i].name == x && ds.dims[x] != init[i].size;
          assert dims[i] == init[i];
        }
        if exists i :: 0 <= i < |dims| && dims[i].name == x && ds.dims[x] != dims[i].size {
          var i :| 0 <= i < |dims| && dims[i].name == x && ds.dims[x] != dims[i].size;
          if i < |init| {
            assert init[i] == dims[i];
          }
        }
      }
    }
  }

  /** No dimension is reported exactly when all are present and agree in length. */
  lemma NoMismatch(ds: Dataset, dims: seq<Dim>)
    ensures Mismatches(ds, dims) == Ok([]) <==> Present(ds, dims) && Agree(ds, dims)
  {
    MismatchesFails(ds, dims);
    if Present(ds, dims) {
      MismatchesNames(ds, dims);
      if Mismatches(ds, dims) != Ok([]) {
        var x := Mismatches(ds, dims).value[0];
        assert x in Mismatches(ds, dims).value;
      }
    }
  }

  /** `a` with every dimension named in `ms` resized to `len` of its name. */
  function Resize(a: DataArray, ms: seq<string>, len: string -> nat): DataArray
  {
    a.(dims := seq(|a.dims|, i requires 0 <= i < |a.dims| =>
      if a.dims[i].name in ms then Dim(a.dims[i].name, len(a.dims[i].name)) else a.dims[i]))
  }

  /** `xr.align(ds, metric, join="inner")` (line 113) on the mismatched
      dimensions `ms`: dataset and metric alike take the joined length. */
  function Align(ds: Dataset, m: DataArray, ms: seq<string>, joined: JoinOracle): (r: (DataArray, Dataset))
    ensures r.0.name == m.name && r.0.attrs == m.attrs && r.0.coords == m.coords && |r.0.dims| == |m.dims|
    ensures forall i :: 0 <= i < |m.dims| ==>
      r.0.dims[i].name == m.dims[i].name && (m.dims[i].name !in ms ==> r.0.dims[i] == m.dims[i])
    ensures r.1.attrs == ds.attrs && r.1.dims.Keys == ds.dims.Keys && r.1.variables.Keys == ds.variables.Keys
    ensures forall k | k in ds.dims && k !in ms :: r.1.dims[k] == ds.dims[k]
  {
    var len := (d: string) => joined(ds, m, d);
    (Resize(m, ms, len),
     ds.(dims := map k | k in ds.dims :: if k in ms then len(k) else ds.dims[k],
         variables := map v | v in ds.variables :: Resize(ds.variables[v], ms, len)))
  }

  /** After the alignment every dimension of the metric has the dataset's
      length, and nothing else about either changes. */
  lemma AlignResolves(ds: Dataset, m: DataArray, ms: seq<string>, joined: JoinOracle)
    requires Mismatches(ds, m.dims) == Ok(ms)
    ensures Mismatches(Align(ds, m, ms, joined).1, Align(ds, m, ms, joined).0.dims) == Ok([])
    ensures Align(ds, m, ms, joined).1.attrs == ds.attrs
    ensures Align(ds, m, ms, joined).1.dims.Keys == ds.dims.Keys
    ensures Align(ds, m, ms, joined).1.variables.Keys == ds.variables.Keys
    ensures Align(ds, m, ms, joined).0.name == m.name
  {
    var (m2, ds2) := Align(ds, m, ms, joined);
    MismatchesFails(ds, m.dims);
    MismatchesNames(ds, m.dims);
    assert Present(ds2, m2.dims);
    forall i | 0 <= i < |m2.dims| ensures ds2.dims[m2.dims[i].name] == m2.dims[i].size {
      var x := m.dims[i].name;
      if x !in ms {
        assert !(ds.dims[x] != m.dims[i].size);
      }
    }
    NoMismatch(ds2, m2.dims);
  }

  /** The names that are index coordinates of `m`: those of its dimensions. */
  function DimNames(m: DataArray): set<string>
  {
    set i | 0 <= i < |m.dims| :: m.dims[i].name
  }

  /** `metric.reset_coords(drop=True)` (line 116): only index coordinates remain. */
  function Strip(m: DataArray): (s: DataArray)
    ensures s.coords <= DimNames(m) && s.coords <= m.coords
    ensures s.name == m.name && s.attrs == m.attrs && s.dims == m.dims
  {
    m.(coords := set c | c in m.coords && c in DimNames(m))
  }

  /** The `parsed_with` tag of lines 119-121. */
  function Label(m: DataArray): (r: DataArray)
    ensures r.name == m.name && r.dims == m.dims && r.coords == m.coords
    ensures r.attrs.Keys == m.attrs.Keys + {ParsedWith} && r.attrs[ParsedWith] == Producer
    ensures forall k | k in m.attrs && k != ParsedWith :: r.attrs[k] == m.attrs[k]
  {
    m.(attrs := m.attrs[ParsedWith := Producer])
  }

  /** `ds.assign_coords({metric.name: metric})` (line 124). */
  function Attach(ds: Dataset, c: DataArray): (r: Dataset)
    ensures r.attrs == ds.attrs && r.dims == ds.dims
    ensures r.variables.Keys == ds.variables.Keys + {c.name} && r.variables[c.name] == c
    ensures forall v | v in ds.variables && v != c.name :: r.variables[v] == ds.variables[v]
  {
    ds.(variables := ds.variables[c.name := c])
  }

  /** `parse_metric(ds, metric, dim_length_conflict=policy)`. */
  function ParseMetricSpec(ds: Dataset, metric: MetricInput, policy: string, joined: JoinOracle): (p: Parsed)
    ensures p.result.Ok? ==> p.result.value.attrs == ds.attrs
    ensures p.result.Ok? ==> p.result.value.dims == ds.dims || policy == "align"
  {
    match metric
    case OtherValue(t) => Parsed(Err(NotDataArray(t)), [])
    case ArrayInput(m) =>
      var named := if m.name.None? then [UnnamedMetric] else [];
      match Mismatches(ds, m.dims)
      case Err(e) => Parsed(Err(e), named)
      case Ok(ms) =>
        if |ms| > 0 && policy == "error" then
          Parsed(Err(DimensionMismatch(ms)), named)
        else if |ms| > 0 && policy == "align" then
          var (m2, ds2) := Align(ds, m, ms, joined);
          Parsed(Ok(Attach(ds2, Label(Strip(m2)))), named + [AlignedOnInner(ms)])
        else
          Parsed(Ok(Attach(ds, Label(Strip(m)))), named)
  }

  /** The loop of lines 98-101. */
  method MismatchedDims(ds: Dataset, m: DataArray) returns (r: Result<seq<string>>)
    ensures r == Mismatches(ds, m.dims)
  {
    var ms := [];
    var i := 0;
    while i < |m.dims|
      invariant 0 <= i <= |m.dims|
      invariant Mismatches(ds, m.dims[..i]) == Ok(ms)
    {
      var d := m.dims[i];
      assert m.dims[..i + 1][..i] == m.dims[..i];
      if d.name !in ds.dims {
        MismatchesErrSticky(ds, m.dims, i + 1);
        return Err(MissingDimension(d.name));
      }
      if ds.dims[d.name] != d.size {
        ms := ms + [d.name];
      }
      i := i + 1;
    }
    assert m.dims[..i] == m.dims;
    r := Ok(ms);
  }

  method ParseMetric(ds: Dataset, metric: MetricInput, policy: string, joined: JoinOracle)
    returns (r: Result<Dataset>, log: seq<Warning>)
    ensures Parsed(r, log) == ParseMetricSpec(ds, metric, policy, joined)
    ensures metric.OtherValue? ==> r == Err(NotDataArray(metric.typeName)) && log == []
  {
    if metric.OtherValue? {
      return Err(NotDataArray(metric.typeName)), [];
    }
    var m := metric.da;
    log := if m.name.None? then [UnnamedMetric] else [];
    var found := MismatchedDims(ds, m);
    if found.Err? {
      return Err(found.error), log;
    }
    var ms := found.value;
    var target := ds;
    if |ms| > 0 {
      if policy == "error" {
        return Err(DimensionMismatch(ms)), log;
      } else if policy == "align" {
        log := log + [AlignedOnInner(ms)];
        var aligned := Align(ds, m, ms, joined);
        m, target := aligned.0, aligned.1;
      }
    }
    r := Ok(Attach(target, Label(Strip(m))));
  }

  /** The coordinate `parse_metric` attached for metric `m` to the dataset `out`,
      with its dimensions and attributes and the tag, and nothing else changed. */
  predicate AttachedTo(out: Dataset, ds: Dataset, m: DataArray, dims: seq<Dim>)
  {
    && out.attrs == ds.attrs
    && out.variables.Keys == ds.variables.Keys + {m.name}
    && var c := out.variables[m.name];
       c.name == m.name && c.dims == dims && c.coords <= m.coords
       && c.attrs == m.attrs[ParsedWith := Producer] && c.attrs[ParsedWith] == Producer
  }

  /** A non-DataArray is refused before anything else happens. */
  lemma RefusesOtherValues(ds: Dataset, t: string, policy: string, joined: JoinOracle)
    ensures ParseMetricSpec(ds, OtherValue(t), policy, joined) == Parsed(Err(NotDataArray(t)), [])
  {
  }

  /** An unnamed metric is warned about, first, whatever happens next. */
  lemma WarnsUnnamed(ds: Dataset, m: DataArray, policy: string, joined: JoinOracle)
    ensures var p := ParseMetricSpec(ds, ArrayInput(m), policy, joined);
      (|p.log| > 0 && p.log[0] == UnnamedMetric) <==> m.name.None?
  {
  }

  /** A dimension the dataset lacks raises, whatever the policy. */
  lemma MissingDimensionRaises(ds: Dataset, m: DataArray, policy: string, joined: JoinOracle)
    requires !Present(ds, m.dims)
    ensures var p := ParseMetricSpec(ds, ArrayInput(m), policy, joined);
      p.result.Err? && p.result.error.MissingDimension? && p.result.error.dim !in ds.dims
  {
    MismatchesFails(ds, m.dims);
  }

  /** Under "error" the metric is attached exactly when every dimension is
      present and agrees in length; a length conflict raises with the names of
      the conflicting dimensions. */
  lemma ErrorPolicy(ds: Dataset, m: DataArray, joined: JoinOracle)
    ensures var p := ParseMetricSpec(ds, ArrayInput(m), "error", joined);
      p.result.Ok? <==> Present(ds, m.dims) && Agree(ds, m.dims)
    ensures var p := ParseMetricSpec(ds, ArrayInput(m), "error", joined);
      Present(ds, m.dims) && !Agree(ds, m.dims) ==>
        p.result.Err? && p.result.error.DimensionMismatch? && |p.result.error.dims| > 0 &&
        forall x :: x in p.result.error.dims <==>
          exists i :: 0 <= i < |m.dims| && m.dims[i].name == x && ds.dims[x] != m.dims[i].size
  {
    NoMismatch(ds, m.dims);
    MismatchesFails(ds, m.dims);
    if Present(ds, m.dims) {
      MismatchesNames(ds, m.dims);
    }
  }

  /** When every dimension agrees, whatever the policy, the result is `ds` with the
      metric added as a coordinate of its own name, tagged `parsed_with`. */
  lemma AttachesWhenDimsAgree(ds: Dataset, m: DataArray, policy: string, joined: JoinOracle)
    requires Present(ds, m.dims) && Agree(ds, m.dims)
    ensures var p := ParseMetricSpec(ds, ArrayInput(m), policy, joined);
      && p.result.Ok?
      && p.result.value.dims == ds.dims
      && AttachedTo(p.result.value, ds, m, m.dims)
      && (forall v | v in ds.variables && v != m.name :: p.result.value.variables[v] == ds.variables[v])
      && AlignedOnInner([]) !in p.log
  {
    NoMismatch(ds, m.dims);
  }

  /** Under "align" a length conflict is warned about and resolved: the attached
      coordinate's dimensions all have the returned dataset's lengths. */
  lemma AlignPolicy(ds: Dataset, m: DataArray, joined: JoinOracle)
    requires Present(ds, m.dims) && !Agree(ds, m.dims)
    ensures var p := ParseMetricSpec(ds, ArrayInput(m), "align", joined);
      && p.result.Ok?
      && Present(p.result.value, p.result.value.variables[m.name].dims)
      && Agree(p.result.value, p.result.value.variables[m.name].dims)
      && p.result.value.dims.Keys == ds.dims.Keys
      && AttachedTo(p.result.value, ds, m, p.result.value.variables[m.name].dims)
      && |p.result.value.variables[m.name].dims| == |m.dims|
      && (forall i :: 0 <= i < |m.dims| ==> p.result.value.variables[m.name].dims[i].name == m.dims[i].name)
      && p.log[|p.log| - 1] == AlignedOnInner(Mismatches(ds, m.dims).value)
  {
    NoMismatch(ds, m.dims);
    MismatchesFails(ds, m.dims);
    var ms := Mismatches(ds, m.dims).value;
    AlignResolves(ds, m, ms, joined);
    var (m2, ds2) := Align(ds, m, ms, joined);
    var out := ParseMetricSpec(ds, ArrayInput(m), "align", joined).result.value;
    assert out == Attach(ds2, Label(Strip(m2)));
    NoMismatch(out, m2.dims);
    NoMismatch(ds2, m2.dims);
  }

  /** Any other policy string is no policy at all (lines 109-113 have no else
      branch): a length conflict is neither raised nor aligned, and the metric
      is attached as it is. */
  lemma OtherPolicyProceeds(ds: Dataset, m: DataArray, policy: string, joined: JoinOracle)
    requires policy != "error" && policy != "align" && Present(ds, m.dims)
    ensures var p := ParseMetricSpec(ds, ArrayInput(m), policy, joined);
      && p.result.Ok?
      && p.result.value.dims == ds.dims
      && AttachedTo(p.result.value, ds, m, m.dims)
      && p.log == (if m.name.None? then [UnnamedMetric] else [])
  {
    MismatchesFails(ds, m.dims);
  }
}
