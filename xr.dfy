/** The values the post-processing functions of cmip6_preprocessing work on.
    An xarray Dataset or DataArray is modelled by the parts the functions read or
    write (attributes, dimension lengths, named variables); array values, indexes
    and chunking are not part of the model. */
module Xr {

  datatype Option<+T> = None | Some(value: T)

  /** One dimension of a DataArray: its name and its length. */
  datatype Dim = Dim(name: string, size: nat)

  /** An xarray DataArray: its name (None when it has none), its attributes, its
      dimensions in order, and the names of the coordinate labels it carries. */
  datatype DataArray = DataArray(
    name: Option<string>,
    attrs: map<string, string>,
    dims: seq<Dim>,
    coords: set<string>)

  /** An xarray Dataset: its attributes, the length of each dimension, and its
      variables (data variables and coordinates alike) keyed by name. */
  datatype Dataset = Dataset(
    attrs: map<string, string>,
    dims: map<string, nat>,
    variables: map<Option<string>, DataArray>)

  /** One (key, dataset) pair of a dictionary of datasets. */
  datatype Entry = Entry(key: string, ds: Dataset)

  /** The exceptions the modelled functions raise. */
  datatype Error =
    | NotDataArray(typeName: string)      // parse_metric: `metric` is not a DataArray
    | MissingDimension(dim: string)       // parse_metric: `ds[di]` finds no such dimension
    | DimensionMismatch(dims: seq<string>) // parse_metric under the "error" policy
    | AggregatedMembers                   // match_metrics: a dataset has a member_id dimension
    | MissingOriginalKey                  // match_metrics: the chosen metric has no original_key

  datatype Result<+T> = Ok(value: T) | Err(error: Error)

  /** The warnings the modelled functions issue (their message text is not modelled). */
  datatype Warning =
    | UnnamedMetric
    | AlignedOnInner(dims: seq<string>)
    | NoMatchingMetric(variable: string)
    | TimeDependentInexact(variable: string)
    | CombineFailed(seed: Dataset)

  /** The entries' keys, in order. */
  function Keys(es: seq<Entry>): seq<string>
  {
    seq(|es|, i requires 0 <= i < |es| => es[i].key)
  }

  lemma KeysSnoc(es: seq<Entry>, x: Entry)
    ensures Keys(es + [x]) == Keys(es) + [x.key]
  {
  }

  lemma KeysLast(es: seq<Entry>)
    requires es != []
    ensures Keys(es) == Keys(es[..|es| - 1]) + [es[|es| - 1].key]
  {
  }

  lemma MultisetFirst<T>(s: seq<T>)
    requires s != []
    ensures multiset(s) == multiset{s[0]} + multiset(s[1..])
  {
    assert s == [s[0]] + s[1..];
  }

  lemma MultisetLast<T>(s: seq<T>)
    requires s != []
    ensures multiset(s) == multiset(s[..|s| - 1]) + multiset{s[|s| - 1]}
  {
    assert s == s[..|s| - 1] + [s[|s| - 1]];
  }

  /** A dictionary never holds one key twice. */
  predicate DistinctKeys(es: seq<Entry>)
  {
    forall i, j :: 0 <= i < j < |es| ==> es[i].key != es[j].key
  }
}
