/** `exact_attrs`, `_match_attrs` and `match_datasets`: scoring two datasets on a
    list of attributes, and finding the entries of a dictionary of datasets that
    agree with a dataset on all of them. */
module Matching {
  import opened Xr

  /** The attributes that must agree for two datasets to be an exact match. */
  const ExactAttrs: seq<string> := ["source_id", "grid_label", "experiment_id", "table_id", "variant_label"]

  /** The attributes `match_metrics` matches on when its caller names none (line 133). */
  const DefaultMatchAttrs: seq<string> := ["source_id", "grid_label"]

  /** The attribute a matched dataset is tagged with, holding its dictionary key. */
  const OriginalKey := "original_key"

  /** Neither default attribute list holds `original_key`, so the facts stated
      under `OriginalKey !in keys` (`Retag`, `LookupTwice`) hold for them. */
  lemma DefaultsOmitOriginalKey()
    ensures OriginalKey !in ExactAttrs && OriginalKey !in DefaultMatchAttrs
    ensures forall k | k in DefaultMatchAttrs :: k in ExactAttrs
  {
  }

  predicate HasAttrs(ds: Dataset, keys: seq<string>)
  {
    forall i :: 0 <= i < |keys| ==> keys[i] in ds.attrs
  }

  /** Every dataset of the entries carries every attribute of `keys`. */
  predicate AllHave(es: seq<Entry>, keys: seq<string>)
  {
    forall e | e in es :: HasAttrs(e.ds, keys)
  }

  /** The number of attributes of `keys` on which `a` and `b` agree. Reading an
      attribute a dataset lacks raises KeyError in the source; callers supply
      both. */
  function MatchAttrs(a: Dataset, b: Dataset, keys: seq<string>): (n: nat)
    requires HasAttrs(a, keys) && HasAttrs(b, keys)
    ensures n <= |keys|
    ensures n == |keys| <==> FullMatch(a, b, keys)
  {
    if keys == [] then 0
    else (if a.attrs[keys[0]] == b.attrs[keys[0]] then 1 else 0) + MatchAttrs(a, b, keys[1..])
  }

  /** `a` and `b` agree on every attribute of `keys`: `_match_attrs(a, b, keys) == len(keys)`. */
  predicate FullMatch(a: Dataset, b: Dataset, keys: seq<string>)
    requires HasAttrs(a, keys) && HasAttrs(b, keys)
  {
    forall i :: 0 <= i < |keys| ==> a.attrs[keys[i]] == b.attrs[keys[i]]
  }

  lemma FullMatchSymmetric(a: Dataset, b: Dataset, keys: seq<string>)
    requires HasAttrs(a, keys) && HasAttrs(b, keys)
    ensures FullMatch(a, b, keys) <==> FullMatch(b, a, keys)
  {
  }

  lemma FullMatchTransitive(a: Dataset, b: Dataset, c: Dataset, keys: seq<string>)
    requires HasAttrs(a, keys) && HasAttrs(b, keys) && HasAttrs(c, keys)
    requires FullMatch(a, b, keys) && FullMatch(b, c, keys)
    ensures FullMatch(a, c, keys)
  {
  }

  /** The dataset of an entry, tagged with the entry's key (line 59). */
  function Tag(e: Entry): (d: Dataset)
    ensures d.attrs.Keys == e.ds.attrs.Keys + {OriginalKey} && d.attrs[OriginalKey] == e.key
    ensures forall k | k in e.ds.attrs && k != OriginalKey :: d.attrs[k] == e.ds.attrs[k]
    ensures d.dims == e.ds.dims && d.variables == e.ds.variables
  {
    e.ds.(attrs := e.ds.attrs[OriginalKey := e.key])
  }

  lemma TagKeepsAttrs(e: Entry, keys: seq<string>)
    requires HasAttrs(e.ds, keys)
    ensures HasAttrs(Tag(e), keys)
    ensures OriginalKey !in keys ==> forall i :: 0 <= i < |keys| ==> Tag(e).attrs[keys[i]] == e.ds.attrs[keys[i]]
  {
  }

  /** The tagged datasets of the entries, in order. */
  function Tagged(es: seq<Entry>): seq<Dataset>
  {
    seq(|es|, i requires 0 <= i < |es| => Tag(es[i]))
  }

  lemma TaggedAppend(a: seq<Entry>, b: seq<Entry>)
    ensures Tagged(a + b) == Tagged(a) + Tagged(b)
  {
  }

  /** The entries that agree with `ds` on all of `keys`, in dictionary order. */
  function Matches(ds: Dataset, es: seq<Entry>, keys: seq<string>): (r: seq<Entry>)
    requires HasAttrs(ds, keys) && AllHave(es, keys)
    ensures |r| <= |es|
  {
    if es == [] then []
    else
      var last := es[|es| - 1];
      Matches(ds, es[..|es| - 1], keys) + (if FullMatch(ds, last.ds, keys) then [last] else [])
  }

  /** The entries that do not agree with `ds` on all of `keys`, in dictionary order. */
  function Unmatched(ds: Dataset, es: seq<Entry>, keys: seq<string>): (r: seq<Entry>)
    requires HasAttrs(ds, keys) && AllHave(es, keys)
    ensures |r| <= |es|
  {
    if es == [] then []
    else
      var last := es[|es| - 1];
      Unmatched(ds, es[..|es| - 1], keys) + (if FullMatch(ds, last.ds, keys) then [] else [last])
  }

  /** One more entry at the end of the dictionary: the steps of the loop of
      `match_datasets`. */
  lemma SnocMatches(ds: Dataset, es: seq<Entry>, x: Entry, keys: seq<string>)
    requires HasAttrs(ds, keys) && AllHave(es, keys) && HasAttrs(x.ds, keys)
    ensures AllHave(es + [x], keys)
    ensures Matches(ds, es + [x], keys) == Matches(ds, es, keys) + (if FullMatch(ds, x.ds, keys) then [x] else [])
  {
    assert (es + [x])[..|es|] == es;
  }

  lemma SnocUnmatched(ds: Dataset, es: seq<Entry>, x: Entry, keys: seq<string>)
    requires HasAttrs(ds, keys) && AllHave(es, keys) && HasAttrs(x.ds, keys)
    ensures AllHave(es + [x], keys)
    ensures Unmatched(ds, es + [x], keys) == Unmatched(ds, es, keys) + (if FullMatch(ds, x.ds, keys) then [] else [x])
  {
    assert (es + [x])[..|es|] == es;
  }

  lemma SnocTagMatched(ds: Dataset, es: seq<Entry>, x: Entry, keys: seq<string>)
    requires HasAttrs(ds, keys) && AllHave(es, keys) && HasAttrs(x.ds, keys)
    ensures AllHave(es + [x], keys)
    ensures TagMatched(ds, es + [x], keys) ==
      TagMatched(ds, es, keys) + [if FullMatch(ds, x.ds, keys) then Entry(x.key, Tag(x)) else x]
  {
  }

  lemma Snoc(ds: Dataset, es: seq<Entry>, x: Entry, keys: seq<string>)
    requires HasAttrs(ds, keys) && AllHave(es, keys) && HasAttrs(x.ds, keys)
    ensures AllHave(es + [x], keys)
    ensures Matches(ds, es + [x], keys) == Matches(ds, es, keys) + (if FullMatch(ds, x.ds, keys) then [x] else [])
    ensures Unmatched(ds, es + [x], keys) == Unmatched(ds, es, keys) + (if FullMatch(ds, x.ds, keys) then [] else [x])
    ensures TagMatched(ds, es + [x], keys) ==
      TagMatched(ds, es, keys) + [if FullMatch(ds, x.ds, keys) then Entry(x.key, Tag(x)) else x]
  {
    SnocMatches(ds, es, x, keys);
    SnocUnmatched(ds, es, x, keys);
    SnocTagMatched(ds, es, x, keys);
  }

  /** The matches are exactly the entries agreeing with `ds` on every attribute
      of `keys`; the rest are exactly those that do not. */
  lemma {:induction false} SplitMembers(ds: Dataset, es: seq<Entry>, keys: seq<string>)
    requires HasAttrs(ds, keys) && AllHave(es, keys)
    ensures forall e :: e in Matches(ds, es, keys) <==> e in es && FullMatch(ds, e.ds, keys)
    ensures forall e :: e in Unmatched(ds, es, keys) <==> e in es && !FullMatch(ds, e.ds, keys)
  {
    if es != [] {
      var init := es[..|es| - 1];
      SplitMembers(ds, init, keys);
      assert es == init + [es[|es| - 1]];
    }
  }

  /** The dictionary after a non-destructive lookup: every matching entry tagged. */
  function TagMatched(ds: Dataset, es: seq<Entry>, keys: seq<string>): (r: seq<Entry>)
    requires HasAttrs(ds, keys) && AllHave(es, keys)
    ensures Keys(r) == Keys(es)
  {
    seq(|es|, i requires 0 <= i < |es| =>
      if FullMatch(ds, es[i].ds, keys) then Entry(es[i].key, Tag(es[i])) else es[i])
  }

  /** What `match_datasets` returns: `ds`, then every matching entry tagged. */
  function MatchList(ds: Dataset, es: seq<Entry>, keys: seq<string>): (r: seq<Dataset>)
    requires HasAttrs(ds, keys) && AllHave(es, keys)
    ensures 1 <= |r| <= |es| + 1 && r[0] == ds
  {
    [ds] + Tagged(Matches(ds, es, keys))
  }

  lemma TagMatchedHas(ds: Dataset, es: seq<Entry>, keys: seq<string>, other: seq<string>)
    requires HasAttrs(ds, keys) && AllHave(es, keys) && AllHave(es, other)
    ensures AllHave(TagMatched(ds, es, keys), keys) && AllHave(TagMatched(ds, es, keys), other)
  {
    var r := TagMatched(ds, es, keys);
    forall e | e in r ensures HasAttrs(e.ds, keys) && HasAttrs(e.ds, other) {
      var i :| 0 <= i < |r| && r[i] == e;
      TagKeepsAttrs(es[i], keys);
      TagKeepsAttrs(es[i], other);
    }
  }

  lemma MatchListHas(ds: Dataset, es: seq<Entry>, keys: seq<string>, other: seq<string>)
    requires HasAttrs(ds, keys) && AllHave(es, keys) && HasAttrs(ds, other) && AllHave(es, other)
    ensures forall d | d in MatchList(ds, es, keys) :: HasAttrs(d, other)
  {
    var ms := Matches(ds, es, keys);
    SplitMembers(ds, es, keys);
    forall d | d in MatchList(ds, es, keys) ensures HasAttrs(d, other) {
      if d != ds {
        var i :| 0 <= i < |ms| && Tagged(ms)[i] == d;
        assert ms[i] in ms;
        TagKeepsAttrs(ms[i], other);
      }
    }
  }

  /** Filtering keeps dictionary order: the matches of a concatenation are the
      matches of each part, one after the other. */
  lemma {:induction false} MatchesAppend(ds: Dataset, a: seq<Entry>, b: seq<Entry>, keys: seq<string>)
    requires HasAttrs(ds, keys) && AllHave(a, keys) && AllHave(b, keys)
    ensures AllHave(a + b, keys)
    ensures Matches(ds, a + b, keys) == Matches(ds, a, keys) + Matches(ds, b, keys)
    ensures Unmatched(ds, a + b, keys) == Unmatched(ds, a, keys) + Unmatched(ds, b, keys)
    decreases |b|
  {
    if b == [] {
      assert a + b == a;
    } else {
      var b' := b[..|b| - 1];
      assert (a + b)[..|a + b| - 1] == a + b';
      assert (a + b)[|a + b| - 1] == b[|b| - 1];
      MatchesAppend(ds, a, b', keys);
    }
  }

  /** Every entry lands on exactly one side of the split. */
  lemma {:induction false} SplitCounts(ds: Dataset, es: seq<Entry>, keys: seq<string>)
    requires HasAttrs(ds, keys) && AllHave(es, keys)
    ensures |Matches(ds, es, keys)| + |Unmatched(ds, es, keys)| == |es|
    ensures multiset(Matches(ds, es, keys)) + multiset(Unmatched(ds, es, keys)) == multiset(es)
  {
    if es != [] {
      var init, last := es[..|es| - 1], es[|es| - 1];
      SplitCounts(ds, init, keys);
      var m, u := Matches(ds, init, keys), Unmatched(ds, init, keys);
      if FullMatch(ds, last.ds, keys) {
        assert multiset(Matches(ds, es, keys)) == multiset(m) + multiset{last};
        assert multiset(Unmatched(ds, es, keys)) == multiset(u);
      } else {
        assert multiset(Matches(ds, es, keys)) == multiset(m);
        assert multiset(Unmatched(ds, es, keys)) == multiset(u) + multiset{last};
      }
      MultisetLast(es);
    }
  }

  lemma {:induction false} UnmatchedDistinct(ds: Dataset, es: seq<Entry>, keys: seq<string>)
    requires HasAttrs(ds, keys) && AllHave(es, keys) && DistinctKeys(es)
    ensures DistinctKeys(Unmatched(ds, es, keys))
  {
    if es != [] {
      var init := es[..|es| - 1];
      var last := es[|es| - 1];
      UnmatchedDistinct(ds, init, keys);
      var u := Unmatched(ds, init, keys);
      SplitMembers(ds, init, keys);
      forall i | 0 <= i < |u| ensures u[i].key != last.key {
        assert u[i] in init;
      }
    }
  }

  lemma TagMatchedDistinct(ds: Dataset, es: seq<Entry>, keys: seq<string>)
    requires HasAttrs(ds, keys) && AllHave(es, keys) && DistinctKeys(es)
    ensures DistinctKeys(TagMatched(ds, es, keys))
  {
    var r := TagMatched(ds, es, keys);
    forall i, j | 0 <= i < j < |r| ensures r[i].key != r[j].key {
      assert Keys(r)[i] == Keys(es)[i] && Keys(r)[j] == Keys(es)[j];
    }
  }

  /** In a dictionary, two entries with the same key are the same entry. */
  lemma SameKeySameEntry(es: seq<Entry>, x: Entry, y: Entry)
    requires DistinctKeys(es) && x in es && y in es && x.key == y.key
    ensures x == y
  {
    var i :| 0 <= i < |es| && es[i] == x;
    var j :| 0 <= j < |es| && es[j] == y;
    assert i == j;
  }

  function KeySet(es: seq<Entry>): set<string>
  {
    set e | e in es :: e.key
  }

  /** A destructive lookup removes exactly the matched keys, one per returned
      match, and leaves no entry that matches `ds`. */
  lemma PopRemovesMatched(ds: Dataset, es: seq<Entry>, keys: seq<string>)
    requires HasAttrs(ds, keys) && AllHave(es, keys) && DistinctKeys(es)
    ensures KeySet(Unmatched(ds, es, keys)) == KeySet(es) - KeySet(Matches(ds, es, keys))
    ensures |es| - |Unmatched(ds, es, keys)| == |MatchList(ds, es, keys)| - 1
    ensures forall e | e in Unmatched(ds, es, keys) :: e in es && !FullMatch(ds, e.ds, keys)
  {
    var m := Matches(ds, es, keys);
    var u := Unmatched(ds, es, keys);
    SplitCounts(ds, es, keys);
    SplitMembers(ds, es, keys);
    forall k | k in KeySet(u) ensures k !in KeySet(m) {
      var x :| x in u && x.key == k;
      if y :| y in m && y.key == k {
        SameKeySameEntry(es, x, y);
      }
    }
    forall k | k in KeySet(es) && k !in KeySet(m) ensures k in KeySet(u) {
      var x :| x in es && x.key == k;
      assert x !in m;
    }
  }

  /** With "original_key" not among the matched attributes, a second
      non-destructive lookup returns the same list and leaves the dictionary as
      the first one left it. */
  lemma {:induction false} LookupTwice(ds: Dataset, es: seq<Entry>, keys: seq<string>)
    requires HasAttrs(ds, keys) && AllHave(es, keys) && OriginalKey !in keys
    ensures AllHave(TagMatched(ds, es, keys), keys)
    ensures MatchList(ds, TagMatched(ds, es, keys), keys) == MatchList(ds, es, keys)
    ensures TagMatched(ds, TagMatched(ds, es, keys), keys) == TagMatched(ds, es, keys)
  {
    TagMatchedHas(ds, es, keys, keys);
    var t := TagMatched(ds, es, keys);
    forall i | 0 <= i < |es|
      ensures FullMatch(ds, t[i].ds, keys) == FullMatch(ds, es[i].ds, keys)
      ensures (if FullMatch(ds, t[i].ds, keys) then Entry(t[i].key, Tag(t[i])) else t[i]) == t[i]
    {
      assert es[i] in es;
      Retag(ds, es[i], keys);
    }
    TaggedMatchesOfTagged(ds, es, keys);
  }

  /** Looking an entry up a second time, once tagged, changes nothing more. */
  lemma Retag(ds: Dataset, e: Entry, keys: seq<string>)
    requires HasAttrs(ds, keys) && HasAttrs(e.ds, keys) && OriginalKey !in keys
    ensures var t := if FullMatch(ds, e.ds, keys) then Entry(e.key, Tag(e)) else e;
      && HasAttrs(t.ds, keys) && (FullMatch(ds, t.ds, keys) == FullMatch(ds, e.ds, keys))
      && (if FullMatch(ds, t.ds, keys) then Entry(t.key, Tag(t)) else t) == t
  {
    TagKeepsAttrs(e, keys);
    TagTwice(e);
  }

  /** Tagging an entry that already carries its own key changes nothing. */
  lemma TagTwice(e: Entry)
    ensures Tag(Entry(e.key, Tag(e))) == Tag(e)
  {
    assert Tag(Entry(e.key, Tag(e))).attrs == Tag(e).attrs;
  }

  lemma {:induction false} TaggedMatchesOfTagged(ds: Dataset, es: seq<Entry>, keys: seq<string>)
    requires HasAttrs(ds, keys) && AllHave(es, keys) && OriginalKey !in keys
    requires AllHave(TagMatched(ds, es, keys), keys)
    requires forall i :: 0 <= i < |es| ==>
      FullMatch(ds, TagMatched(ds, es, keys)[i].ds, keys) == FullMatch(ds, es[i].ds, keys)
    ensures Tagged(Matches(ds, TagMatched(ds, es, keys), keys)) == Tagged(Matches(ds, es, keys))
  {
    if es != [] {
      var init, last := es[..|es| - 1], es[|es| - 1];
      var t := TagMatched(ds, es, keys);
      var tInit, tLast := t[..|t| - 1], t[|t| - 1];
      assert tInit == TagMatched(ds, init, keys);
      TaggedMatchesOfTagged(ds, init, keys);
      var mi, mt := Matches(ds, init, keys), Matches(ds, tInit, keys);
      if FullMatch(ds, last.ds, keys) {
        assert tLast == Entry(last.key, Tag(last));
        TagTwice(last);
        assert Matches(ds, t, keys) == mt + [tLast];
        assert Matches(ds, es, keys) == mi + [last];
        TaggedAppend(mt, [tLast]);
        TaggedAppend(mi, [last]);
      } else {
        assert Matches(ds, t, keys) == mt;
        assert Matches(ds, es, keys) == mi;
      }
    }
  }

  /** The score does not depend on the order of the two datasets. */
  lemma {:induction false} MatchAttrsSymmetric(a: Dataset, b: Dataset, keys: seq<string>)
    requires HasAttrs(a, keys) && HasAttrs(b, keys)
    ensures MatchAttrs(a, b, keys) == MatchAttrs(b, a, keys)
  {
    if keys != [] {
      MatchAttrsSymmetric(a, b, keys[1..]);
    }
  }

  /** The list `match_datasets` returns starts with `ds`; every later element is
      a matching entry's dataset tagged with that entry's key, and every
      matching entry is among them. */
  lemma MatchListShape(ds: Dataset, es: seq<Entry>, keys: seq<string>)
    requires HasAttrs(ds, keys) && AllHave(es, keys)
    ensures var ml, ms := MatchList(ds, es, keys), Matches(ds, es, keys);
      && |ml| == |ms| + 1 && ml[0] == ds
      && (forall i :: 1 <= i < |ml| ==>
            && ms[i - 1] in es && FullMatch(ds, ms[i - 1].ds, keys)
            && ml[i].attrs == ms[i - 1].ds.attrs[OriginalKey := ms[i - 1].key]
            && ml[i].attrs[OriginalKey] == ms[i - 1].key)
      && (forall e | e in es && FullMatch(ds, e.ds, keys) :: e in ms)
  {
    SplitMembers(ds, es, keys);
    var ms := Matches(ds, es, keys);
    forall j | 0 <= j < |ms| ensures ms[j] in es && FullMatch(ds, ms[j].ds, keys) {
      assert ms[j] in ms;
    }
  }

  /** The dictionary after `match_datasets` with or without `pop`. */
  function Remains(ds: Dataset, es: seq<Entry>, keys: seq<string>, pop: bool): seq<Entry>
    requires HasAttrs(ds, keys) && AllHave(es, keys)
  {
    if pop then Unmatched(ds, es, keys) else TagMatched(ds, es, keys)
  }

  /** What one turn of the loop of `match_datasets` keeps of entry `e`. */
  function KeptOf(ds: Dataset, e: Entry, keys: seq<string>, pop: bool): seq<Entry>
    requires HasAttrs(ds, keys) && HasAttrs(e.ds, keys)
  {
    if !FullMatch(ds, e.ds, keys) then [e] else if pop then [] else [Entry(e.key, Tag(e))]
  }

  /** What one turn of the loop of `match_datasets` adds to the list it returns. */
  function FoundOf(ds: Dataset, e: Entry, keys: seq<string>): seq<Dataset>
    requires HasAttrs(ds, keys) && HasAttrs(e.ds, keys)
  {
    if FullMatch(ds, e.ds, keys) then [Tag(e)] else []
  }

  /** One turn of the loop of `match_datasets` on entry `e`: the returned list. */
  lemma FoundStep(ds: Dataset, keys: seq<string>, prefix: seq<Entry>, e: Entry)
    requires HasAttrs(ds, keys) && AllHave(prefix, keys) && HasAttrs(e.ds, keys)
    ensures AllHave(prefix + [e], keys)
    ensures MatchList(ds, prefix + [e], keys) == MatchList(ds, prefix, keys) + FoundOf(ds, e, keys)
  {
    var ms := Matches(ds, prefix, keys);
    SnocMatches(ds, prefix, e, keys);
    if FullMatch(ds, e.ds, keys) {
      TaggedAppend(ms, [e]);
      assert Tagged([e]) == [Tag(e)];
    } else {
      assert Matches(ds, prefix + [e], keys) == ms;
    }
  }

  /** One turn of the loop of `match_datasets` on entry `e`: the dictionary. */
  lemma KeptStep(ds: Dataset, keys: seq<string>, pop: bool, prefix: seq<Entry>, e: Entry)
    requires HasAttrs(ds, keys) && AllHave(prefix, keys) && HasAttrs(e.ds, keys)
    ensures AllHave(prefix + [e], keys)
    ensures Remains(ds, prefix + [e], keys, pop) == Remains(ds, prefix, keys, pop) + KeptOf(ds, e, keys, pop)
  {
    if pop {
      SnocUnmatched(ds, prefix, e, keys);
    } else {
      SnocTagMatched(ds, prefix, e, keys);
    }
  }

  /** A dictionary of datasets, in insertion order, that the functions change in
      place. */
  class Registry {
    var entries: seq<Entry>

    ghost predicate Valid()
      reads this
    {
      DistinctKeys(entries)
    }

    constructor (es: seq<Entry>)
      requires DistinctKeys(es)
      ensures Valid() && entries == es
    {
      entries := es;
    }

    /** `ds_dict.pop(list(ds_dict.keys())[0])`: removes and returns the first entry. */
    method PopFirst() returns (e: Entry)
      requires Valid() && |entries| > 0
      modifies this
      ensures Valid()
      ensures e == old(entries)[0] && entries == old(entries)[1..]
    {
      e := entries[0];
      entries := entries[1..];
    }

    /** `match_datasets(ds, self, keys, pop)`: returns `ds` followed by every entry
        agreeing with `ds` on `keys`, each tagged with its key. With `pop` the
        matches leave the dictionary; without it they stay, tagged. */
    method MatchDatasets(ds: Dataset, keys: seq<string>, pop: bool) returns (datasets: seq<Dataset>)
      requires Valid() && HasAttrs(ds, keys) && AllHave(entries, keys)
      modifies this
      ensures Valid()
      ensures datasets == MatchList(ds, old(entries), keys)
      ensures entries == if pop then Unmatched(ds, old(entries), keys) else TagMatched(ds, old(entries), keys)
    {
      datasets := [ds];
      // the keys are listed before the loop, as `list(ds_dict.keys())` does; the
      // live dictionary is `kept` followed by the entries not yet visited
      var snapshot := entries;
      var kept: seq<Entry> := [];
      var i := 0;
      assert snapshot[..0] == [];
      while i < |snapshot|
        invariant 0 <= i <= |snapshot|
        invariant kept == Remains(ds, snapshot[..i], keys, pop)
        invariant datasets == MatchList(ds, snapshot[..i], keys)
      {
        var e := snapshot[i];
        assert snapshot[..i + 1] == snapshot[..i] + [e];
        FoundStep(ds, keys, snapshot[..i], e);
        KeptStep(ds, keys, pop, snapshot[..i], e);
        if MatchAttrs(ds, e.ds, keys) == |keys| {
          if !pop {
            kept := kept + [Entry(e.key, Tag(e))];
          }
          datasets := datasets + [Tag(e)];
        } else {
          kept := kept + [e];
        }
        i := i + 1;
      }
      assert snapshot[..i] == snapshot;
      entries := kept;
      if pop {
        UnmatchedDistinct(ds, snapshot, keys);
      } else {
        TagMatchedDistinct(ds, snapshot, keys);
      }
    }
  }
}
