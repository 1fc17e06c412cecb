/**
 The statistics panel (`update_stats`, src/main.py:259-281): a `Counter` of the
 `action`, `level` and `srcip` values of the filtered view, a missing field counting
 as `"unknown"`, and the `most_common` 5, 5 and 8 of each.

 A `Counter` remembers its keys in the order they were first seen, and
 `most_common(n)` is `sorted(items, key=count, reverse=True)[:n]` with Python's
 stable sort, so equal counts keep first-seen order.
 */
module Stats {
  import opened Text
  import opened Records
  import opened Seqs
  import opened Sorting

  type Entry = (string, nat)

  /** `log.get(field, 'unknown')`. */
  function FieldOf(field: string): Record -> string {
    rec => Get(rec, field, "unknown")
  }

  /** The values a Counter over the view sees, one per record, in view order. */
  function Values(view: seq<Record>, field: string): (vs: seq<string>)
    ensures |vs| == |view|
    ensures forall n :: 0 <= n < |view| ==> vs[n] == Get(view[n], field, "unknown")
  {
    MapSeq(view, FieldOf(field))
  }

  function Keys(t: seq<Entry>): (ks: seq<string>)
    ensures |ks| == |t|
    ensures forall i :: 0 <= i < |t| ==> ks[i] == t[i].0
  {
    seq(|t|, i requires 0 <= i < |t| => t[i].0)
  }

  /** `counter[v] += 1`: bump an existing key in place, or add a new key at the end. */
  function Bump(t: seq<Entry>, v: string): seq<Entry> {
    var i := IndexOf(Keys(t), v);
    if i < |t| then t[i := (v, t[i].1 + 1)] else t + [(v, 1)]
  }

  /** `Counter(vals)`, as its items in insertion order. */
  function Tally(vals: seq<string>): seq<Entry>
    decreases |vals|
  {
    if vals == [] then [] else Bump(Tally(vals[..|vals| - 1]), vals[|vals| - 1])
  }

  /** The entries of a tally, in the order their values first occur in `vals`. */
  predicate FirstSeenOrder(t: seq<Entry>, vals: seq<string>) {
    forall i, j :: 0 <= i < j < |t| ==> IndexOf(vals, t[i].0) < IndexOf(vals, t[j].0)
  }

  /** A value's first occurrence does not move when more values follow. */
  lemma IndexOfSnoc(vals: seq<string>, v: string, k: string)
    requires k in vals
    ensures IndexOf(vals + [v], k) == IndexOf(vals, k)
  {
    var i := IndexOf(vals, k);
    var j := IndexOf(vals + [v], k);
    assert (vals + [v])[i] == k;
    if j < i {
      assert vals[j] == (vals + [v])[j];
    }
  }

  /**
   The tally holds every value of `vals` once, with the number of times it occurs,
   in the order of first occurrence.
   */
  lemma {:induction false} TallySpec(vals: seq<string>)
    ensures forall i :: 0 <= i < |Tally(vals)| ==> Tally(vals)[i].0 in vals
    ensures forall v :: v in vals ==> v in Keys(Tally(vals))
    ensures forall i :: 0 <= i < |Tally(vals)| ==> Tally(vals)[i].1 == multiset(vals)[Tally(vals)[i].0]
    ensures FirstSeenOrder(Tally(vals), vals)
    decreases |vals|
  {
    if vals != [] {
      var init, v := vals[..|vals| - 1], vals[|vals| - 1];
      TallySpec(init);
      assert vals == init + [v];
      TallyStep(init, v);
    }
  }

  lemma TallyStep(init: seq<string>, v: string)
    requires forall i :: 0 <= i < |Tally(init)| ==> Tally(init)[i].0 in init
    requires forall w :: w in init ==> w in Keys(Tally(init))
    requires forall i :: 0 <= i < |Tally(init)| ==> Tally(init)[i].1 == multiset(init)[Tally(init)[i].0]
    requires FirstSeenOrder(Tally(init), init)
    ensures var vals, t := init + [v], Tally(init + [v]);
            && (forall i :: 0 <= i < |t| ==> t[i].0 in vals)
            && (forall w :: w in vals ==> w in Keys(t))
            && (forall i :: 0 <= i < |t| ==> t[i].1 == multiset(vals)[t[i].0])
            && FirstSeenOrder(t, vals)
  {
    var vals := init + [v];
    var t0 := Tally(init);
    assert vals[..|vals| - 1] == init;
    var t := Tally(vals);
    assert t == Bump(t0, v);
    forall k | k in init
      ensures IndexOf(vals, k) == IndexOf(init, k)
    {
      IndexOfSnoc(init, v, k);
    }
    var i := IndexOf(Keys(t0), v);
    if i < |t0| {
      BumpFound(t0, init, v);
    } else {
      BumpNew(t0, init, v);
    }
  }

  /** A value seen before: its count goes up by one and nothing else changes. */
  lemma BumpFound(t0: seq<Entry>, init: seq<string>, v: string)
    requires v in Keys(t0)
    requires forall i :: 0 <= i < |t0| ==> t0[i].0 in init
    requires forall w :: w in init ==> w in Keys(t0)
    requires forall i :: 0 <= i < |t0| ==> t0[i].1 == multiset(init)[t0[i].0]
    requires FirstSeenOrder(t0, init)
    requires forall k :: k in init ==> IndexOf(init + [v], k) == IndexOf(init, k)
    ensures var vals, t := init + [v], Bump(t0, v);
            && (forall i :: 0 <= i < |t| ==> t[i].0 in vals)
            && (forall w :: w in vals ==> w in Keys(t))
            && (forall i :: 0 <= i < |t| ==> t[i].1 == multiset(vals)[t[i].0])
            && FirstSeenOrder(t, vals)
  {
    var vals, t := init + [v], Bump(t0, v);
    var i := IndexOf(Keys(t0), v);
    assert t == t0[i := (v, t0[i].1 + 1)];
    BumpKeepsKeys(t0, v);
    FirstSeenDistinct(t0, init);
    forall j | 0 <= j < |t|
      ensures t[j].1 == multiset(vals)[t[j].0]
    {
      if j != i {
        assert Keys(t0)[j] != Keys(t0)[i];
      }
    }
  }

  /** Bumping a value that is already there keeps the keys and their order. */
  lemma BumpKeepsKeys(t0: seq<Entry>, v: string)
    requires v in Keys(t0)
    ensures Keys(Bump(t0, v)) == Keys(t0)
  {
  }

  /** Entries in first-seen order have distinct keys. */
  lemma FirstSeenDistinct(t: seq<Entry>, vals: seq<string>)
    requires FirstSeenOrder(t, vals)
    ensures Distinct(Keys(t))
  {
    forall i, j | 0 <= i < j < |t|
      ensures Keys(t)[i] != Keys(t)[j]
    {
      assert IndexOf(vals, t[i].0) < IndexOf(vals, t[j].0);
    }
  }

  /** A new value: it joins at the end with a count of one. */
  lemma BumpNew(t0: seq<Entry>, init: seq<string>, v: string)
    requires v !in Keys(t0)
    requires forall i :: 0 <= i < |t0| ==> t0[i].0 in init
    requires forall w :: w in init ==> w in Keys(t0)
    requires forall i :: 0 <= i < |t0| ==> t0[i].1 == multiset(init)[t0[i].0]
    requires FirstSeenOrder(t0, init)
    requires forall k :: k in init ==> IndexOf(init + [v], k) == IndexOf(init, k)
    ensures var vals, t := init + [v], Bump(t0, v);
            && (forall i :: 0 <= i < |t| ==> t[i].0 in vals)
            && (forall w :: w in vals ==> w in Keys(t))
            && (forall i :: 0 <= i < |t| ==> t[i].1 == multiset(vals)[t[i].0])
            && FirstSeenOrder(t, vals)
  {
    assert Bump(t0, v) == t0 + [(v, 1)];
    assert v !in init;
    forall i | 0 <= i < |t0|
      ensures t0[i].0 != v
    {
      assert Keys(t0)[i] == t0[i].0;
    }
    AppendNewCounts(t0, init, v);
    AppendNewOrder(t0, init, v);
    AppendNewCover(t0, init, v);
  }

  lemma AppendNewCounts(t0: seq<Entry>, init: seq<string>, v: string)
    requires forall i :: 0 <= i < |t0| ==> t0[i].0 != v
    requires forall i :: 0 <= i < |t0| ==> t0[i].1 == multiset(init)[t0[i].0]
    requires v !in init
    ensures var t := t0 + [(v, 1)];
            forall i :: 0 <= i < |t| ==> t[i].1 == multiset(init + [v])[t[i].0]
  {
    var t := t0 + [(v, 1)];
    assert multiset(init + [v]) == multiset(init) + multiset{v};
    forall i | 0 <= i < |t|
      ensures t[i].1 == multiset(init + [v])[t[i].0]
    {
      if i < |t0| {
        assert t[i] == t0[i];
      }
    }
  }

  lemma AppendNewOrder(t0: seq<Entry>, init: seq<string>, v: string)
    requires forall i :: 0 <= i < |t0| ==> t0[i].0 in init
    requires FirstSeenOrder(t0, init)
    requires v !in init
    requires forall k :: k in init ==> IndexOf(init + [v], k) == IndexOf(init, k)
    ensures FirstSeenOrder(t0 + [(v, 1)], init + [v])
  {
    var vals, t := init + [v], t0 + [(v, 1)];
    assert IndexOf(vals, v) == |init| by {
      assert vals[|init|] == v;
    }
    forall i, j | 0 <= i < j < |t|
      ensures IndexOf(vals, t[i].0) < IndexOf(vals, t[j].0)
    {
      assert t[i] == t0[i] && t0[i].0 in init;
      if j == |t0| {
        assert IndexOf(init, t0[i].0) < |init|;
      } else {
        assert t[j] == t0[j] && t0[j].0 in init;
      }
    }
  }

  lemma AppendNewCover(t0: seq<Entry>, init: seq<string>, v: string)
    requires forall i :: 0 <= i < |t0| ==> t0[i].0 in init
    requires forall w :: w in init ==> w in Keys(t0)
    ensures var vals, t := init + [v], t0 + [(v, 1)];
            && (forall i :: 0 <= i < |t| ==> t[i].0 in vals)
            && (forall w :: w in vals ==> w in Keys(t))
  {
    var vals, t := init + [v], t0 + [(v, 1)];
    forall i | 0 <= i < |t|
      ensures t[i].0 in vals
    {
      if i < |t0| {
        assert t[i] == t0[i];
      }
    }
    forall w | w in vals
      ensures w in Keys(t)
    {
      if w != v {
        var j := IndexOf(Keys(t0), w);
        assert Keys(t)[j] == w;
      } else {
        assert Keys(t)[|t0|] == v;
      }
    }
  }

  /** Take the first `n`, or all when there are fewer: `items[:n]`. */
  function Take<T>(s: seq<T>, n: nat): (r: seq<T>)
    ensures |r| == if n < |s| then n else |s|
    ensures r <= s
  {
    if n < |s| then s[..n] else s
  }

  /** The sort key of an entry: its count. */
  function CountOf(e: Entry): SortKey {
    Num(e.1 as real)
  }

  /** `Counter.most_common(n)`. */
  function MostCommon(t: seq<Entry>, n: nat): seq<Entry> {
    Take(Sort(t, CountOf, false), n)
  }

  /** Selecting from a prefix gives a prefix of the selection. */
  lemma SelectPrefix<T>(s: seq<T>, m: nat, p: T -> bool)
    requires m <= |s|
    ensures Select(s[..m], p) <= Select(s, p)
  {
    assert s == s[..m] + s[m..];
    SelectAppend(s[..m], s[m..], p);
    assert Select(s, p) == Select(s[..m], p) + Select(s[m..], p);
  }

  /** `most_common(n)` lists `min(n, len)` entries, all taken from the tally. */
  lemma MostCommonSize(t: seq<Entry>, n: nat)
    ensures var r := MostCommon(t, n);
            |r| == (if n < |t| then n else |t|) && multiset(r) <= multiset(t)
  {
    var s := Sort(t, CountOf, false);
    var r := MostCommon(t, n);
    SortPermutes(t, CountOf, false);
    assert s == r + s[|r|..];
    assert multiset(s) == multiset(r) + multiset(s[|r|..]);
  }

  /** The counts of `most_common(n)` never increase. */
  lemma MostCommonDescending(t: seq<Entry>, n: nat)
    ensures var r := MostCommon(t, n);
            forall i, j :: 0 <= i < j < |r| ==> r[i].1 >= r[j].1
  {
    var s := Sort(t, CountOf, false);
    var r := MostCommon(t, n);
    SortOrdered(t, CountOf, false);
    forall i, j | 0 <= i < j < |r|
      ensures r[i].1 >= r[j].1
    {
      assert r[i] == s[i] && r[j] == s[j];
      assert !Prec(CountOf(s[j]), CountOf(s[i]), false);
    }
  }

  /** No entry left out of `most_common(n)` has a larger count than one listed. */
  lemma MostCommonTop(t: seq<Entry>, n: nat)
    ensures var r := MostCommon(t, n);
            forall e, i :: e in t && e !in r && 0 <= i < |r| ==> e.1 <= r[i].1
  {
    var s := Sort(t, CountOf, false);
    var r := MostCommon(t, n);
    SortPermutes(t, CountOf, false);
    SortOrdered(t, CountOf, false);
    forall e, i | e in t && e !in r && 0 <= i < |r|
      ensures e.1 <= r[i].1
    {
      assert e in multiset(s);
      var j :| 0 <= j < |s| && s[j] == e;
      assert forall m :: 0 <= m < |r| ==> r[m] == s[m];
      assert j >= |r|;
      assert r[i] == s[i];
      assert !Prec(CountOf(s[j]), CountOf(s[i]), false);
    }
  }

  /**
   Ties keep first-seen order: the listed entries with any one count are the first
   entries of the tally with that count, in tally order.
   */
  lemma MostCommonTies(t: seq<Entry>, n: nat, k: SortKey)
    ensures Select(MostCommon(t, n), HasKey(CountOf, k)) <= Select(t, HasKey(CountOf, k))
  {
    var s := Sort(t, CountOf, false);
    var r := MostCommon(t, n);
    SortStable(t, CountOf, false, k);
    SelectPrefix(s, |r|, HasKey(CountOf, k));
  }

  /** The three lists of the panel. */
  datatype Panel = Panel(actions: seq<Entry>, levels: seq<Entry>, srcips: seq<Entry>)

  /** `update_stats`: nothing for an empty view, else the top 5 actions, 5 levels and 8 sources. */
  function UpdateStats(view: seq<Record>): (p: Panel)
    ensures view == [] ==> p == Panel([], [], [])
  {
    if view == [] then Panel([], [], [])
    else Panel(
      MostCommon(Tally(Values(view, "action")), 5),
      MostCommon(Tally(Values(view, "level")), 5),
      MostCommon(Tally(Values(view, "srcip")), 8))
  }

  /** How many records of the view show `v` in `field`, a missing field showing `"unknown"`. */
  function CountIn(view: seq<Record>, field: string, v: string): nat {
    multiset(Values(view, field))[v]
  }

  /** An entry of a tally counts a value of `vals`, which occurs there at least once. */
  lemma TallyEntry(vals: seq<string>, e: Entry)
    requires e in Tally(vals)
    ensures e.0 in vals && e.1 == multiset(vals)[e.0] >= 1
  {
    TallySpec(vals);
  }

  /**
   Every listed entry counts the records whose field holds its value, and a listed
   value occurs in the view.
   */
  lemma TopEntriesCount(view: seq<Record>, field: string, n: nat)
    ensures var r := MostCommon(Tally(Values(view, field)), n);
            forall i :: 0 <= i < |r| ==>
              r[i].1 == CountIn(view, field, r[i].0) >= 1 &&
              exists m :: 0 <= m < |view| && Get(view[m], field, "unknown") == r[i].0
  {
    var vals := Values(view, field);
    var t := Tally(vals);
    var r := MostCommon(t, n);
    MostCommonSize(t, n);
    forall i | 0 <= i < |r|
      ensures r[i].1 == CountIn(view, field, r[i].0) >= 1
      ensures exists m :: 0 <= m < |view| && Get(view[m], field, "unknown") == r[i].0
    {
      assert r[i] in multiset(t);
      TallyEntry(vals, r[i]);
      var m :| 0 <= m < |vals| && vals[m] == r[i].0;
    }
  }

  /** No value occurs twice in a tally. */
  lemma TallyDistinct(vals: seq<string>)
    ensures Distinct(Keys(Tally(vals)))
  {
    TallySpec(vals);
  }

  /** A tally has one entry per distinct value. */
  lemma TallySize(vals: seq<string>)
    ensures |Tally(vals)| == |set v | v in vals|
  {
    var ks := Keys(Tally(vals));
    TallySpec(vals);
    TallyDistinct(vals);
    DistinctCard(ks);
    assert (set v | v in ks) == (set v | v in vals);
  }

  /** A sequence without repetitions has as many elements as its set. */
  lemma {:induction false} DistinctCard<T>(s: seq<T>)
    requires Distinct(s)
    ensures |set x | x in s| == |s|
    decreases |s|
  {
    if s != [] {
      var init := s[..|s| - 1];
      assert Distinct(init);
      DistinctCard(init);
      assert (set x | x in s) == (set x | x in init) + {s[|s| - 1]};
      assert s[|s| - 1] !in init;
    }
  }

  /** Each panel list has `min(N, number of distinct values)` entries: N is 5, 5 and 8. */
  lemma PanelSizes(view: seq<Record>)
    requires view != []
    ensures var p := UpdateStats(view);
            var vs := (set v | v in Values(view, "action"));
            var ls := (set v | v in Values(view, "level"));
            var ss := (set v | v in Values(view, "srcip"));
            |p.actions| == (if 5 < |vs| then 5 else |vs|) &&
            |p.levels| == (if 5 < |ls| then 5 else |ls|) &&
            |p.srcips| == (if 8 < |ss| then 8 else |ss|)
  {
    TallySize(Values(view, "action"));
    MostCommonSize(Tally(Values(view, "action")), 5);
    TallySize(Values(view, "level"));
    MostCommonSize(Tally(Values(view, "level")), 5);
    TallySize(Values(view, "srcip"));
    MostCommonSize(Tally(Values(view, "srcip")), 8);
  }

  /**
   A ranking of the values of `field` in the view: every listed entry counts the
   records showing its value, the counts never increase, and no value of the view
   left off the list occurs more often than a listed one.
   */
  predicate TopList(view: seq<Record>, field: string, r: seq<Entry>) {
    && (forall i :: 0 <= i < |r| ==> r[i].1 == CountIn(view, field, r[i].0) >= 1)
    && (forall i, j :: 0 <= i < j < |r| ==> r[i].1 >= r[j].1)
    && (forall m, i :: 0 <= m < |view| && 0 <= i < |r| && Get(view[m], field, "unknown") !in Keys(r) ==>
          CountIn(view, field, Get(view[m], field, "unknown")) <= r[i].1)
  }

  /** `most_common(n)` of the Counter of a field is a ranking of that field's values. */
  lemma MostCommonRanks(view: seq<Record>, field: string, n: nat)
    ensures TopList(view, field, MostCommon(Tally(Values(view, field)), n))
  {
    var vals := Values(view, field);
    var t := Tally(vals);
    var r := MostCommon(t, n);
    TopEntriesCount(view, field, n);
    MostCommonDescending(t, n);
    MostCommonTop(t, n);
    TallySpec(vals);
    forall m, i | 0 <= m < |view| && 0 <= i < |r| && Get(view[m], field, "unknown") !in Keys(r)
      ensures CountIn(view, field, Get(view[m], field, "unknown")) <= r[i].1
    {
      var v := vals[m];
      assert v in vals;
      var j :| 0 <= j < |t| && Keys(t)[j] == v;
      var e := t[j];
      assert e in t && e.0 == v;
    }
  }

  /**
   The panel ranks the actions, levels and source addresses of the view: each list
   counts its values correctly, in non-increasing order, and leaves out no value
   that occurs more often than a listed one.
   */
  lemma PanelRanks(view: seq<Record>)
    ensures var p := UpdateStats(view);
            TopList(view, "action", p.actions) && TopList(view, "level", p.levels) && TopList(view, "srcip", p.srcips)
  {
    if view != [] {
      MostCommonRanks(view, "action", 5);
      MostCommonRanks(view, "level", 5);
      MostCommonRanks(view, "srcip", 8);
    }
  }
}
