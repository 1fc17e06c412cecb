/**
 The search box (`parse_query` and `apply_filter`, src/main.py:190-212). The query is
 lower-cased as a whole; its whitespace-separated words that hold a colon become
 field filters, and when there are none the whole lower-cased query, untrimmed, is
 searched for in every value of a record.
 */
module Query {
  import opened Text
  import opened Records
  import opened Tokenizer
  import opened LineFormat
  import opened Seqs

  /** `str.split()`: the maximal runs of non-whitespace, in order. */
  function Words(s: string): seq<string>
    decreases |s|
  {
    if s == [] then []
    else if IsSpace(s[0]) then Words(s[1..])
    else
      var e := BareEnd(s, 0);
      [s[..e]] + Words(s[e..])
  }

  /** A word: a non-empty run without whitespace. */
  predicate IsWord(w: string) {
    w != [] && NoSpace(w)
  }

  /** Every piece `str.split()` returns is a word. */
  lemma {:induction false} WordsAreWords(s: string)
    ensures forall n :: 0 <= n < |Words(s)| ==> IsWord(Words(s)[n])
    decreases |s|
  {
    if s != [] {
      if IsSpace(s[0]) {
        WordsAreWords(s[1..]);
      } else {
        var e := BareEnd(s, 0);
        BareEndMaximal(s, 0);
        WordsAreWords(s[e..]);
        var ws := Words(s);
        assert ws == [s[..e]] + Words(s[e..]);
        assert IsWord(s[..e]);
      }
    }
  }

  /** Words joined by single spaces: `' '.join(ws)`. */
  function JoinWords(ws: seq<string>): string
    decreases |ws|
  {
    if ws == [] then ""
    else if |ws| == 1 then ws[0]
    else ws[0] + " " + JoinWords(ws[1..])
  }

  /** Splitting words joined by single spaces gives the words back. */
  lemma {:induction false} WordsOfJoin(ws: seq<string>)
    requires forall n :: 0 <= n < |ws| ==> IsWord(ws[n])
    ensures Words(JoinWords(ws)) == ws
    decreases |ws|
  {
    if ws == [] {
    } else if |ws| == 1 {
      var w := ws[0];
      WordsOfSingle(w);
      calc {
        Words(JoinWords(ws));
        Words(w);
        [w];
        ws;
      }
    } else {
      var tail := ws[1..];
      assert forall n :: 0 <= n < |tail| ==> tail[n] == ws[n + 1];
      WordsOfJoin(tail);
      JoinWordsStart(tail);
      assert IsWord(ws[0]);
      WordsOfJoinStep(ws);
    }
  }

  lemma WordsOfSingle(w: string)
    requires IsWord(w)
    ensures Words(w) == [w]
  {
    WordsOfWord(w, "");
    assert w + "" == w;
  }

  lemma WordsOfJoinStep(ws: seq<string>)
    requires |ws| > 1 && IsWord(ws[0])
    requires JoinWords(ws[1..]) != [] && !IsSpace(JoinWords(ws[1..])[0])
    requires Words(JoinWords(ws[1..])) == ws[1..]
    ensures Words(JoinWords(ws)) == ws
  {
    var rest := JoinWords(ws[1..]);
    WordsAfterSpace(ws[0], rest);
    ConsTail(ws);
    calc {
      Words(JoinWords(ws));
      Words(ws[0] + " " + rest);
      [ws[0]] + Words(rest);
      [ws[0]] + ws[1..];
      ws;
    }
  }

  lemma ConsTail<T>(s: seq<T>)
    requires s != []
    ensures [s[0]] + s[1..] == s
  {
  }

  /** One word, a space, and then a string that starts with a word. */
  lemma WordsAfterSpace(w: string, rest: string)
    requires IsWord(w)
    requires rest != [] && !IsSpace(rest[0])
    ensures Words(w + " " + rest) == [w] + Words(rest)
  {
    assert w + " " + rest == w + (" " + rest);
    WordsOfWord(w, " " + rest);
    assert (" " + rest)[1..] == rest;
  }

  /** A joined line of words starts with a character that is not whitespace. */
  lemma JoinWordsStart(ws: seq<string>)
    requires ws != []
    requires forall n :: 0 <= n < |ws| ==> IsWord(ws[n])
    ensures JoinWords(ws) != [] && !IsSpace(JoinWords(ws)[0])
  {
    var w := ws[0];
    assert IsWord(w);
    assert !IsSpace(w[0]);
    if |ws| > 1 {
      var j := JoinWords(ws);
      assert j == w + " " + JoinWords(ws[1..]);
      assert j[0] == w[0];
    }
  }

  /** The first word of `w + rest`, where `rest` is empty or starts with whitespace, is `w`. */
  lemma WordsOfWord(w: string, rest: string)
    requires IsWord(w)
    requires rest == [] || IsSpace(rest[0])
    ensures Words(w + rest) == [w] + Words(rest)
  {
    var t := w + rest;
    BareEndIs(t, 0, |w|);
    assert t[..|w|] == w && t[|w|..] == rest;
  }

  /** A string of whitespace only has no words. */
  lemma {:induction false} WordsOfBlank(s: string)
    requires AllSpace(s)
    ensures Words(s) == []
    decreases |s|
  {
    if s != [] {
      WordsOfBlank(s[1..]);
    }
  }

  /**
   `part.split(':', 1)`: the text before the first colon and the text after it, or
   the part alone when it has no colon.
   */
  function SplitOnce(part: string): (pieces: seq<string>)
    ensures ':' in part ==> |pieces| == 2 && pieces[0] + ":" + pieces[1] == part && ':' !in pieces[0]
    ensures ':' !in part ==> pieces == [part]
  {
    var i := IndexOf(part, ':');
    if i == |part| then [part]
    else
      assert part[..i] + ":" + part[i + 1..] == part;
      assert forall k :: 0 <= k < i ==> part[..i][k] == part[k];
      [part[..i], part[i + 1..]]
  }

  /**
   The filters of `parse_query` after its loop has seen `words`: each word with a
   colon sets its lower-cased key to its lower-cased value; a `split` that gives
   other than two pieces would be skipped.
   */
  function FiltersOf(words: seq<string>): map<string, string>
    decreases |words|
  {
    if words == [] then map[]
    else
      var filters := FiltersOf(words[..|words| - 1]);
      var part := words[|words| - 1];
      if ':' in part then
        var pieces := SplitOnce(part);
        if |pieces| == 2 then filters[Lower(pieces[0]) := Lower(pieces[1])] else filters
      else filters
  }

  /** `parse_query`. */
  function ParseQuery(query: string): map<string, string> {
    FiltersOf(Words(query))
  }

  /** The filter key and value a word with a colon sets. */
  function FilterKey(w: string): string
    requires ':' in w
  {
    Lower(SplitOnce(w)[0])
  }

  function FilterValue(w: string): string
    requires ':' in w
  {
    Lower(SplitOnce(w)[1])
  }

  /** `n` is the last word with a colon setting its key. */
  predicate LastFilterOfKey(words: seq<string>, n: nat)
    requires n < |words| && ':' in words[n]
  {
    forall m :: n < m < |words| && ':' in words[m] ==> FilterKey(words[m]) != FilterKey(words[n])
  }

  /** One more word: a word with a colon sets its key, any other leaves the filters alone. */
  lemma FiltersOfSnoc(init: seq<string>, w: string)
    ensures ':' in w ==> FiltersOf(init + [w]) == FiltersOf(init)[FilterKey(w) := FilterValue(w)]
    ensures ':' !in w ==> FiltersOf(init + [w]) == FiltersOf(init)
  {
    assert (init + [w])[..|init + [w]| - 1] == init;
  }

  /** The filters are set exactly by the words with a colon. */
  lemma {:induction false} FiltersOfKeys(words: seq<string>)
    ensures forall k :: k in FiltersOf(words) <==>
              exists n :: 0 <= n < |words| && ':' in words[n] && FilterKey(words[n]) == k
    decreases |words|
  {
    if words != [] {
      var init, w := words[..|words| - 1], words[|words| - 1];
      assert words == init + [w];
      FiltersOfKeys(init);
      FiltersOfSnoc(init, w);
      forall k
        ensures k in FiltersOf(words) <==>
                exists n :: 0 <= n < |words| && ':' in words[n] && FilterKey(words[n]) == k
      {
        if k in FiltersOf(words) {
          if ':' in w && FilterKey(w) == k {
            assert words[|words| - 1] == w;
          } else {
            var n :| 0 <= n < |init| && ':' in init[n] && FilterKey(init[n]) == k;
            assert words[n] == init[n];
          }
        }
        if exists n :: 0 <= n < |words| && ':' in words[n] && FilterKey(words[n]) == k {
          var n :| 0 <= n < |words| && ':' in words[n] && FilterKey(words[n]) == k;
          if n < |init| {
            assert init[n] == words[n];
          }
        }
      }
    }
  }

  /** A key set by several words keeps the value of the last of them. */
  lemma {:induction false} FiltersOfLastWins(words: seq<string>)
    ensures forall n :: 0 <= n < |words| && ':' in words[n] && LastFilterOfKey(words, n) ==>
              FilterKey(words[n]) in FiltersOf(words) &&
              FiltersOf(words)[FilterKey(words[n])] == FilterValue(words[n])
    decreases |words|
  {
    if words != [] {
      var init, w := words[..|words| - 1], words[|words| - 1];
      assert words == init + [w];
      FiltersOfLastWins(init);
      FiltersOfSnoc(init, w);
      forall n | 0 <= n < |words| && ':' in words[n] && LastFilterOfKey(words, n)
        ensures FilterKey(words[n]) in FiltersOf(words)
        ensures FiltersOf(words)[FilterKey(words[n])] == FilterValue(words[n])
      {
        if n < |init| {
          assert init[n] == words[n];
          forall m | n < m < |init| && ':' in init[m]
            ensures FilterKey(init[m]) != FilterKey(init[n])
          {
            assert init[m] == words[m];
          }
          assert LastFilterOfKey(init, n);
          if ':' in w {
            assert words[|words| - 1] == w;
            assert FilterKey(w) != FilterKey(words[n]);
          }
        }
      }
    }
  }

  /** A word without a colon never changes the filters, wherever it stands. */
  lemma {:induction false} FiltersIgnoreBare(a: seq<string>, w: string, b: seq<string>)
    requires ':' !in w
    ensures FiltersOf(a + [w] + b) == FiltersOf(a + b)
    decreases |b|
  {
    if b == [] {
      assert (a + [w])[..|a|] == a;
      assert a + [w] + b == a + [w];
      assert a + b == a;
    } else {
      var b' := b[..|b| - 1];
      assert (a + [w] + b)[..|a + [w] + b| - 1] == a + [w] + b';
      assert (a + b)[..|a + b| - 1] == a + b';
      FiltersIgnoreBare(a, w, b');
    }
  }

  /** The test `apply_filter` makes of one record, given the lower-cased query and its filters. */
  predicate Keeps(filters: map<string, string>, q: string, rec: Record) {
    if filters != map[] then
      forall k :: k in filters ==> IsSubstring(filters[k], Lower(Get(rec, k, "")))
    else
      q == [] || exists k :: k in rec && IsSubstring(q, Lower(rec[k]))
  }

  function KeepRecord(filters: map<string, string>, q: string): Record -> bool {
    rec => Keeps(filters, q, rec)
  }

  /** `apply_filter`: the records of `logs` that pass the query, in their order. */
  function FilterLogs(logs: seq<Record>, query: string): seq<Record> {
    var q := Lower(query);
    Select(logs, KeepRecord(ParseQuery(q), q))
  }

  /**
   A record is in the view exactly when it is in the log and passes the query, as
   often as it occurs in the log.
   */
  lemma FilterLogsSpec(logs: seq<Record>, query: string)
    ensures var q := Lower(query);
            forall rec :: rec in FilterLogs(logs, query) <==> rec in logs && Keeps(ParseQuery(q), q, rec)
    ensures var q := Lower(query);
            forall rec :: multiset(FilterLogs(logs, query))[rec] ==
                          if Keeps(ParseQuery(q), q, rec) then multiset(logs)[rec] else 0
  {
    var q := Lower(query);
    SelectMembers(logs, KeepRecord(ParseQuery(q), q));
    forall rec
      ensures multiset(FilterLogs(logs, query))[rec] ==
              if Keeps(ParseQuery(q), q, rec) then multiset(logs)[rec] else 0
    {
      SelectCount(logs, KeepRecord(ParseQuery(q), q), rec);
    }
  }

  /** Filtering keeps the log's order: it works piecewise on a split log. */
  lemma FilterLogsAppend(a: seq<Record>, b: seq<Record>, query: string)
    ensures FilterLogs(a + b, query) == FilterLogs(a, query) + FilterLogs(b, query)
  {
    var q := Lower(query);
    SelectAppend(a, b, KeepRecord(ParseQuery(q), q));
  }

  /** An empty query keeps every record. */
  lemma EmptyQueryKeepsAll(logs: seq<Record>)
    ensures FilterLogs(logs, "") == logs
  {
    assert Lower("") == "";
    WordsOfBlank("");
    SelectAll(logs, KeepRecord(map[], ""));
  }

  /** A whitespace-only query has no filters, and its needle is the whitespace itself. */
  lemma BlankQuery(query: string, rec: Record)
    requires AllSpace(query)
    ensures ParseQuery(Lower(query)) == map[]
    ensures Keeps(ParseQuery(Lower(query)), Lower(query), rec) <==>
            query == [] || exists k :: k in rec && IsSubstring(query, Lower(rec[k]))
  {
    LowerFixesLowered(query);
    WordsOfBlank(query);
  }

  /** Without filters, a non-empty needle drops every record without fields. */
  lemma FieldlessDropped(q: string)
    requires q != []
    ensures !Keeps(map[], q, map[])
  {
  }

  /** A filter with an empty value (`key:`) passes every record, whether it has the key or not. */
  lemma EmptyFilterValuesPassAll(filters: map<string, string>, q: string, rec: Record)
    requires filters != map[]
    requires forall k :: k in filters ==> filters[k] == ""
    ensures Keeps(filters, q, rec)
  {
    forall k | k in filters
      ensures IsSubstring(filters[k], Lower(Get(rec, k, "")))
    {
      EmptyIsSubstring(Lower(Get(rec, k, "")));
    }
  }

  /**
   Filter keys are lower-cased but record keys are not: a record whose only key holds
   an upper-case letter fails a filter on that key with a non-empty value.
   */
  lemma FilterKeyCaseMatters(k: string, v: string, x: string)
    requires Lower(k) != k
    requires x != []
    ensures !Keeps(map[Lower(k) := x], "", map[k := v])
  {
    assert Get(map[k := v], Lower(k), "") == "";
    assert Lower("") == "";
    SubstringOccurs(x, "");
  }

  /** A query made of one word `key:value` sets exactly one filter, both sides lower-cased. */
  lemma SingleFilterQuery(w: string)
    requires IsWord(w) && ':' in w
    ensures ParseQuery(w) == map[FilterKey(w) := FilterValue(w)]
  {
    WordsOfWord(w, "");
    WordsOfBlank("");
    assert w + "" == w;
    assert Words(w) == [w];
    assert [w][..0] == [];
    var pieces := SplitOnce(w);
    assert FiltersOf([w]) == map[][Lower(pieces[0]) := Lower(pieces[1])];
  }
}
