/**
 The table the analyzer shows and exports: its column list, derived from the keys
 of all loaded records (`load_file`, src/main.py:138-140), and the projection of a
 record onto those columns (src/main.py:174 and 229).
 */
module Table {
  import opened Text
  import opened Records
  import opened Seqs

  /** The columns that come first when present, in this order. */
  const Priority: seq<string> := ["date", "time", "user", "srcip", "dstip", "action", "status", "level", "msg"]

  /** Place of a column name in Priority, or `|Priority|` for every other name. */
  function Rank(c: string): (r: nat)
    ensures r <= |Priority|
    ensures r < |Priority| <==> c in Priority
    ensures r < |Priority| ==> Priority[r] == c
  {
    IndexOf(Priority, c)
  }

  lemma PriorityDistinct()
    ensures Distinct(Priority)
  {
  }

  /** Priority lists its names in increasing Rank. */
  lemma PriorityRanked()
    ensures forall i, j :: 0 <= i < j < |Priority| ==> Rank(Priority[i]) < Rank(Priority[j])
  {
    PriorityDistinct();
    forall i | 0 <= i < |Priority|
      ensures Rank(Priority[i]) == i
    {
      IndexOfDistinct(Priority, i);
    }
  }

  function InKeys(keys: set<string>): string -> bool {
    c => c in keys
  }

  function NotIn(cs: seq<string>): string -> bool {
    c => c !in cs
  }

  /** `[c for c in priority if c in all_keys]`. */
  function Present(keys: set<string>): (p: seq<string>)
    ensures forall c :: c in p <==> c in Priority && c in keys
  {
    SelectMembers(Priority, InKeys(keys));
    Select(Priority, InKeys(keys))
  }

  /** `m` is the least element of `keys` in code-point order. */
  predicate IsMin(m: string, keys: set<string>) {
    m in keys && forall k :: k in keys ==> k == m || LexLt(m, k)
  }

  /** Adding one element to a set with a least element: the least is the old one or the new one. */
  lemma MinInsert(x: string, rest: set<string>, m: string)
    requires IsMin(m, rest)
    ensures IsMin(x, rest + {x}) || IsMin(m, rest + {x})
  {
    if x != m {
      LexTotal(x, m);
      if LexLt(x, m) {
        forall k | k in rest + {x}
          ensures k == x || LexLt(x, k)
        {
          if k != x && k != m {
            LexTransitive(x, m, k);
          }
        }
      }
    }
  }

  /** A set of strings with at least one element has a least one in code-point order. */
  lemma {:induction false} MinExists(keys: set<string>)
    requires keys != {}
    ensures exists m :: IsMin(m, keys)
    decreases keys
  {
    var x :| x in keys;
    var rest := keys - {x};
    assert keys == rest + {x};
    if rest == {} {
      assert IsMin(x, keys);
    } else {
      MinExists(rest);
      var m :| IsMin(m, rest);
      MinInsert(x, rest, m);
    }
  }

  /** Lexicographic order is asymmetric, stated for all pairs. */
  lemma LexAsymmetricAll()
    ensures forall a, b :: LexLt(a, b) ==> !LexLt(b, a)
  {
    forall a, b | LexLt(a, b)
      ensures !LexLt(b, a)
    {
      LexAsymmetric(a, b);
    }
  }

  /** The least key of a non-empty set. */
  function MinKey(keys: set<string>): (m: string)
    requires keys != {}
    ensures m in keys
    ensures forall k :: k in keys ==> k == m || LexLt(m, k)
  {
    MinExists(keys);
    LexAsymmetricAll();
    var m :| IsMin(m, keys);
    m
  }

  /** `sorted(keys)`: every key once, in ascending code-point order. */
  function SortedKeys(keys: set<string>): (cs: seq<string>)
    ensures |cs| == |keys|
    ensures forall c :: c in cs <==> c in keys
    ensures forall i, j :: 0 <= i < j < |cs| ==> LexLt(cs[i], cs[j])
    decreases keys
  {
    if keys == {} then []
    else
      var m := MinKey(keys);
      [m] + SortedKeys(keys - {m})
  }

  /**
   The column list of `load_file`: the priority names that occur, then every other
   key in ascending order.
   */
  function Columns(keys: set<string>): seq<string>
  {
    var present := Present(keys);
    present + Select(SortedKeys(keys), NotIn(present))
  }

  /** The columns are exactly the keys, each once. */
  lemma ColumnsKeys(keys: set<string>)
    ensures forall c :: c in Columns(keys) <==> c in keys
    ensures Distinct(Columns(keys))
  {
    var present := Present(keys);
    var sorted := SortedKeys(keys);
    var rest := Select(sorted, NotIn(present));
    SelectMembers(sorted, NotIn(present));
    PriorityDistinct();
    SelectDistinct(Priority, InKeys(keys));
    RestDistinct(keys);
    DistinctAppend(present, rest);
  }

  lemma RestDistinct(keys: set<string>)
    ensures Distinct(Select(SortedKeys(keys), NotIn(Present(keys))))
  {
    var rest := Select(SortedKeys(keys), NotIn(Present(keys)));
    SelectPairwise(SortedKeys(keys), NotIn(Present(keys)), (a: string, b: string) => LexLt(a, b));
    forall i, j | 0 <= i < j < |rest|
      ensures rest[i] != rest[j]
    {
      LexIrreflexive(rest[i]);
    }
  }

  lemma DistinctAppend(a: seq<string>, b: seq<string>)
    requires Distinct(a) && Distinct(b)
    requires forall x :: x in a ==> x !in b
    ensures Distinct(a + b)
  {
    forall i, j | 0 <= i < j < |a + b|
      ensures (a + b)[i] != (a + b)[j]
    {
      if i < |a| && j >= |a| {
        assert (a + b)[i] in a && (a + b)[j] in b;
      }
    }
  }

  /** The leading block holds the priority names that occur, in priority order. */
  lemma ColumnsLead(keys: set<string>)
    ensures |Present(keys)| <= |Columns(keys)|
    ensures forall i :: 0 <= i < |Present(keys)| ==> Columns(keys)[i] in Priority && Columns(keys)[i] in keys
    ensures forall i, j :: 0 <= i < j < |Present(keys)| ==> Rank(Columns(keys)[i]) < Rank(Columns(keys)[j])
  {
    var present := Present(keys);
    PriorityRanked();
    SelectPairwise(Priority, InKeys(keys), (a: string, b: string) => Rank(a) < Rank(b));
    assert forall i :: 0 <= i < |present| ==> Columns(keys)[i] == present[i];
  }

  /** The columns after the leading block are the remaining keys. */
  lemma ColumnsRest(keys: set<string>)
    ensures var present := Present(keys);
            var rest := Select(SortedKeys(keys), NotIn(present));
            && |Columns(keys)| == |present| + |rest|
            && forall i :: |present| <= i < |Columns(keys)| ==> Columns(keys)[i] == rest[i - |present|]
  {
    var present := Present(keys);
    var rest := Select(SortedKeys(keys), NotIn(present));
    assert Columns(keys) == present + rest;
  }

  /** After the leading block come the keys that are not priority names. */
  lemma ColumnsTailNames(keys: set<string>)
    ensures |Present(keys)| <= |Columns(keys)|
    ensures forall i :: |Present(keys)| <= i < |Columns(keys)| ==> Columns(keys)[i] !in Priority
  {
    var present := Present(keys);
    var sorted := SortedKeys(keys);
    var rest := Select(sorted, NotIn(present));
    SelectMembers(sorted, NotIn(present));
    ColumnsRest(keys);
    forall i | 0 <= i < |rest|
      ensures rest[i] !in Priority
    {
      var c := rest[i];
      assert c in rest;
      assert c in sorted && c !in present;
      assert c in keys;
    }
    forall i | |present| <= i < |Columns(keys)|
      ensures Columns(keys)[i] !in Priority
    {
      assert Columns(keys)[i] == rest[i - |present|];
    }
  }

  /** ... in ascending code-point order. */
  lemma ColumnsTailSorted(keys: set<string>)
    ensures |Present(keys)| <= |Columns(keys)|
    ensures forall i, j :: |Present(keys)| <= i < j < |Columns(keys)| ==> LexLt(Columns(keys)[i], Columns(keys)[j])
  {
    var present := Present(keys);
    var sorted := SortedKeys(keys);
    SelectPairwise(sorted, NotIn(present), (a: string, b: string) => LexLt(a, b));
    ColumnsRest(keys);
  }

  /** `[log.get(c, '') for c in cols]`: one cell per column, empty where the record lacks the field. */
  function Row(rec: Record, cols: seq<string>): (row: seq<string>)
    ensures |row| == |cols|
    ensures forall i :: 0 <= i < |cols| ==> row[i] == Get(rec, cols[i], "")
  {
    seq(|cols|, i requires 0 <= i < |cols| => Get(rec, cols[i], ""))
  }

  /**
   The record a row reads back as, when an empty cell is taken to mean a missing
   field: each non-empty cell under its column.
   */
  function ReadRow(cols: seq<string>, row: seq<string>): (rec: Record)
    requires |row| == |cols|
    decreases |cols|
  {
    if cols == [] then map[]
    else
      var rec := ReadRow(cols[..|cols| - 1], row[..|row| - 1]);
      if row[|row| - 1] == "" then rec else rec[cols[|cols| - 1] := row[|row| - 1]]
  }

  lemma {:induction false} ReadRowSpec(cols: seq<string>, row: seq<string>)
    requires |row| == |cols| && Distinct(cols)
    ensures forall i :: 0 <= i < |cols| && row[i] != "" ==> cols[i] in ReadRow(cols, row) && ReadRow(cols, row)[cols[i]] == row[i]
    ensures forall k :: k in ReadRow(cols, row) ==> exists i :: 0 <= i < |cols| && cols[i] == k && row[i] != ""
    decreases |cols|
  {
    if cols != [] {
      ReadRowSpec(cols[..|cols| - 1], row[..|row| - 1]);
    }
  }

  /**
   Projecting a record onto columns that cover its keys and reading the row back
   gives the record again, provided no field holds the empty string: on a row an
   empty field and a missing one look the same.
   */
  lemma RowRoundTrip(rec: Record, cols: seq<string>)
    requires Distinct(cols)
    requires forall k :: k in rec ==> k in cols
    requires forall k :: k in rec ==> rec[k] != ""
    ensures ReadRow(cols, Row(rec, cols)) == rec
  {
    var row := Row(rec, cols);
    ReadRowSpec(cols, row);
    var back := ReadRow(cols, row);
    forall k | k in rec
      ensures k in back && back[k] == rec[k]
    {
      var i :| 0 <= i < |cols| && cols[i] == k;
    }
    assert back.Keys == rec.Keys;
  }

  /** On a row, a field holding the empty string is the same as a missing field. */
  lemma RowEmptyIsMissing(rec: Record, k: string, cols: seq<string>)
    ensures Row(rec[k := ""], cols) == Row(rec - {k}, cols)
  {
  }

  /**
   `export_results` in CSV form: nothing when the view is empty, otherwise the
   header row of column names followed by one row per record of the view.
   */
  function ExportCsv(view: seq<Record>, cols: seq<string>): (out: Option<seq<seq<string>>>)
    ensures out.None? <==> view == []
    ensures out.Some? ==> |out.value| == |view| + 1 && out.value[0] == cols
    ensures out.Some? ==> forall n :: 0 <= n < |view| ==> out.value[n + 1] == Row(view[n], cols)
  {
    if view == [] then None
    else Some([cols] + seq(|view|, n requires 0 <= n < |view| => Row(view[n], cols)))
  }

  /**
   The export reads back as the view: with distinct columns covering every field and
   no field holding the empty string, each exported row reads back as its record,
   in view order, under the header of the columns.
   */
  lemma ExportRoundTrip(view: seq<Record>, cols: seq<string>)
    requires Distinct(cols)
    requires forall n, k :: 0 <= n < |view| && k in view[n] ==> k in cols && view[n][k] != ""
    ensures ExportCsv(view, cols).Some? ==>
              var out := ExportCsv(view, cols).value;
              && |out| == |view| + 1 && out[0] == cols
              && forall n :: 0 <= n < |view| ==> |out[n + 1]| == |cols| && ReadRow(cols, out[n + 1]) == view[n]
  {
    forall n | 0 <= n < |view|
      ensures ReadRow(cols, Row(view[n], cols)) == view[n]
    {
      RowRoundTrip(view[n], cols);
    }
  }
}
