/**
 Clicking a column heading (`sort_by_column`, src/main.py:245-252). The view is sorted
 by the column's numbers when every record's value reads as a number, a missing value
 counting as 0; otherwise it is sorted by the lower-cased text, a missing value counting
 as the empty string. The first click on a column sorts ascending, and every click
 flips the direction for the next one.

 Python computes every key before it moves any element, so when one value fails to
 read as a number the list is untouched and the text sort starts from the original
 order.
 */
module ColumnSort {
  import opened Text
  import opened Records
  import opened Seqs
  import opened Numbers
  import opened Sorting

  /** `float(rec.get(col, 0))`: the number of a value, and 0 for a missing value. */
  function NumberOf(rec: Record, col: string): Option<real> {
    if col in rec then ParseNum(rec[col]) else Some(0.0)
  }

  /** Every record of the view has a number in the column. */
  predicate AllNumeric(view: seq<Record>, col: string) {
    forall n :: 0 <= n < |view| ==> NumberOf(view[n], col).Some?
  }

  /** The numeric key; it is only ever applied where the number exists. */
  function NumKey(col: string): Record -> SortKey {
    rec => Num(match NumberOf(rec, col) case Some(x) => x case None => 0.0)
  }

  /** `str(rec.get(col, '')).lower()`. */
  function TextKey(col: string): Record -> SortKey {
    rec => Str(Lower(Get(rec, col, "")))
  }

  /** The key the sort uses for a column of this view. */
  function KeyFor(view: seq<Record>, col: string): Record -> SortKey {
    if AllNumeric(view, col) then NumKey(col) else TextKey(col)
  }

  /** The view sorted on a column, ascending or descending. */
  function SortView(view: seq<Record>, col: string, asc: bool): seq<Record> {
    Sort(view, KeyFor(view, col), asc)
  }

  /** `sort_state.get(col, True)`. */
  function Ascending(state: map<string, bool>, col: string): bool {
    if col in state then state[col] else true
  }

  /** One click on the heading of `col`: the sorted view and the updated direction table. */
  function SortByColumn(view: seq<Record>, state: map<string, bool>, col: string): (r: (seq<Record>, map<string, bool>))
    ensures r.1.Keys == state.Keys + {col}
    ensures col in r.1 && r.1[col] == !Ascending(state, col)
    ensures forall c :: c in state && c != col ==> c in r.1 && r.1[c] == state[c]
  {
    var asc := Ascending(state, col);
    (SortView(view, col, asc), state[col := !asc])
  }

  /**
   The sorted view holds the same records, is ordered on the chosen key in the chosen
   direction, and keeps records with equal keys in their previous order.
   */
  lemma SortViewSpec(view: seq<Record>, col: string, asc: bool)
    ensures multiset(SortView(view, col, asc)) == multiset(view)
    ensures Ordered(SortView(view, col, asc), KeyFor(view, col), asc)
    ensures forall k :: Select(SortView(view, col, asc), HasKey(KeyFor(view, col), k))
                        == Select(view, HasKey(KeyFor(view, col), k))
  {
    var key := KeyFor(view, col);
    SortPermutes(view, key, asc);
    SortOrdered(view, key, asc);
    forall k
      ensures Select(SortView(view, col, asc), HasKey(key, k)) == Select(view, HasKey(key, k))
    {
      SortStable(view, key, asc, k);
    }
  }

  /**
   When every value reads as a number, records are ordered by those numbers; the
   records of the sorted view still all read as numbers.
   */
  lemma NumericOrder(view: seq<Record>, col: string, asc: bool)
    requires AllNumeric(view, col)
    ensures var r := SortView(view, col, asc);
            AllNumeric(r, col) &&
            forall i, j :: 0 <= i < j < |r| ==>
              if asc then NumberOf(r[i], col).value <= NumberOf(r[j], col).value
              else NumberOf(r[i], col).value >= NumberOf(r[j], col).value
  {
    var r := SortView(view, col, asc);
    SortViewSpec(view, col, asc);
    forall n | 0 <= n < |r|
      ensures NumberOf(r[n], col).Some?
    {
      assert r[n] in multiset(view);
      var m :| 0 <= m < |view| && view[m] == r[n];
    }
    forall i, j | 0 <= i < j < |r|
      ensures if asc then NumberOf(r[i], col).value <= NumberOf(r[j], col).value
              else NumberOf(r[i], col).value >= NumberOf(r[j], col).value
    {
      assert !Prec(NumKey(col)(r[j]), NumKey(col)(r[i]), asc);
    }
  }

  /**
   When some value does not read as a number, records are ordered by their lower-cased
   text, a missing value counting as the empty string.
   */
  lemma TextOrder(view: seq<Record>, col: string, asc: bool)
    requires !AllNumeric(view, col)
    ensures var r := SortView(view, col, asc);
            forall i, j :: 0 <= i < j < |r| ==>
              var a, b := Lower(Get(r[i], col, "")), Lower(Get(r[j], col, ""));
              if asc then !LexLt(b, a) else !LexLt(a, b)
  {
    var r := SortView(view, col, asc);
    SortViewSpec(view, col, asc);
    forall i, j | 0 <= i < j < |r|
      ensures var a, b := Lower(Get(r[i], col, "")), Lower(Get(r[j], col, ""));
              if asc then !LexLt(b, a) else !LexLt(a, b)
    {
      assert !Prec(TextKey(col)(r[j]), TextKey(col)(r[i]), asc);
    }
  }

  /** A record without the column sorts as 0 in a numeric column. */
  lemma MissingIsZero(rec: Record, col: string)
    requires col !in rec
    ensures NumberOf(rec, col) == Some(0.0)
    ensures NumKey(col)(rec) == Num(0.0)
  {
  }

  /**
   In an ascending text sort, records that lack the column come first: no record with
   a value stands before one without.
   */
  lemma MissingFirstInText(view: seq<Record>, col: string)
    requires !AllNumeric(view, col)
    ensures var r := SortView(view, col, true);
            forall i, j :: 0 <= i < j < |r| && col !in r[j] ==> Lower(Get(r[i], col, "")) == ""
  {
    var r := SortView(view, col, true);
    TextOrder(view, col, true);
    forall i, j | 0 <= i < j < |r| && col !in r[j]
      ensures Lower(Get(r[i], col, "")) == ""
    {
      assert Get(r[j], col, "") == "";
      assert Lower("") == "";
    }
  }

  /**
   The first click on a column sorts ascending and the second descending; after two
   clicks the direction table expects ascending again.
   */
  lemma TwoClicks(view: seq<Record>, state: map<string, bool>, col: string)
    requires col !in state
    ensures var (v1, s1) := SortByColumn(view, state, col);
            var (v2, s2) := SortByColumn(v1, s1, col);
            v1 == SortView(view, col, true) && v2 == SortView(v1, col, false) && Ascending(s2, col)
  {
  }
}
