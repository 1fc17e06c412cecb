/**
 The state of the analyzer window and what each user action does to it (the
 `CompleteFortiAnalyzer` class, src/main.py:29-333, without its widgets): the loaded
 records, the filtered view, the columns, the query in the search box, the page and
 the sort direction each column heading will use next.

 The one invariant the actions keep: the view holds exactly the loaded records that
 pass the query, as often as they occur in the log, in some order (the order the
 last sort left), and the page starts inside the view.
 */
module Analyzer {
  import opened Text
  import opened Records
  import opened Seqs
  import opened Table
  import opened Loader
  import opened Query
  import opened Sorting
  import opened ColumnSort
  import opened Paging
  import opened Severity
  import opened Stats

  datatype Session = Session(
    all: seq<Record>,
    filtered: seq<Record>,
    cols: seq<string>,
    query: string,
    page: nat,
    sortState: map<string, bool>,
    panel: Stats.Panel)

  /** The view is the query's result up to order, and the page is reachable. */
  predicate ViewOk(s: Session) {
    && multiset(s.filtered) == multiset(FilterLogs(s.all, s.query))
    && PageOk(s.page, |s.filtered|)
  }

  /**
   A consistent session: the view is right, and the panel shows the statistics of
   the query's result as filtering left it, in log order, since sorting and paging
   do not refresh the panel.
   */
  predicate Valid(s: Session) {
    ViewOk(s) && s.panel == UpdateStats(FilterLogs(s.all, s.query))
  }

  /** The columns are those the loaded records call for. */
  predicate ColumnsFit(s: Session) {
    s.cols == Columns(AllKeys(s.all))
  }

  /** A fresh window: nothing loaded, an empty search box, page 0, no sort directions, an empty panel. */
  function Initial(): (s: Session)
    ensures ViewOk(s) && ColumnsFit(s)
    ensures s.all == [] && s.filtered == [] && s.panel == Stats.Panel([], [], [])
  {
    var s := Session([], [], [], "", 0, map[], Stats.Panel([], [], []));
    EmptyQueryKeepsAll([]);
    assert AllKeys([]) == {};
    SelectNone(Priority, InKeys({}));
    s
  }

  /** `self.sort_state[col] = True` for every column, in column order. */
  function MarkAscending(state: map<string, bool>, cols: seq<string>): (r: map<string, bool>)
    ensures r.Keys == state.Keys + (set c | c in cols)
    ensures forall c :: c in cols ==> r[c]
    ensures forall c :: c in state && c !in cols ==> r[c] == state[c]
    decreases |cols|
  {
    if cols == [] then state
    else MarkAscending(state, cols[..|cols| - 1])[cols[|cols| - 1] := true]
  }

  /**
   `apply_filter`: the view is rebuilt from the log, the page goes back to the first,
   and the statistics panel is recomputed from the new view.
   */
  function ApplyFilter(s: Session): Session {
    var view := FilterLogs(s.all, s.query);
    s.(filtered := view, page := 0, panel := UpdateStats(view))
  }

  /** Typing in the search box: once the debounce delay has passed, the filter runs on the new text. */
  function SetQuery(s: Session, query: string): Session {
    ApplyFilter(s.(query := query))
  }

  /** `clear_search`. */
  function ClearSearch(s: Session): Session {
    SetQuery(s, "")
  }

  /**
   `load_file` on a file that reads without error, given as its lines: the records
   replace the old ones, the columns are recomputed, each column's next sort is
   ascending, and the current query is applied to the new records.
   */
  function OpenFile(s: Session, lines: seq<string>): Session {
    var all := Load(lines);
    var cols := Columns(AllKeys(all));
    ApplyFilter(s.(all := all, cols := cols, page := 0, sortState := MarkAscending(s.sortState, cols)))
  }

  /**
   `load_file` when reading fails after the lines `read`: the old records were
   cleared before the attempt, so the log holds only what was read, while the view
   and the columns still show the previous file.
   */
  function OpenFailed(s: Session, read: seq<string>): Session {
    s.(all := Load(read), page := 0)
  }

  /**
   `sort_by_column`: the view is sorted in place and the page stays where it was; only
   the table is refreshed, so the panel keeps what it showed.
   */
  function SortBy(s: Session, col: string): Session {
    var (view, state) := SortByColumn(s.filtered, s.sortState, col);
    s.(filtered := view, sortState := state)
  }

  function Next(s: Session): Session {
    s.(page := NextPage(s.page, |s.filtered|))
  }

  function Prev(s: Session): Session {
    s.(page := PrevPage(s.page))
  }

  /** `export_results('csv')`: the header and one row per record of the whole view. */
  function Export(s: Session): Option<seq<seq<string>>> {
    ExportCsv(s.filtered, s.cols)
  }

  /** One row of the table: its cells and its colour tag. */
  datatype Line = Line(cells: seq<string>, tag: Tag)

  /** The rows `refresh_table` inserts for the current page. */
  function Screen(s: Session): (rows: seq<Line>)
    ensures |rows| == |Window(s.filtered, s.page)|
  {
    var w := Window(s.filtered, s.page);
    seq(|w|, k requires 0 <= k < |w| => Line(Row(w[k], s.cols), TagOf(w[k])))
  }

  /** The page label and status line: page number, page count, rows shown, rows in the view. */
  function Status(s: Session): (int, nat, int, nat) {
    (s.page + 1, TotalPages(|s.filtered|), ShownCount(|s.filtered|, s.page), |s.filtered|)
  }

  /** The fresh window is consistent, its empty panel included. */
  lemma InitialValid()
    ensures Valid(Initial())
  {
    EmptyQueryKeepsAll([]);
  }

  /** Filtering from any state gives a valid one, on the first page, with the view in log order and the panel of that view. */
  lemma ApplyFilterValid(s: Session)
    ensures var t := ApplyFilter(s);
            Valid(t) && t.page == 0 && t.filtered == FilterLogs(s.all, s.query) && t.panel == UpdateStats(t.filtered)
            && t.all == s.all && t.cols == s.cols && t.sortState == s.sortState
  {
  }

  /**
   Opening a file gives a valid state whose columns fit the new records, whose every
   column sorts ascending on the next click, and whose query is unchanged; headings
   of earlier files keep their direction.
   */
  lemma OpenFileValid(s: Session, lines: seq<string>)
    ensures var t := OpenFile(s, lines);
            && Valid(t) && ColumnsFit(t) && t.page == 0
            && t.all == Load(lines) && t.query == s.query
            && t.filtered == FilterLogs(Load(lines), s.query)
            && (forall c :: c in t.cols ==> Ascending(t.sortState, c))
            && (forall c :: c in s.sortState && c !in t.cols ==> t.sortState[c] == s.sortState[c])
  {
  }

  /**
   `load_file` as its failure handling evidently intends: all or nothing, so that a
   failed attempt leaves the session as it was.
   */
  function OpenAttempt(s: Session, lines: seq<string>, readOk: bool): Session {
    if readOk then OpenFile(s, lines) else s
  }

  /** With all-or-nothing loading, every attempt keeps the session valid, and a failed one changes nothing. */
  lemma OpenAttemptValid(s: Session, lines: seq<string>, readOk: bool)
    requires Valid(s)
    ensures Valid(OpenAttempt(s, lines, readOk))
    ensures !readOk ==> OpenAttempt(s, lines, readOk) == s
    ensures readOk ==> ColumnsFit(OpenAttempt(s, lines, readOk))
  {
    if readOk {
      OpenFileValid(s, lines);
    }
  }

  /**
   As written, a failed open breaks the invariant: a session showing one record whose
   file then fails to read still shows that record, although the log is now empty.
   */
  lemma OpenFailedBreaksView()
    ensures var rec := map["action" := "deny"];
            var s := Session([rec], [rec], ["action"], "", 0, map["action" := true], Stats.Panel([("deny", 1)], [("unknown", 1)], [("unknown", 1)]));
            ViewOk(s) && !ViewOk(OpenFailed(s, [])) && !Valid(OpenFailed(s, []))
  {
    var rec := map["action" := "deny"];
    var s := Session([rec], [rec], ["action"], "", 0, map["action" := true], Stats.Panel([("deny", 1)], [("unknown", 1)], [("unknown", 1)]));
    EmptyQueryKeepsAll([rec]);
    OpenFailedLosesRecords(s);
    EmptyQueryKeepsAll([]);
    assert multiset(s.filtered)[rec] == 1;
  }

  /** A failed open loses the records loaded before it: a failure before any line was read leaves none. */
  lemma OpenFailedLosesRecords(s: Session)
    ensures var t := OpenFailed(s, []);
            t.all == [] && t.page == 0 && t.filtered == s.filtered && t.cols == s.cols && t.panel == s.panel
  {
    assert Select(MapSeq([], CleanLine), NonEmpty) == [];
  }

  /**
   Sorting keeps the state valid: the view holds the same records, so the page is
   still reachable, and the rows are ordered on the column in the direction the heading held.
   */
  lemma SortByValid(s: Session, col: string)
    requires Valid(s)
    ensures var t := SortBy(s, col);
            && Valid(t) && t.page == s.page && t.all == s.all && t.query == s.query && t.panel == s.panel
            && multiset(t.filtered) == multiset(s.filtered)
            && Ordered(t.filtered, KeyFor(s.filtered, col), Ascending(s.sortState, col))
  {
    var asc := Ascending(s.sortState, col);
    SortViewSpec(s.filtered, col, asc);
    var t := SortBy(s, col);
    assert |t.filtered| == |multiset(t.filtered)| == |multiset(s.filtered)| == |s.filtered|;
  }

  /** The navigation buttons keep the state valid and change nothing but the page. */
  lemma NavigationValid(s: Session)
    requires Valid(s)
    ensures Valid(Next(s)) && Valid(Prev(s))
    ensures Next(s).filtered == s.filtered && Prev(s).filtered == s.filtered
    ensures Next(s).panel == s.panel && Prev(s).panel == s.panel
  {
    NavigationKeepsPageOk(s.page, |s.filtered|);
  }

  /**
   In a valid state the panel ranks the actions, levels and source addresses of the
   records that pass the query, and an empty view shows an empty panel.
   */
  lemma PanelRanksQuery(s: Session)
    requires Valid(s)
    ensures var view := FilterLogs(s.all, s.query);
            && TopList(view, "action", s.panel.actions)
            && TopList(view, "level", s.panel.levels)
            && TopList(view, "srcip", s.panel.srcips)
    ensures s.filtered == [] ==> s.panel == Stats.Panel([], [], [])
  {
    PanelRanks(FilterLogs(s.all, s.query));
    if s.filtered == [] {
      assert |FilterLogs(s.all, s.query)| == |multiset(FilterLogs(s.all, s.query))| == 0;
    }
  }

  /**
   A sort does not refresh the panel: after sorting, the panel is still the one
   filtering computed, whatever order the rows are now in.
   */
  lemma SortKeepsPanel(s: Session, col: string)
    requires Valid(s)
    ensures SortBy(s, col).panel == s.panel == UpdateStats(FilterLogs(s.all, s.query))
  {
  }

  /** Clearing the search shows every loaded record in log order. */
  lemma ClearSearchShowsAll(s: Session)
    ensures ClearSearch(s).filtered == s.all && ClearSearch(s).page == 0
  {
    EmptyQueryKeepsAll(s.all);
  }

  /**
   A record of the view is on the screen exactly when its page is shown: row `k` of
   the screen is record `page * 3000 + k` of the view, with its cells under the
   columns and its tag, and the status line counts the rows on the screen.
   */
  lemma ScreenShowsPage(s: Session)
    requires ViewOk(s)
    ensures var rows := Screen(s);
            && |rows| <= PageSize
            && Status(s).2 == |rows|
            && Status(s).0 <= Status(s).1
            && forall k :: 0 <= k < |rows| ==>
                 var rec := s.filtered[s.page * PageSize + k];
                 rows[k] == Line(Row(rec, s.cols), TagOf(rec))
  {
    ShownCountIsWindow(s.filtered, s.page);
  }

  /** Every record of the view can be reached: it is on page `i / 3000` of a valid state. */
  lemma EveryRecordReachable(s: Session, i: nat)
    requires Valid(s) && i < |s.filtered|
    ensures var t := s.(page := i / PageSize);
            Valid(t) && Screen(t)[i % PageSize].cells == Row(s.filtered[i], s.cols)
  {
    PageOfRecord(s.filtered, i);
  }

  /**
   The export holds the whole view, not just the page on screen: a header of the
   columns and every record of the view as a row, and nothing for an empty view.
   */
  lemma ExportWholeView(s: Session)
    ensures Export(s).None? <==> s.filtered == []
    ensures Export(s).Some? ==> |Export(s).value| == |s.filtered| + 1 && Export(s).value[0] == s.cols
    ensures Export(s).Some? ==> forall n :: 0 <= n < |s.filtered| ==> Export(s).value[n + 1] == Row(s.filtered[n], s.cols)
  {
  }

  /** With columns that fit, every field of an exported record lands under its own column. */
  lemma ExportKeepsFields(s: Session, n: nat, c: nat)
    requires ViewOk(s) && ColumnsFit(s)
    requires n < |s.filtered| && c < |s.cols|
    ensures var out := Export(s);
            && out.Some? && |out.value| == |s.filtered| + 1 && |out.value[n + 1]| == |s.cols|
            && out.value[n + 1][c] == Get(s.filtered[n], s.cols[c], "")
  {
    var row := Row(s.filtered[n], s.cols);
    assert Export(s).value[n + 1] == row;
    assert row[c] == Get(s.filtered[n], s.cols[c], "");
  }

  /** Every field of every record of a fitting state has a column. */
  lemma FieldsHaveColumns(s: Session, n: nat, k: string)
    requires ViewOk(s) && ColumnsFit(s)
    requires n < |s.filtered| && k in s.filtered[n]
    ensures k in s.cols
  {
    var rec := s.filtered[n];
    assert rec in multiset(FilterLogs(s.all, s.query));
    FilterLogsSpec(s.all, s.query);
    var m :| 0 <= m < |s.all| && s.all[m] == rec;
    AllKeysSpec(s.all);
    ColumnsKeys(AllKeys(s.all));
  }
}
