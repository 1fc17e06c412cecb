# Fortinet log analyzer — a Dafny model of its engine

The analyzer reads a FortiGate log file, one `key=value` line per event. It parses
every line into a record and shows the records in a paged table with these features:

- a search box that filters either on free text or on `field:value` filters;
- column headings that sort the view;
- colour tags for the severity of each row;
- a panel with the most frequent actions, levels and source addresses;
- export of the view to CSV.

This project models everything in `src/main.py` except the widgets and what is listed under "Left out":

- the line parser (`parse_line`);
- the load loop and the column order;
- the query language and the filter;
- the sort on a column and its direction toggle;
- paging, the row projection and the severity tag;
- the statistics panel;
- the state of a session and how each user action changes it.

| file | module | what it models |
|---|---|---|
| `text.dfy` | `Text` | whitespace, `lower()`, `in` on strings, `strip()`, NUL removal, code-point order |
| `records.dfy` | `Records` | a record as a dictionary; assigning pairs in order; the union of keys |
| `seqs.dfy` | `Seqs` | order-preserving selection, `map`, first index |
| `tokenizer.dfy` | `Tokenizer`, `LineFormat` | `LOG_PATTERN` and `findall`, `parse_line`, and a writer of well-formed lines for round trips |
| `loader.dfy` | `Loader` | the loop of `load_file` |
| `table.dfy` | `Table` | the column order, the row of a record, the CSV export |
| `query.dfy` | `Query` | `str.split()`, `parse_query`, `apply_filter` |
| `numbers.dfy` | `Numbers` | the part of `float()` the numeric sort relies on |
| `sorting.dfy` | `Sorting` | Python's stable `list.sort(key=…, reverse=…)` |
| `columnsort.dfy` | `ColumnSort` | `sort_by_column` |
| `paging.dfy` | `Paging` | `MAX_DISPLAY`, `next_page`, `prev_page`, the page slice and the status numbers |
| `stats.dfy` | `Stats` | `Counter` in insertion order, `most_common`, `update_stats` |
| `severity.dfy` | `Severity` | the row tag of `refresh_table` |
| `analyzer.dfy` | `Analyzer` | the session state and the user actions |

Points where the model follows the code rather than what the interface suggests:

- **Untrimmed free-text needle.** The free-text needle is the whole lower-cased
  query, not trimmed (line 203). A query of one space matches only records with a
  space in some value.
- **A failed load clears the records.** `all_logs` is cleared before the `try`
  (line 118). A failed load therefore does not keep the previous records; see
  Findings.
- **Old sort directions are kept.** A load sets the direction of each new column to
  ascending (line 145). Entries for columns of earlier files stay in `sort_state`.
- **Sorting does not reset the page.** The page only returns to the first one when
  the filter runs again.
- **Sorting does not refresh the panel.** Only `apply_filter` recomputes the
  statistics (line 216). After a sort the panel still shows the counts taken when
  the filter last ran, with ties listed in the log order of that time.
- **A failing numeric key leaves the view unchanged.** Python computes every key
  before it moves anything. So when one value does not read as a number, the text
  sort starts from the unsorted view.

## Model

| member | source | states |
|---|---|---|
| `Tokenizer.MatchAt` | src/main.py:13 | a match at a position starts there, ends after it, and stays inside the line |
| `Tokenizer.MatchAtSound` | src/main.py:13 | what the engine returns is a word key, `=`, and a quoted or bare value the pattern admits |
| `Tokenizer.MatchAtComplete` | src/main.py:13 | when the engine finds nothing at a position, no string the pattern admits starts there |
| `Tokenizer.MatchAtPreferred` | src/main.py:13 | among the strings the pattern admits at a position, the engine takes the one its alternation order prefers (quoted before bare, longest key) |
| `Tokenizer.BareChosenNotQuoted` | src/main.py:13 | an unquoted value is the maximal run of non-whitespace |
| `Tokenizer.TokensOrdered` | src/main.py:21 | `findall` returns matches inside the line, left to right, without overlap |
| `Tokenizer.TokensAreMatches` | src/main.py:21 | every token `findall` returns is the engine's match at its start |
| `Tokenizer.TokensCover` | src/main.py:21 | every position where the engine would match lies inside some returned token, so nothing matchable is skipped |
| `Tokenizer.Unquote` | src/main.py:22-23 | a value that starts and ends with a quote loses those two quotes, so a lone `"` becomes empty; any other value is kept |
| `Tokenizer.UnquoteWrapped` | src/main.py:22-23 | quoting then unquoting gives the text back |
| `Tokenizer.ParseLineSpec` | src/main.py:18-25 | the record's keys are the tokens' keys, and each key holds the unquoted value of its last token |
| `Records.AssignSpec` | src/main.py:24 | assigning pairs in order keeps every key, and the last assignment of a key wins |
| `LineFormat.ParseWritten` | src/main.py:18-25 | parsing a line written from well-formed fields gives the dictionary of those fields |
| `LineFormat.ParseRepeatedKey` | src/main.py:24 | a key written twice keeps its later value |
| `LineFormat.NoEqualsEmptyRecord` | src/main.py:18-25 | a line without `=` parses to the empty record |
| `LineFormat.ParseSampleLine` | tests/test_parser.py:8-17 | the sample FortiGate line parses to its five fields, the device name unquoted |
| `LineFormat.ParseEmptyLine` | tests/test_parser.py:19-20 | the empty line parses to the empty record |
| `Text.StripSpec` | src/main.py:127 | `strip()` keeps one slice of the line that neither starts nor ends with whitespace, and drops only whitespace around it |
| `Text.StripPadded` | src/main.py:127 | stripping whitespace padding off a trimmed core gives the core |
| `Text.LowerIdempotent` | src/main.py:203 | lower-casing twice is lower-casing once |
| `Text.SubstringOccurs` | src/main.py:208 | `needle in hay` holds exactly when the needle occurs at some position of the hay |
| `Text.LexTotal` | src/main.py:140 | two different strings are ordered one way or the other |
| `Loader.CleanLine` | src/main.py:127 | the cleaned line holds no NUL and neither starts nor ends with whitespace |
| `Loader.CleanLineSpec` | src/main.py:127 | removing NULs keeps every other character in order, and the cleaned line is a slice of that text with only whitespace cut off on either side |
| `Loader.CleanLineChars` | src/main.py:127 | the cleaned line holds only characters of the raw line |
| `Loader.CleanLineEmpty` | src/main.py:127-129 | a line is skipped exactly when it holds only NULs and whitespace |
| `Loader.LoadFile` | src/main.py:126-140 | the loop yields one record per non-blank line in file order, the union of their keys, and the column order of those keys |
| `Loader.LoadStep` | src/main.py:126-131 | one more line adds its parsed record at the end, or nothing when it is blank |
| `Loader.LoadAppend` | src/main.py:126-131 | loading two pieces of a file is loading each piece in turn |
| `Loader.LoadSkipsBlank` | src/main.py:128-129 | a blank line anywhere changes nothing |
| `Loader.LoadKeepsFieldless` | src/main.py:130-131 | a non-blank line without any field still gives a record, an empty one |
| `Records.AllKeysSpec` | src/main.py:132 | a key is gathered exactly when some record has it |
| `Table.SortedKeys` | src/main.py:140 | `sorted(keys)` holds every key once, in strictly ascending code-point order |
| `Table.ColumnsKeys` | src/main.py:138-140 | the columns are exactly the keys of the load, each once |
| `Table.ColumnsLead` | src/main.py:138-139 | the columns open with the priority names that occur, in priority order |
| `Table.ColumnsTailNames` | src/main.py:140 | after them come only names outside the priority list |
| `Table.ColumnsTailSorted` | src/main.py:140 | those names are in strictly ascending order |
| `Table.RowRoundTrip` | src/main.py:229 | with distinct columns covering the record and no empty values, the row reads back as the record |
| `Table.RowEmptyIsMissing` | src/main.py:229 | on a row an empty value and a missing field look the same |
| `Table.ExportRoundTrip` | src/main.py:158-174 | the export is the header of columns and then one row per record of the view, in view order; with distinct columns covering every field and no empty values, each row reads back as its record |
| `Query.WordsAreWords` | src/main.py:192 | `split()` yields non-empty pieces without whitespace |
| `Query.WordsOfJoin` | src/main.py:192 | splitting words joined by single spaces gives the words back |
| `Query.WordsOfBlank` | src/main.py:192 | a whitespace-only query splits into nothing |
| `Query.SplitOnce` | src/main.py:195 | a piece with a colon splits at its first colon into exactly two parts that rebuild it; one without stays whole |
| `Query.FiltersOfKeys` | src/main.py:190-199 | a key is filtered exactly when some piece holds a colon and has that key before its first colon |
| `Query.FiltersOfLastWins` | src/main.py:196 | for a repeated key the filter holds the value of its last piece |
| `Query.FiltersIgnoreBare` | src/main.py:193 | pieces without a colon do not affect the filters |
| `Query.SingleFilterQuery` | src/main.py:190-199 | a query of one `key:value` piece yields exactly that filter, its key and value lower-cased |
| `Query.FilterLogsSpec` | src/main.py:201-212 | a record is kept exactly when it passes the query, and as often as it occurs in the log |
| `Query.FilterLogsAppend` | src/main.py:206-212 | filtering keeps log order: it works piecewise on a split log |
| `Query.EmptyQueryKeepsAll` | src/main.py:210 | an empty query keeps every record, in order |
| `Query.BlankQuery` | src/main.py:203-210 | a whitespace-only query has no filters and searches for the whitespace itself |
| `Query.FieldlessDropped` | src/main.py:210 | with a non-empty free-text query, a record without fields never matches |
| `Query.EmptyFilterValuesPassAll` | src/main.py:208 | filters whose values are all empty pass every record, even one without the field |
| `Query.FilterKeyCaseMatters` | src/main.py:196 | filter keys are lower-cased but record keys are not, so an upper-case field never matches a filter |
| `Numbers.ParseNum` | src/main.py:248 | text that reads as a number holds only digits, signs, points and the whitespace `float` strips, which excludes the separators U+001C to U+001F |
| `Numbers.ParseRejectsSeparator` | src/main.py:248 | a number next to an information separator does not read as a number |
| `Numbers.ParseShowNat` | src/main.py:248 | an optionally signed decimal integer, padded with the whitespace `float` strips, reads as its value |
| `Numbers.ParseDecimal` | src/main.py:248 | decimal text with a point reads as its integer digits plus its fraction digits, with its sign |
| `Numbers.ParseNoDigits` | src/main.py:248-250 | text without any digit is not a number, so the sort falls back to text |
| `Numbers.FracValueRange` | src/main.py:248 | the fraction digits add a value in [0, 1) |
| `Sorting.SortPermutes` | src/main.py:248-250 | the sort is a permutation of the view |
| `Sorting.SortOrdered` | src/main.py:248-250 | no record is followed by one whose key strictly precedes it in the chosen direction |
| `Sorting.SortStable` | src/main.py:248-250 | records with equal keys keep their relative order, ascending and descending |
| `Sorting.SortIdempotent` | src/main.py:248-250 | sorting a sorted view again changes nothing |
| `ColumnSort.SortByColumn` | src/main.py:246-252 | the heading's direction defaults to ascending and is flipped for the next click; other headings are untouched |
| `ColumnSort.SortViewSpec` | src/main.py:247-250 | the sorted view is a permutation, ordered on the chosen key, stable for equal keys |
| `ColumnSort.NumericOrder` | src/main.py:248 | when every value reads as a number, a missing one as 0, the view is ordered by those numbers |
| `ColumnSort.TextOrder` | src/main.py:250 | otherwise it is ordered by lower-cased text, a missing value as the empty string |
| `ColumnSort.MissingFirstInText` | src/main.py:250 | in an ascending text sort no record with a non-empty value precedes one without the column |
| `Paging.TotalPages` | src/main.py:241 | at least one page; the pages just cover the view, 3000 records each |
| `Paging.NextPageNoop` | src/main.py:325-328 | next page stays put exactly when the next page would start past the view |
| `Paging.PrevPageNoop` | src/main.py:330-333 | previous page stays put exactly on the first page |
| `Paging.NavigationKeepsPageOk` | src/main.py:325-333 | both buttons keep the page on one that starts inside the view |
| `Paging.Window` | src/main.py:225-228 | the rows shown are at most 3000 consecutive records of the view starting at the page's first |
| `Paging.ShownCountIsWindow` | src/main.py:243 | the status count equals the number of rows shown, and the page number is within the total |
| `Paging.PageOfRecord` | src/main.py:225-228 | record `i` is shown on page `i / 3000` at row `i % 3000` |
| `Stats.TallySpec` | src/main.py:267-269 | the counter holds every value once, with its number of occurrences, in order of first occurrence |
| `Stats.TallySize` | src/main.py:267-269 | the counter has one entry per distinct value |
| `Stats.MostCommonSize` | src/main.py:272 | `most_common(n)` lists `min(n, entries)` entries of the counter |
| `Stats.MostCommonDescending` | src/main.py:272 | the listed counts never increase |
| `Stats.MostCommonTop` | src/main.py:272 | no entry left out has a larger count than a listed one |
| `Stats.MostCommonTies` | src/main.py:272 | entries with equal counts are listed in order of first occurrence |
| `Stats.TopEntriesCount` | src/main.py:267-279 | every listed entry counts the records of the view holding its value, at least one |
| `Stats.MostCommonRanks` | src/main.py:267-272 | the top list of a field counts each listed value over the view, in non-increasing order, and no value of the view left off occurs more often than a listed one, a missing field counting as `unknown` |
| `Stats.PanelRanks` | src/main.py:259-279 | each list of the panel ranks its field over the view (actions, levels, source addresses); since every listed count is at least one, an empty view leaves the panel empty |
| `Stats.PanelSizes` | src/main.py:272-278 | the panel lists min(5), min(5) and min(8) of the distinct actions, levels and sources |
| `Severity.TagOf` | src/main.py:230-237 | critical exactly when the lower-cased level is alert, critical or error or the action is deny or block; warning exactly when not critical and the level is warning or notice |
| `Severity.ActionOverridesLevel` | src/main.py:234 | a deny or block action makes a row critical whatever its level |
| `Severity.TagIgnoresCase` | src/main.py:230-231 | the tag depends only on the lower-cased level and action |
| `Severity.ClassifyExamples` | src/main.py:230-237 | `ERROR` and `Block` are critical, `Notice` is a warning, an empty record is untagged |
| `Severity.NearMisses` | src/main.py:234-236 | membership is exact: `errors` and `denied` are untagged |
| `Analyzer.Initial` | src/main.py:35-40 | a fresh window has an empty log, an empty view that matches it, no columns, page 0 and an empty panel |
| `Analyzer.InitialValid` | src/main.py:35-40 | the fresh window is a consistent session, its panel included |
| `Analyzer.MarkAscending` | src/main.py:144-145 | every new column sorts ascending next; other headings keep their direction |
| `Analyzer.ApplyFilterValid` | src/main.py:201-216 | filtering from any state gives the query's result in log order, on the first page, with the panel of that view |
| `Analyzer.OpenFileValid` | src/main.py:118-150 | a successful load replaces the records and columns, resets the page, marks the new columns ascending, and applies the current query |
| `Analyzer.SortByValid` | src/main.py:245-257 | a sort keeps the same records, the same page and the same panel, ordered on the column |
| `Analyzer.SortKeepsPanel` | src/main.py:245-257 | a sort leaves the panel as filtering computed it, for the view in log order |
| `Analyzer.NavigationValid` | src/main.py:325-333 | the page buttons keep the session consistent and the view and panel unchanged |
| `Analyzer.PanelRanksQuery` | src/main.py:211-216 | in a consistent session the panel ranks the actions, levels and sources of the records passing the query, and is empty for an empty view |
| `Analyzer.ClearSearchShowsAll` | src/main.py:218-220 | clearing the search shows every loaded record in log order |
| `Analyzer.ScreenShowsPage` | src/main.py:223-243 | the screen shows at most 3000 rows, one per record of the page with its cells and tag, and the status counts them |
| `Analyzer.EveryRecordReachable` | src/main.py:225-229 | every record of the view is shown on some reachable page |
| `Analyzer.ExportWholeView` | src/main.py:158-174 | the export holds the whole view, not only the page on screen |
| `Analyzer.FieldsHaveColumns` | src/main.py:138-140 | every field of every record in the view has a column |
| `Analyzer.OpenFailedBreaksView` | src/main.py:118-156 | as written, a failed load leaves a view that no longer matches the empty log |
| `Analyzer.OpenAttemptValid` | src/main.py:118-156 | all-or-nothing loading keeps the session consistent, and a failed attempt changes nothing |

## Left out

- The Tk window is not modelled. This covers the tree widget, the headings with their arrows (lines 254-255), column widths (147-148), the detail window (`show_details`), the context menu and `copy_selection`. They are presentation only.
- File and clipboard I/O are not modelled, including the file dialogs and a cancelled dialog (lines 115-116, 165-166). A file is given to the model as its sequence of decoded lines. Decoding with `errors='ignore'` and the splitting into lines are not modelled.
- The progress bar, the file-size status text and `logging` are not modelled. They have no effect on the data.
- The debounce of the search box (`_on_search_change`, `DEBOUNCE_MS`) is left out because it is a timer. `Analyzer.SetQuery` is the filter run that the timer eventually triggers.
- The JSON export is left out because it is a serialisation of the view. CSV quoting is left out as well: `Table.ExportCsv` gives the cells before `csv.writer` escapes them. `Table.ExportRoundTrip` reads a row back only when no value is empty, because an empty cell and a missing field export alike.
- Analyzer.OpenFailed: models a failure while the file is read, which is the I/O error the `try` is there for. A failure in the widget calls after the loop would also have reset `cols` and part of `sort_state`; this is not modelled.
- Numbers.ParseNum: accepts only an optional sign, decimal digits and an optional point with more digits, surrounded by whitespace. Python's `float()` also reads exponents, `_` digit separators, `inf`, `nan` and non-ASCII digits. It also rounds to binary floating point, whereas the model uses exact reals, so two values that differ only beyond double precision sort apart here.
- Tokenizer.MatchAt: `\w` is taken as ASCII letters, digits and `_`. Python's `\w` also matches other Unicode letters and digits.
- Text.Lower: lower-cases ASCII letters only. Python's `lower()` also maps other Unicode letters, which affects the filter, the text sort and the tag for non-ASCII text.

## Findings

| source | as written | input that shows it | evidently intended | confidence | as-written member | corrected member |
|---|---|---|---|---|---|---|
| src/main.py:118-156 | `all_logs` is cleared before the `try`. A read error therefore leaves the log empty, or holding only the lines read before the failure, while the table, the panel and the columns still show the previous file. | Load a file holding one record `action=deny`, then open a file that fails to read. The view still shows the record, but a search or clear then shows nothing. | A failed load leaves the session as it was, as the error message and the unchanged table suggest. | medium, not executed | `Analyzer.OpenFailedBreaksView` | `Analyzer.OpenAttemptValid` |
