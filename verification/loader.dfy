/**
 Reading a log file into records (`load_file`, src/main.py:126-132): each line loses
 its NUL characters and surrounding whitespace, blank lines are skipped, and every
 other line becomes one record, even a line in which the parser finds no field.
 The file itself is given as its sequence of lines.
 */
module Loader {
  import opened Text
  import opened Records
  import opened Tokenizer
  import opened LineFormat
  import opened Seqs
  import opened Table

  /** `line.replace('\x00', '').strip()`. */
  function CleanLine(line: string): (c: string)
    ensures '\0' !in c
    ensures c == [] || (!IsSpace(c[0]) && !IsSpace(c[|c| - 1]))
  {
    var d := RemoveNul(line);
    var c := Strip(d);
    StripSpec(d);
    StripSlice(d);
    c
  }

  /** A line that holds nothing but NULs and whitespace. */
  predicate Blank(line: string) {
    forall k :: 0 <= k < |line| ==> line[k] == '\0' || IsSpace(line[k])
  }

  predicate NonEmpty(c: string) {
    c != []
  }

  /** The records of a file: one per line that is not blank, in file order. */
  function Load(lines: seq<string>): (records: seq<Record>)
    ensures |records| <= |lines|
  {
    MapSeq(Select(MapSeq(lines, CleanLine), NonEmpty), ParseLine)
  }

  /** The loop of `load_file`, gathering the records and the union of their keys. */
  method LoadFile(lines: seq<string>) returns (records: seq<Record>, keys: set<string>, cols: seq<string>)
    ensures records == Load(lines)
    ensures forall k :: k in keys <==> exists n :: 0 <= n < |records| && k in records[n]
    ensures cols == Columns(keys)
  {
    records := [];
    keys := {};
    for i := 0 to |lines|
      invariant records == Load(lines[..i])
      invariant keys == AllKeys(records)
    {
      var c := CleanLine(lines[i]);
      LoadFileStep(lines, i);
      if c != [] {
        var data := ParseLine(c);
        AllKeysSnoc(records, data);
        records := records + [data];
        keys := keys + data.Keys;
      }
    }
    assert lines[..|lines|] == lines;
    AllKeysSpec(records);
    cols := Columns(keys);
  }

  lemma LoadFileStep(lines: seq<string>, i: nat)
    requires i < |lines|
    ensures var c := CleanLine(lines[i]);
            Load(lines[..i + 1]) == Load(lines[..i]) + (if c == [] then [] else [ParseLine(c)])
  {
    assert lines[..i + 1] == lines[..i] + [lines[i]];
    LoadStep(lines[..i], lines[i]);
    CleanLineEmpty(lines[i]);
  }

  /** Removing NULs keeps only characters of the input. */
  lemma {:induction false} RemoveNulChars(s: string)
    ensures forall c :: c in RemoveNul(s) ==> c in s
    decreases |s|
  {
    if s != [] {
      RemoveNulChars(s[1..]);
    }
  }

  lemma CleanLineChars(line: string)
    ensures forall c :: c in CleanLine(line) ==> c in line
  {
    RemoveNulChars(line);
    StripSlice(RemoveNul(line));
  }

  predicate NotNul(c: char) {
    c != '\0'
  }

  /** `replace('\x00', '')` keeps exactly the characters other than NUL, in order. */
  lemma {:induction false} RemoveNulSelects(s: string)
    ensures RemoveNul(s) == Select(s, NotNul)
    decreases |s|
  {
    if s != [] {
      assert s == [s[0]] + s[1..];
      SelectAppend([s[0]], s[1..], NotNul);
      assert [s[0]][..0] == [];
      RemoveNulSelects(s[1..]);
    }
  }

  /**
   A cleaned line is the line with its NULs removed and then cut down to a middle
   part, where all that is cut off on either side is whitespace.
   */
  lemma CleanLineSpec(line: string)
    ensures var d := RemoveNul(line);
            && d == Select(line, NotNul)
            && exists i, j :: 0 <= i <= j <= |d| && CleanLine(line) == d[i..j] && AllSpace(d[..i]) && AllSpace(d[j..])
  {
    RemoveNulSelects(line);
    StripWindow(RemoveNul(line));
  }

  /** Stripping cuts a string down to a middle part with only whitespace on either side. */
  lemma StripWindow(d: string)
    ensures exists i, j :: 0 <= i <= j <= |d| && Strip(d) == d[i..j] && AllSpace(d[..i]) && AllSpace(d[j..])
  {
    StripSpec(d);
    var i := LeadEnd(d, 0);
    var j := i + |Strip(d)|;
    assert Strip(d) == d[i..j];
  }

  /** A string strips to nothing exactly when it is all whitespace. */
  lemma StripEmpty(s: string)
    ensures Strip(s) == [] <==> AllSpace(s)
  {
    var r := Strip(s);
    StripSpec(s);
    var lo := LeadEnd(s, 0);
    if r == [] {
      assert s == s[..lo] + s[lo..];
    } else {
      assert s[lo] == r[0];
    }
  }

  lemma AllSpaceCons(c: char, r: string)
    ensures AllSpace([c] + r) <==> IsSpace(c) && AllSpace(r)
  {
    var t := [c] + r;
    if AllSpace(t) {
      assert t[0] == c;
      forall k | 0 <= k < |r|
        ensures IsSpace(r[k])
      {
        assert r[k] == t[k + 1];
      }
    }
  }

  lemma BlankCons(s: string)
    requires s != []
    ensures Blank(s) <==> (s[0] == '\0' || IsSpace(s[0])) && Blank(s[1..])
  {
    if (s[0] == '\0' || IsSpace(s[0])) && Blank(s[1..]) {
      forall k | 1 <= k < |s|
        ensures s[k] == '\0' || IsSpace(s[k])
      {
        assert s[k] == s[1..][k - 1];
      }
    }
  }

  lemma {:induction false} RemoveNulBlank(s: string)
    ensures AllSpace(RemoveNul(s)) <==> Blank(s)
    decreases |s|
  {
    if s != [] {
      RemoveNulBlank(s[1..]);
      BlankCons(s);
      if s[0] != '\0' {
        AllSpaceCons(s[0], RemoveNul(s[1..]));
      }
    }
  }

  /** Cleaning empties a line exactly when the line is blank. */
  lemma CleanLineEmpty(line: string)
    ensures CleanLine(line) == [] <==> Blank(line)
  {
    StripEmpty(RemoveNul(line));
    RemoveNulBlank(line);
  }

  /**
   Adding a line to the file adds one record at the end, the parse of the cleaned
   line, unless the line is blank.
   */
  lemma LoadStep(lines: seq<string>, line: string)
    ensures Load(lines + [line])
            == Load(lines) + (if Blank(line) then [] else [ParseLine(CleanLine(line))])
  {
    CleanLineEmpty(line);
    MapAppend(lines, [line], CleanLine);
    var cs := MapSeq(lines, CleanLine);
    SelectAppend(cs, [CleanLine(line)], NonEmpty);
    MapAppend(Select(cs, NonEmpty), Select([CleanLine(line)], NonEmpty), ParseLine);
  }

  /** A non-blank line without a single `=` still gives a record, the empty one. */
  lemma LoadKeepsFieldless(line: string)
    requires !Blank(line) && '=' !in line
    ensures Load([line]) == [map[]]
  {
    LoadStep([], line);
    assert [] + [line] == [line];
    CleanLineChars(line);
    NoEqualsEmptyRecord(CleanLine(line));
  }

  /** Loading works line by line: the records of two pieces of a file, one after the other. */
  lemma LoadAppend(a: seq<string>, b: seq<string>)
    ensures Load(a + b) == Load(a) + Load(b)
  {
    MapAppend(a, b, CleanLine);
    var ca, cb := MapSeq(a, CleanLine), MapSeq(b, CleanLine);
    SelectAppend(ca, cb, NonEmpty);
    MapAppend(Select(ca, NonEmpty), Select(cb, NonEmpty), ParseLine);
  }

  /** A blank line on its own gives no record. */
  lemma LoadBlankLine(line: string)
    requires Blank(line)
    ensures Load([line]) == []
  {
    LoadStep([], line);
    assert [] + [line] == [line];
  }

  /** Blank lines contribute nothing, wherever they stand. */
  lemma LoadSkipsBlank(a: seq<string>, line: string, b: seq<string>)
    requires Blank(line)
    ensures Load(a + [line] + b) == Load(a + b)
  {
    var al := a + [line];
    LoadAppend(al, b);
    LoadAppend(a, [line]);
    LoadBlankLine(line);
    assert Load(al) == Load(a);
    LoadAppend(a, b);
  }
}
