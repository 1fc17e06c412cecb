/**
 The line parser: `LOG_PATTERN.findall(line)` for the pattern
 `(\w+)=((?:".*?")|\S+)` followed by the quote stripping and dictionary building of
 `parse_line`.

 The regular expression is modelled by what it can match at one position
 (`PatternAt`, every string the pattern admits there) and by which of those the
 backtracking engine returns (`MatchAt`: the key is the maximal word run, the quoted
 alternative is tried first and is lazy, the bare alternative is greedy). `findall`
 is the left-to-right scanner `Tokens`.
 */
module Tokenizer {
  import opened Text
  import opened Records

  /** One match of the pattern: `key=raw` beginning at index `start` of the line. */
  datatype Token = Token(start: nat, key: string, raw: string) {
    /** Index just past the matched text. */
    function End(): nat {
      start + |key| + 1 + |raw|
    }
  }

  /** The strings the first alternative `".*?"` admits (`.` matches anything but a newline). */
  predicate QuotedForm(v: string) {
    |v| >= 2 && v[0] == '"' && v[|v| - 1] == '"' && forall k :: 0 < k < |v| - 1 ==> v[k] != '\n'
  }

  /** The strings the second alternative `\S+` admits. */
  predicate BareForm(v: string) {
    |v| > 0 && NoSpace(v)
  }

  /** `t` is a string the whole pattern admits at `t.start`, before the engine chooses among them. */
  predicate PatternAt(s: string, t: Token) {
    && |t.key| > 0
    && AllWord(t.key)
    && t.End() <= |s|
    && s[t.start..t.End()] == t.key + "=" + t.raw
    && (QuotedForm(t.raw) || BareForm(t.raw))
  }

  /**
   The engine's preference between two matches at the same position: the key is the
   same, a quoted value beats any bare one, a shorter quoted value beats a longer one
   (lazy `.*?`), and a longer bare value beats a shorter one (greedy `\S+`).
   */
  predicate PreferredOver(a: Token, b: Token) {
    && a.key == b.key
    && (if QuotedForm(a.raw) then QuotedForm(b.raw) ==> |a.raw| <= |b.raw|
        else !QuotedForm(b.raw) && |b.raw| <= |a.raw|)
  }

  /** End of the maximal run of word characters starting at `i` (greedy `\w+`). */
  function WordEnd(s: string, i: nat): (j: nat)
    requires i <= |s|
    ensures i <= j <= |s|
    decreases |s| - i
  {
    if i < |s| && IsWordChar(s[i]) then WordEnd(s, i + 1) else i
  }

  /** End of the maximal run of non-whitespace characters starting at `i` (greedy `\S+`). */
  function BareEnd(s: string, i: nat): (j: nat)
    requires i <= |s|
    ensures i <= j <= |s|
    decreases |s| - i
  {
    if i < |s| && !IsSpace(s[i]) then BareEnd(s, i + 1) else i
  }

  /**
   Index of the closing quote that `.*?"` finds when started at `i`: the first `"` at
   or after `i`, provided no newline comes before it.
   */
  function QuoteClose(s: string, i: nat): (r: Option<nat>)
    requires i <= |s|
    ensures r.Some? ==> i <= r.value < |s|
    decreases |s| - i
  {
    if i == |s| then None
    else if s[i] == '"' then Some(i)
    else if s[i] == '\n' then None
    else QuoteClose(s, i + 1)
  }

  /** WordEnd is the end of the longest run of word characters. */
  lemma {:induction false} WordEndMaximal(s: string, i: nat)
    requires i <= |s|
    ensures forall k :: i <= k < WordEnd(s, i) ==> IsWordChar(s[k])
    ensures WordEnd(s, i) == |s| || !IsWordChar(s[WordEnd(s, i)])
    decreases |s| - i
  {
    if i < |s| && IsWordChar(s[i]) {
      WordEndMaximal(s, i + 1);
    }
  }

  /** BareEnd is the end of the longest run of non-whitespace characters. */
  lemma {:induction false} BareEndMaximal(s: string, i: nat)
    requires i <= |s|
    ensures forall k :: i <= k < BareEnd(s, i) ==> !IsSpace(s[k])
    ensures BareEnd(s, i) == |s| || IsSpace(s[BareEnd(s, i)])
    decreases |s| - i
  {
    if i < |s| && !IsSpace(s[i]) {
      BareEndMaximal(s, i + 1);
    }
  }

  /** QuoteClose finds the first quote, and fails exactly when a newline or the end comes first. */
  lemma {:induction false} QuoteCloseFirst(s: string, i: nat)
    requires i <= |s|
    ensures var r := QuoteClose(s, i);
            r.Some? ==> s[r.value] == '"' && forall k :: i <= k < r.value ==> s[k] != '"' && s[k] != '\n'
    ensures QuoteClose(s, i).None? ==>
            forall k :: i <= k < |s| && s[k] == '"' ==> exists m :: i <= m < k && s[m] == '\n'
    decreases |s| - i
  {
    if i < |s| && s[i] != '"' && s[i] != '\n' {
      QuoteCloseFirst(s, i + 1);
    }
  }

  /** End of the value the engine takes when the value starts at `v`. */
  function ValueEnd(s: string, v: nat): (e: nat)
    requires v < |s| && !IsSpace(s[v])
    ensures v < e <= |s|
  {
    if s[v] == '"' && QuoteClose(s, v + 1).Some? then QuoteClose(s, v + 1).value + 1
    else BareEnd(s, v)
  }

  /** The value the engine takes is one of the two alternatives, the bare one only as a fallback. */
  lemma ValueEndForm(s: string, v: nat)
    requires v < |s| && !IsSpace(s[v])
    ensures QuotedForm(s[v..ValueEnd(s, v)]) || BareForm(s[v..ValueEnd(s, v)])
    ensures !QuotedForm(s[v..ValueEnd(s, v)]) ==> ValueEnd(s, v) == BareEnd(s, v)
  {
    if s[v] == '"' && QuoteClose(s, v + 1).Some? {
      QuotedChosen(s, v);
    } else {
      BareValue(s, v);
    }
  }

  /** Without a closing quote the engine falls back to the longest non-whitespace run. */
  lemma BareValue(s: string, v: nat)
    requires v < |s| && !IsSpace(s[v])
    requires !(s[v] == '"' && QuoteClose(s, v + 1).Some?)
    ensures ValueEnd(s, v) == BareEnd(s, v)
    ensures BareForm(s[v..ValueEnd(s, v)])
  {
    BareEndMaximal(s, v);
  }

  /** When a closing quote exists, the engine takes the quoted value up to the first one. */
  lemma QuotedChosen(s: string, v: nat)
    requires v < |s| && s[v] == '"' && QuoteClose(s, v + 1).Some?
    ensures ValueEnd(s, v) == QuoteClose(s, v + 1).value + 1
    ensures QuotedForm(s[v..ValueEnd(s, v)])
  {
    QuoteCloseFirst(s, v + 1);
  }


  /** The match `LOG_PATTERN.match(line, p)` returns, if any. */
  function MatchAt(s: string, p: nat): (r: Option<Token>)
    requires p <= |s|
    ensures r.Some? ==> r.value.start == p < r.value.End() <= |s|
  {
    var j := WordEnd(s, p);
    if j == p || j + 1 >= |s| || s[j] != '=' || IsSpace(s[j + 1]) then None
    else
      var e := ValueEnd(s, j + 1);
      Some(Token(p, s[p..j], s[j + 1..e]))
  }

  /** What the engine returns is a string the pattern admits. */
  lemma MatchAtSound(s: string, p: nat)
    requires p <= |s|
    requires MatchAt(s, p).Some?
    ensures PatternAt(s, MatchAt(s, p).value)
  {
    var j := WordEnd(s, p);
    var e := ValueEnd(s, j + 1);
    WordEndMaximal(s, p);
    ValueEndForm(s, j + 1);
    SliceAround(s, p, j, e);
  }

  /** A slice split around one of its characters. */
  lemma SliceAround(s: string, p: nat, j: nat, e: nat)
    requires p <= j < e <= |s|
    ensures s[p..e] == s[p..j] + [s[j]] + s[j + 1..e]
  {
  }

  /** The characters of a match, position by position. */
  lemma PatternChars(s: string, t: Token)
    requires PatternAt(s, t)
    ensures forall k :: 0 <= k < |t.key| ==> s[t.start + k] == t.key[k]
    ensures s[t.start..t.start + |t.key|] == t.key
    ensures s[t.start + |t.key|] == '='
    ensures t.raw == s[t.start + |t.key| + 1..t.End()]
  {
    var w := t.key + "=" + t.raw;
    var span := s[t.start..t.End()];
    assert span == w;
    forall k | 0 <= k < |t.key|
      ensures s[t.start + k] == t.key[k]
    {
      assert span[k] == w[k];
    }
    assert span[|t.key|] == w[|t.key|];
    assert span[..|t.key|] == s[t.start..t.start + |t.key|];
    assert w[..|t.key|] == t.key;
    assert w[|t.key| + 1..] == t.raw;
    assert span[|t.key| + 1..] == s[t.start + |t.key| + 1..t.End()];
  }

  lemma PatternKeyRun(s: string, t: Token)
    requires PatternAt(s, t)
    ensures WordEnd(s, t.start) == t.start + |t.key|
  {
    PatternChars(s, t);
    WordEndMaximal(s, t.start);
    assert !IsWordChar(s[t.start + |t.key|]);
  }

  lemma PatternValueStart(s: string, t: Token)
    requires PatternAt(s, t)
    ensures t.start + |t.key| + 1 < |s|
    ensures !IsSpace(s[t.start + |t.key| + 1])
  {
    PatternChars(s, t);
    assert s[t.start + |t.key| + 1] == t.raw[0];
  }

  /** Every match of the pattern at `t.start` has the maximal word run as its key. */
  lemma PatternKey(s: string, t: Token)
    requires PatternAt(s, t)
    ensures WordEnd(s, t.start) == t.start + |t.key|
    ensures t.start + |t.key| + 1 < |s| && s[t.start + |t.key|] == '='
    ensures t.raw == s[t.start + |t.key| + 1..t.End()]
    ensures !IsSpace(s[t.start + |t.key| + 1])
  {
    PatternChars(s, t);
    PatternKeyRun(s, t);
    PatternValueStart(s, t);
  }

  /** Two matches at the same position share the key and the value's first index. */
  lemma PatternSameKey(s: string, a: Token, b: Token)
    requires PatternAt(s, a) && PatternAt(s, b) && a.start == b.start
    ensures a.key == b.key
  {
    PatternChars(s, a);
    PatternChars(s, b);
    PatternKeyRun(s, a);
    PatternKeyRun(s, b);
  }

  /** When the engine finds no match at `p`, the pattern admits nothing there. */
  lemma MatchAtComplete(s: string, p: nat)
    requires p <= |s|
    requires MatchAt(s, p).None?
    ensures forall t: Token :: t.start == p ==> !PatternAt(s, t)
  {
    forall t: Token | t.start == p
      ensures !PatternAt(s, t)
    {
      if PatternAt(s, t) {
        PatternKey(s, t);
      }
    }
  }

  /** A quoted match that the engine's lazy search could have stopped at earlier is impossible. */
  lemma QuotedAlternatives(s: string, v: nat, e: nat)
    requires v < e <= |s| && QuotedForm(s[v..e])
    ensures QuoteClose(s, v + 1).Some?
    ensures QuoteClose(s, v + 1).value + 1 <= e
  {
    var q := s[v..e];
    QuoteCloseFirst(s, v + 1);
    assert s[e - 1] == q[|q| - 1] == '"';
    assert forall k :: v + 1 <= k < e - 1 ==> s[k] == q[k - v] != '\n';
  }

  /** The engine's match at `p` takes its value up to `ValueEnd`. */
  lemma MatchAtValue(s: string, p: nat)
    requires p <= |s|
    requires MatchAt(s, p).Some?
    ensures var m := MatchAt(s, p).value;
            var v := p + |m.key| + 1;
            v < |s| && !IsSpace(s[v]) && m.raw == s[v..ValueEnd(s, v)]
  {
  }

  /** Any string the pattern admits at `p` shares the key and the value's start with the engine's match. */
  lemma MatchAtSameKey(s: string, p: nat, t: Token)
    requires p <= |s|
    requires MatchAt(s, p).Some?
    requires t.start == p && PatternAt(s, t)
    ensures var m := MatchAt(s, p).value;
            var v := p + |t.key| + 1;
            && m.key == t.key && v < t.End() <= |s| && !IsSpace(s[v])
            && t.raw == s[v..t.End()] && m.raw == s[v..ValueEnd(s, v)]
  {
    MatchAtSound(s, p);
    PatternSameKey(s, MatchAt(s, p).value, t);
    PatternKey(s, t);
    MatchAtValue(s, p);
  }

  /** A run of non-whitespace starting at `v` ends no later than BareEnd. */
  lemma BareRunWithin(s: string, v: nat, e: nat)
    requires v <= e <= |s| && NoSpace(s[v..e])
    ensures e <= BareEnd(s, v)
  {
    BareEndMaximal(s, v);
  }

  lemma PreferredOverQuoted(s: string, p: nat, t: Token)
    requires p <= |s|
    requires MatchAt(s, p).Some?
    requires t.start == p && PatternAt(s, t) && QuotedForm(t.raw)
    ensures PreferredOver(MatchAt(s, p).value, t)
  {
    MatchAtSameKey(s, p, t);
    var v := p + |t.key| + 1;
    QuotedAlternatives(s, v, t.End());
    assert s[v] == t.raw[0];
    QuotedChosen(s, v);
  }

  lemma PreferredOverBare(s: string, p: nat, t: Token)
    requires p <= |s|
    requires MatchAt(s, p).Some?
    requires t.start == p && PatternAt(s, t) && !QuotedForm(t.raw)
    ensures PreferredOver(MatchAt(s, p).value, t)
  {
    var m := MatchAt(s, p).value;
    MatchAtSameKey(s, p, t);
    var v := p + |t.key| + 1;
    if !QuotedForm(m.raw) {
      ValueEndForm(s, v);
      BareRunWithin(s, v, t.End());
    }
  }

  /** The engine's match at `p` is preferred over every other string the pattern admits there. */
  lemma MatchAtPreferred(s: string, p: nat)
    requires p <= |s|
    requires MatchAt(s, p).Some?
    ensures forall t: Token :: t.start == p && PatternAt(s, t) ==> PreferredOver(MatchAt(s, p).value, t)
  {
    forall t: Token | t.start == p && PatternAt(s, t)
      ensures PreferredOver(MatchAt(s, p).value, t)
    {
      if QuotedForm(t.raw) {
        PreferredOverQuoted(s, p, t);
      } else {
        PreferredOverBare(s, p, t);
      }
    }
  }

  /** The bare alternative is only taken when no quoted one exists. */
  lemma BareChosenNotQuoted(s: string, p: nat)
    requires p <= |s|
    requires MatchAt(s, p).Some?
    ensures var m := MatchAt(s, p).value;
            !QuotedForm(m.raw) ==> m.raw == s[m.start + |m.key| + 1..BareEnd(s, m.start + |m.key| + 1)]
  {
    var j := WordEnd(s, p);
    var e := ValueEnd(s, j + 1);
    assert MatchAt(s, p).value == Token(p, s[p..j], s[j + 1..e]);
    ValueEndForm(s, j + 1);
  }

  /** The tokens `findall` records at position `i`: the engine's match, if there is one. */
  function Emit(s: string, i: nat): (ts: seq<Token>)
    requires i <= |s|
  {
    if MatchAt(s, i).Some? then [MatchAt(s, i).value] else []
  }

  /** Where `findall` resumes after position `i`: after the match, or one position on. */
  function NextScan(s: string, i: nat): (n: nat)
    requires i < |s|
    ensures i < n <= |s|
  {
    if MatchAt(s, i).Some? then MatchAt(s, i).value.End() else i + 1
  }

  /**
   `findall`: scanning from `i`, take the engine's match at the current position and
   resume after it, or move one position on when there is none.
   */
  function Tokens(s: string, i: nat): seq<Token>
    requires i <= |s|
    decreases |s| - i
  {
    if i == |s| then [] else Emit(s, i) + Tokens(s, NextScan(s, i))
  }

  /** One step of the scan. */
  lemma TokensUnfold(s: string, i: nat)
    requires i < |s|
    ensures Tokens(s, i) == Emit(s, i) + Tokens(s, NextScan(s, i))
  {
  }

  /** `findall`'s tokens lie inside the line, in order, without overlapping. */
  lemma {:induction false} TokensOrdered(s: string, i: nat)
    requires i <= |s|
    ensures forall n :: 0 <= n < |Tokens(s, i)| ==> i <= Tokens(s, i)[n].start < Tokens(s, i)[n].End() <= |s|
    ensures forall n :: 0 <= n < |Tokens(s, i)| - 1 ==> Tokens(s, i)[n].End() <= Tokens(s, i)[n + 1].start
    decreases |s| - i
  {
    if i < |s| {
      var nx := NextScan(s, i);
      TokensOrdered(s, nx);
      TokensUnfold(s, i);
      if MatchAt(s, i).Some? {
        var t := MatchAt(s, i).value;
        assert Emit(s, i) == [t];
        OrderedCons(t, Tokens(s, nx), i, nx, |s|);
      } else {
        assert Emit(s, i) == [];
      }
    }
  }

  /** Putting a token in front of later, ordered tokens keeps them ordered. */
  lemma OrderedCons(t: Token, rest: seq<Token>, i: nat, nx: nat, len: nat)
    requires t.start == i && t.End() == nx <= len
    requires forall n :: 0 <= n < |rest| ==> nx <= rest[n].start < rest[n].End() <= len
    requires forall n :: 0 <= n < |rest| - 1 ==> rest[n].End() <= rest[n + 1].start
    ensures forall n :: 0 <= n < |[t] + rest| ==> i <= ([t] + rest)[n].start < ([t] + rest)[n].End() <= len
    ensures forall n :: 0 <= n < |[t] + rest| - 1 ==> ([t] + rest)[n].End() <= ([t] + rest)[n + 1].start
  {
  }

  lemma {:induction false} TokensAreMatches(s: string, i: nat)
    requires i <= |s|
    ensures forall t :: t in Tokens(s, i) ==> t.start <= |s| && MatchAt(s, t.start) == Some(t)
    decreases |s| - i
  {
    if i < |s| {
      TokensAreMatches(s, NextScan(s, i));
      assert Tokens(s, i) == Emit(s, i) + Tokens(s, NextScan(s, i));
    }
  }

  /**
   `findall` skips a position only when the engine finds no match there or the
   position lies inside a token already taken.
   */
  lemma {:induction false} TokensCover(s: string, i: nat, p: nat)
    requires i <= p < |s|
    requires MatchAt(s, p).Some?
    ensures exists n :: 0 <= n < |Tokens(s, i)| && Tokens(s, i)[n].start <= p < Tokens(s, i)[n].End()
    decreases |s| - i
  {
    var e, nx := Emit(s, i), NextScan(s, i);
    var rest := Tokens(s, nx);
    assert Tokens(s, i) == e + rest;
    if p < nx {
      assert MatchAt(s, i).Some?;
      assert Tokens(s, i)[0] == MatchAt(s, i).value;
    } else {
      TokensCover(s, nx, p);
      var n :| 0 <= n < |rest| && rest[n].start <= p < rest[n].End();
      assert Tokens(s, i)[|e| + n] == rest[n];
    }
  }

  /** `value[1:-1]` when the value both starts and ends with a double quote. */
  function Unquote(v: string): (r: string)
    ensures |v| >= 2 && v[0] == '"' && v[|v| - 1] == '"' ==> "\"" + r + "\"" == v
    ensures v == "\"" ==> r == ""
    ensures !(|v| > 0 && v[0] == '"' && v[|v| - 1] == '"') ==> r == v
  {
    if |v| > 0 && v[0] == '"' && v[|v| - 1] == '"' then
      (if |v| == 1 then "" else v[1..|v| - 1])
    else v
  }

  lemma UnquoteWrapped(x: string)
    ensures Unquote("\"" + x + "\"") == x
  {
    var v := "\"" + x + "\"";
    assert v[1..|v| - 1] == x;
  }

  /** The (key, value) pairs of `parse_line`'s loop, quotes already stripped. */
  function Fields(ts: seq<Token>): (fs: seq<(string, string)>)
    ensures |fs| == |ts|
    ensures forall n :: 0 <= n < |ts| ==> fs[n] == (ts[n].key, Unquote(ts[n].raw))
  {
    seq(|ts|, n requires 0 <= n < |ts| => (ts[n].key, Unquote(ts[n].raw)))
  }

  /** `parse_line`: the unquoted value of every token, later keys overwriting earlier ones. */
  function ParseLine(line: string): Record {
    Assign(Fields(Tokens(line, 0)))
  }

  /**
   The keys of `parse_line`'s result are exactly the keys of the tokens `findall`
   returns, and a key that occurs several times keeps the unquoted value of its last
   occurrence.
   */
  lemma ParseLineSpec(line: string)
    ensures var ts := Tokens(line, 0);
            && ParseLine(line).Keys == (set n | 0 <= n < |ts| :: ts[n].key)
            && (forall n :: 0 <= n < |ts| && IsLastOfKey(Fields(ts), n) ==>
                  ParseLine(line)[ts[n].key] == Unquote(ts[n].raw))
  {
    var ts := Tokens(line, 0);
    var fs := Fields(ts);
    assert (set n | 0 <= n < |fs| :: fs[n].0) == set n | 0 <= n < |ts| :: ts[n].key;
    AssignSpec(fs);
  }
}

/**
 Properties of the parser as a whole: lines written in the `key=value` format read
 back as the fields they were written from, and lines without such tokens give the
 empty record.
 */
module LineFormat {
  import opened Text
  import opened Records
  import opened Tokenizer

  /** A field as a log line writes it: quoted (`key="value"`) or bare (`key=value`). */
  datatype Field = Field(key: string, value: string, quoted: bool)

  /**
   A field the writer can emit so that it reads back: a word-character key, and a
   value that is either quoted and free of `"` and newlines, or bare, non-empty,
   without whitespace and not starting with `"`.
   */
  predicate Writable(f: Field) {
    && |f.key| > 0
    && AllWord(f.key)
    && (if f.quoted then '"' !in f.value && '\n' !in f.value
        else |f.value| > 0 && NoSpace(f.value) && f.value[0] != '"')
  }

  function WriteValue(f: Field): string {
    if f.quoted then "\"" + f.value + "\"" else f.value
  }

  function WriteField(f: Field): string {
    f.key + "=" + WriteValue(f)
  }

  /** Fields joined by single spaces. */
  function WriteLine(fs: seq<Field>): string
    decreases |fs|
  {
    if fs == [] then ""
    else if |fs| == 1 then WriteField(fs[0])
    else WriteField(fs[0]) + (" " + WriteLine(fs[1..]))
  }

  function Pairs(fs: seq<Field>): (ps: seq<(string, string)>)
    ensures |ps| == |fs|
    ensures forall n :: 0 <= n < |fs| ==> ps[n] == (fs[n].key, fs[n].value)
  {
    seq(|fs|, n requires 0 <= n < |fs| => (fs[n].key, fs[n].value))
  }

  function ShiftTokens(ts: seq<Token>, d: nat): (us: seq<Token>)
    ensures |us| == |ts|
    ensures forall n :: 0 <= n < |ts| ==> us[n] == Token(ts[n].start + d, ts[n].key, ts[n].raw)
  {
    seq(|ts|, n requires 0 <= n < |ts| => Token(ts[n].start + d, ts[n].key, ts[n].raw))
  }

  lemma WordEndShift(a: string, b: string, i: nat)
    requires i <= |b|
    ensures WordEnd(a + b, |a| + i) == |a| + WordEnd(b, i)
    decreases |b| - i
  {
    if i < |b| {
      assert (a + b)[|a| + i] == b[i];
      if IsWordChar(b[i]) {
        WordEndShift(a, b, i + 1);
      }
    }
  }

  lemma BareEndShift(a: string, b: string, i: nat)
    requires i <= |b|
    ensures BareEnd(a + b, |a| + i) == |a| + BareEnd(b, i)
    decreases |b| - i
  {
    if i < |b| {
      assert (a + b)[|a| + i] == b[i];
      if !IsSpace(b[i]) {
        BareEndShift(a, b, i + 1);
      }
    }
  }

  lemma QuoteCloseShift(a: string, b: string, i: nat)
    requires i <= |b|
    ensures QuoteClose(a + b, |a| + i) == (if QuoteClose(b, i).Some? then Some(|a| + QuoteClose(b, i).value) else None)
    decreases |b| - i
  {
    if i < |b| {
      assert (a + b)[|a| + i] == b[i];
      if b[i] != '"' && b[i] != '\n' {
        QuoteCloseShift(a, b, i + 1);
      }
    }
  }

  lemma ValueEndShift(a: string, b: string, v: nat)
    requires v < |b| && !IsSpace(b[v])
    ensures |a| + v < |a + b| && !IsSpace((a + b)[|a| + v])
    ensures ValueEnd(a + b, |a| + v) == |a| + ValueEnd(b, v)
  {
    assert (a + b)[|a| + v] == b[v];
    BareEndShift(a, b, v);
    QuoteCloseShift(a, b, v + 1);
  }

  /** The engine's match at a position depends only on the text from that position on. */
  lemma MatchAtShift(a: string, b: string, p: nat)
    requires p <= |b|
    ensures MatchAt(a + b, |a| + p) ==
            (if MatchAt(b, p).Some? then Some(ShiftTokens([MatchAt(b, p).value], |a|)[0]) else None)
  {
    WordEndShift(a, b, p);
    var j := WordEnd(b, p);
    if j != p && j + 1 < |b| && b[j] == '=' && !IsSpace(b[j + 1]) {
      MatchAtShiftFound(a, b, p);
    } else if j != p && j + 1 < |b| {
      assert (a + b)[|a| + j] == b[j] && (a + b)[|a| + j + 1] == b[j + 1];
    }
  }

  lemma MatchAtShiftFound(a: string, b: string, p: nat)
    requires p <= |b|
    requires WordEnd(a + b, |a| + p) == |a| + WordEnd(b, p)
    requires var j := WordEnd(b, p); j != p && j + 1 < |b| && b[j] == '=' && !IsSpace(b[j + 1])
    ensures MatchAt(b, p).Some?
    ensures MatchAt(a + b, |a| + p) == Some(ShiftTokens([MatchAt(b, p).value], |a|)[0])
  {
    var s := a + b;
    var j := WordEnd(b, p);
    var e := ValueEnd(b, j + 1);
    var m := Token(p, b[p..j], b[j + 1..e]);
    assert MatchAt(b, p) == Some(m);
    assert s[|a| + j] == b[j] && s[|a| + j + 1] == b[j + 1];
    ValueEndShift(a, b, j + 1);
    SliceShift(a, b, p, j);
    SliceShift(a, b, j + 1, e);
    assert MatchAt(s, |a| + p) == Some(Token(|a| + p, m.key, m.raw));
    assert ShiftTokens([m], |a|)[0] == Token(p + |a|, m.key, m.raw);
  }

  /** A slice of `b` is the same slice of `a + b`, moved by `|a|`. */
  lemma SliceShift(a: string, b: string, i: nat, j: nat)
    requires i <= j <= |b|
    ensures (a + b)[|a| + i..|a| + j] == b[i..j]
  {
  }

  lemma ShiftCons(t: Token, ts: seq<Token>, d: nat)
    ensures ShiftTokens([t] + ts, d) == [Token(t.start + d, t.key, t.raw)] + ShiftTokens(ts, d)
  {
  }

  lemma ShiftAppend(xs: seq<Token>, ys: seq<Token>, d: nat)
    ensures ShiftTokens(xs + ys, d) == ShiftTokens(xs, d) + ShiftTokens(ys, d)
  {
  }

  lemma ScanShift(a: string, b: string, i: nat)
    requires i < |b|
    ensures Emit(a + b, |a| + i) == ShiftTokens(Emit(b, i), |a|)
    ensures NextScan(a + b, |a| + i) == |a| + NextScan(b, i)
  {
    MatchAtShift(a, b, i);
  }

  lemma TokensShiftStep(a: string, b: string, i: nat)
    requires i < |b|
    requires Tokens(a + b, |a| + NextScan(b, i)) == ShiftTokens(Tokens(b, NextScan(b, i)), |a|)
    ensures Tokens(a + b, |a| + i) == ShiftTokens(Tokens(b, i), |a|)
  {
    var n := NextScan(b, i);
    calc {
      Tokens(a + b, |a| + i);
      { TokensShiftHead(a, b, i); }
      ShiftTokens(Emit(b, i), |a|) + ShiftTokens(Tokens(b, n), |a|);
      { ShiftAppend(Emit(b, i), Tokens(b, n), |a|); }
      ShiftTokens(Emit(b, i) + Tokens(b, n), |a|);
      { TokensUnfold(b, i); }
      ShiftTokens(Tokens(b, i), |a|);
    }
  }

  /** The first scan step on `a + b` past `a` is the shifted first step on `b`. */
  lemma TokensShiftHead(a: string, b: string, i: nat)
    requires i < |b|
    ensures Tokens(a + b, |a| + i)
            == ShiftTokens(Emit(b, i), |a|) + Tokens(a + b, |a| + NextScan(b, i))
  {
    var s := a + b;
    calc {
      Tokens(s, |a| + i);
      { TokensUnfold(s, |a| + i); }
      Emit(s, |a| + i) + Tokens(s, NextScan(s, |a| + i));
      { ScanShift(a, b, i); }
      ShiftTokens(Emit(b, i), |a|) + Tokens(s, |a| + NextScan(b, i));
    }
  }

  /** `findall` from a position depends only on the text from that position on. */
  lemma {:induction false} TokensShift(a: string, b: string, i: nat)
    requires i <= |b|
    ensures Tokens(a + b, |a| + i) == ShiftTokens(Tokens(b, i), |a|)
    decreases |b| - i
  {
    if i < |b| {
      TokensShift(a, b, NextScan(b, i));
      TokensShiftStep(a, b, i);
    }
  }

  lemma TokensShiftFromStart(a: string, b: string)
    ensures Tokens(a + b, |a|) == ShiftTokens(Tokens(b, 0), |a|)
  {
    TokensShift(a, b, 0);
  }

  lemma WordEndIs(s: string, i: nat, j: nat)
    requires i <= j <= |s|
    requires forall k :: i <= k < j ==> IsWordChar(s[k])
    requires j == |s| || !IsWordChar(s[j])
    ensures WordEnd(s, i) == j
  {
    WordEndMaximal(s, i);
  }

  lemma BareEndIs(s: string, i: nat, j: nat)
    requires i <= j <= |s|
    requires forall k :: i <= k < j ==> !IsSpace(s[k])
    requires j == |s| || IsSpace(s[j])
    ensures BareEnd(s, i) == j
  {
    BareEndMaximal(s, i);
  }

  lemma QuoteCloseIs(s: string, i: nat, c: nat)
    requires i <= c < |s| && s[c] == '"'
    requires forall k :: i <= k < c ==> s[k] != '"' && s[k] != '\n'
    ensures QuoteClose(s, i) == Some(c)
  {
    QuoteCloseFirst(s, i);
  }

  /** A written value followed by whitespace or the end of the line is taken whole. */
  lemma ValueEndWritten(f: Field, rest: string)
    requires Writable(f)
    requires rest == [] || IsSpace(rest[0])
    ensures var x := WriteValue(f) + rest;
            |x| > 0 && !IsSpace(x[0]) && ValueEnd(x, 0) == |WriteValue(f)|
  {
    var w := WriteValue(f);
    var x := w + rest;
    assert forall k :: 0 <= k < |w| ==> x[k] == w[k];
    assert |w| == |x| || x[|w|] == rest[0];
    if f.quoted {
      assert forall k :: 0 <= k < |f.value| ==> w[k + 1] == f.value[k];
      QuoteCloseIs(x, 1, |w| - 1);
    } else {
      BareEndIs(x, 0, |w|);
    }
  }

  /** A written field followed by whitespace or the end of the line is matched whole. */
  lemma MatchWrittenField(f: Field, rest: string)
    requires Writable(f)
    requires rest == [] || IsSpace(rest[0])
    ensures MatchAt(WriteField(f) + rest, 0) == Some(Token(0, f.key, WriteValue(f)))
  {
    var w := WriteValue(f);
    var x := w + rest;
    var pre := f.key + "=";
    var s := pre + x;
    assert s == WriteField(f) + rest;
    var j := |f.key|;
    assert forall k :: 0 <= k < j ==> s[k] == f.key[k];
    assert s[j] == '=';
    WordEndIs(s, 0, j);
    ValueEndWritten(f, rest);
    ValueEndShift(pre, x, 0);
    assert s[..j] == f.key;
    assert s[j + 1..j + 1 + |w|] == w;
  }

  /** The (key, raw value) view of tokens, forgetting positions. */
  function KeyRaws(ts: seq<Token>): (kr: seq<(string, string)>)
    ensures |kr| == |ts|
    ensures forall n :: 0 <= n < |ts| ==> kr[n] == (ts[n].key, ts[n].raw)
  {
    seq(|ts|, n requires 0 <= n < |ts| => (ts[n].key, ts[n].raw))
  }

  function WrittenKeyRaws(fs: seq<Field>): (kr: seq<(string, string)>)
    ensures |kr| == |fs|
    ensures forall n :: 0 <= n < |fs| ==> kr[n] == (fs[n].key, WriteValue(fs[n]))
  {
    seq(|fs|, n requires 0 <= n < |fs| => (fs[n].key, WriteValue(fs[n])))
  }

  lemma TokensAtWrittenField(f: Field, r: string)
    requires Writable(f)
    ensures var head := WriteField(f);
            Tokens(head + (" " + r), 0) == [Token(0, f.key, WriteValue(f))] + Tokens(head + (" " + r), |head|)
  {
    MatchWrittenField(f, " " + r);
  }

  lemma TokensSkipSpace(s: string, i: nat)
    requires i < |s| && s[i] == ' '
    ensures Tokens(s, i) == Tokens(s, i + 1)
  {
    WordEndIs(s, i, i);
  }

  lemma KeyRawsCons(t: Token, ts: seq<Token>)
    ensures KeyRaws([t] + ts) == [(t.key, t.raw)] + KeyRaws(ts)
  {
  }

  /** Shifting tokens does not change their (key, raw) list. */
  lemma KeyRawsShift(ts: seq<Token>, d: nat)
    ensures KeyRaws(ShiftTokens(ts, d)) == KeyRaws(ts)
  {
  }

  /** A leading space contributes no token. */
  lemma TokensAfterSpace(r: string)
    ensures KeyRaws(Tokens(" " + r, 0)) == KeyRaws(Tokens(r, 0))
  {
    TokensSkipSpace(" " + r, 0);
    TokensShiftFromStart(" ", r);
    KeyRawsShift(Tokens(r, 0), 1);
  }

  lemma TokensOfWrittenStep(f: Field, r: string)
    requires Writable(f)
    ensures KeyRaws(Tokens(WriteField(f) + (" " + r), 0)) == [(f.key, WriteValue(f))] + KeyRaws(Tokens(r, 0))
  {
    var head := WriteField(f);
    var b := " " + r;
    var t := Token(0, f.key, WriteValue(f));
    calc {
      KeyRaws(Tokens(head + b, 0));
      { TokensAtWrittenField(f, r); }
      KeyRaws([t] + Tokens(head + b, |head|));
      { KeyRawsCons(t, Tokens(head + b, |head|)); }
      [(t.key, t.raw)] + KeyRaws(Tokens(head + b, |head|));
      { TokensShiftFromStart(head, b); KeyRawsShift(Tokens(b, 0), |head|); }
      [(t.key, t.raw)] + KeyRaws(Tokens(b, 0));
      { TokensAfterSpace(r); }
      [(t.key, t.raw)] + KeyRaws(Tokens(r, 0));
    }
  }

  /** `findall` on a written line finds one token per field, in order. */
  lemma {:induction false} TokensOfWritten(fs: seq<Field>)
    requires forall n :: 0 <= n < |fs| ==> Writable(fs[n])
    ensures KeyRaws(Tokens(WriteLine(fs), 0)) == WrittenKeyRaws(fs)
    decreases |fs|
  {
    if |fs| == 1 {
      MatchWrittenField(fs[0], "");
      assert WriteField(fs[0]) + "" == WriteField(fs[0]);
    } else if |fs| > 1 {
      TokensOfWrittenStep(fs[0], WriteLine(fs[1..]));
      TokensOfWritten(fs[1..]);
      assert WrittenKeyRaws(fs) == [(fs[0].key, WriteValue(fs[0]))] + WrittenKeyRaws(fs[1..]);
    }
  }

  /** Writing fields and parsing the line gives back the dictionary of those fields. */
  lemma ParseWritten(fs: seq<Field>)
    requires forall n :: 0 <= n < |fs| ==> Writable(fs[n])
    ensures ParseLine(WriteLine(fs)) == Assign(Pairs(fs))
  {
    TokensOfWritten(fs);
    FieldsOfWritten(Tokens(WriteLine(fs), 0), fs);
  }

  /** Tokens carrying the written keys and values unquote to the written pairs. */
  lemma FieldsOfWritten(ts: seq<Token>, fs: seq<Field>)
    requires forall n :: 0 <= n < |fs| ==> Writable(fs[n])
    requires KeyRaws(ts) == WrittenKeyRaws(fs)
    ensures Fields(ts) == Pairs(fs)
  {
    assert |ts| == |fs|;
    forall n | 0 <= n < |fs|
      ensures Fields(ts)[n] == Pairs(fs)[n]
    {
      assert KeyRaws(ts)[n] == WrittenKeyRaws(fs)[n];
      if fs[n].quoted {
        UnquoteWrapped(fs[n].value);
      }
    }
  }


  /** A line without `=` has no tokens at all. */
  lemma {:induction false} NoEqualsNoTokens(s: string, i: nat)
    requires i <= |s|
    requires '=' !in s
    ensures Tokens(s, i) == []
    decreases |s| - i
  {
    if i < |s| {
      var j := WordEnd(s, i);
      assert j < |s| ==> s[j] != '=';
      NoEqualsNoTokens(s, i + 1);
    }
  }

  /** Blank lines, and any line without `=`, parse to the empty record. */
  lemma NoEqualsEmptyRecord(line: string)
    requires '=' !in line
    ensures ParseLine(line) == map[]
  {
    NoEqualsNoTokens(line, 0);
  }

  lemma ParseEmptyLine()
    ensures ParseLine("") == map[]
  {
    NoEqualsEmptyRecord("");
  }

  /** Writing a field in front of a non-empty line adds it with one separating space. */
  lemma WriteLineCons(f: Field, rest: seq<Field>)
    requires rest != []
    ensures WriteLine([f] + rest) == WriteField(f) + (" " + WriteLine(rest))
  {
    assert ([f] + rest)[1..] == rest;
  }

  /** The sample FortiGate line, written as its five space-separated `key=value` pieces. */
  const SampleLine: string :=
    "date=2023-10-12" + (" " + ("time=10:00:00" + (" " + ("devname=\"FG-100D\"" + (" "
    + ("srcip=192.168.1.1" + (" " + "action=deny")))))))

  /** The fields of the sample line: four bare values and a quoted device name. */
  function SampleFields(): (fs: seq<Field>)
    ensures |fs| == 5
  {
    [ Field("date", "2023-10-12", false),
      Field("time", "10:00:00", false),
      Field("devname", "FG-100D", true),
      Field("srcip", "192.168.1.1", false),
      Field("action", "deny", false) ]
  }

  lemma SampleWritable()
    ensures forall n :: 0 <= n < |SampleFields()| ==> Writable(SampleFields()[n])
  {
  }

  lemma SampleHeadWritten()
    ensures var fs := SampleFields();
            && WriteField(fs[0]) == "date=2023-10-12"
            && WriteField(fs[1]) == "time=10:00:00"
  {
  }

  lemma SampleTailWritten()
    ensures var fs := SampleFields();
            && WriteField(fs[2]) == "devname=\"FG-100D\""
            && WriteField(fs[3]) == "srcip=192.168.1.1"
            && WriteField(fs[4]) == "action=deny"
  {
  }

  /** Three written fields, joined. */
  lemma WriteThree(fs: seq<Field>, c: string, d: string, e: string)
    requires |fs| == 3
    requires WriteField(fs[0]) == c && WriteField(fs[1]) == d && WriteField(fs[2]) == e
    ensures WriteLine(fs) == c + (" " + (d + (" " + e)))
  {
    assert fs[1..] == [fs[1]] + [fs[2]];
    assert fs == [fs[0]] + fs[1..];
    WriteLineCons(fs[1], [fs[2]]);
    WriteLineCons(fs[0], fs[1..]);
  }

  /** Four written fields, joined. */
  lemma WriteFour(fs: seq<Field>, b: string, c: string, d: string, e: string)
    requires |fs| == 4
    requires WriteField(fs[0]) == b && WriteField(fs[1]) == c
    requires WriteField(fs[2]) == d && WriteField(fs[3]) == e
    ensures WriteLine(fs) == b + (" " + (c + (" " + (d + (" " + e)))))
  {
    var t := fs[1..];
    WriteThree(t, c, d, e);
    assert fs == [fs[0]] + t;
    WriteLineCons(fs[0], t);
  }

  /** Five written fields, joined. */
  lemma WriteFive(fs: seq<Field>, a: string, b: string, c: string, d: string, e: string)
    requires |fs| == 5
    requires WriteField(fs[0]) == a && WriteField(fs[1]) == b && WriteField(fs[2]) == c
    requires WriteField(fs[3]) == d && WriteField(fs[4]) == e
    ensures WriteLine(fs) == a + (" " + (b + (" " + (c + (" " + (d + (" " + e)))))))
  {
    var t := fs[1..];
    WriteFour(t, b, c, d, e);
    assert fs == [fs[0]] + t;
    WriteLineCons(fs[0], t);
  }

  lemma SampleLineWritten()
    ensures WriteLine(SampleFields()) == SampleLine
  {
    SampleHeadWritten();
    SampleTailWritten();
    WriteFive(SampleFields(), "date=2023-10-12", "time=10:00:00", "devname=\"FG-100D\"",
              "srcip=192.168.1.1", "action=deny");
  }

  /** Assigning five pairs in order is five successive map updates. */
  lemma AssignFive(p0: (string, string), p1: (string, string), p2: (string, string),
                   p3: (string, string), p4: (string, string))
    ensures Assign([p0, p1, p2, p3, p4])
            == map[][p0.0 := p0.1][p1.0 := p1.1][p2.0 := p2.1][p3.0 := p3.1][p4.0 := p4.1]
  {
    AssignSnoc([], p0);
    assert [] + [p0] == [p0];
    AssignSnoc([p0], p1);
    assert [p0] + [p1] == [p0, p1];
    AssignSnoc([p0, p1], p2);
    assert [p0, p1] + [p2] == [p0, p1, p2];
    AssignSnoc([p0, p1, p2], p3);
    assert [p0, p1, p2] + [p3] == [p0, p1, p2, p3];
    AssignSnoc([p0, p1, p2, p3], p4);
    assert [p0, p1, p2, p3] + [p4] == [p0, p1, p2, p3, p4];
  }

  lemma SamplePairs()
    ensures Assign(Pairs(SampleFields()))
            == map["date" := "2023-10-12", "time" := "10:00:00", "devname" := "FG-100D",
                   "srcip" := "192.168.1.1", "action" := "deny"]
  {
    var ps := Pairs(SampleFields());
    assert ps == [ps[0], ps[1], ps[2], ps[3], ps[4]];
    AssignFive(ps[0], ps[1], ps[2], ps[3], ps[4]);
  }

  /** The sample line parses to its five fields, the device name without its quotes. */
  lemma ParseSampleLine()
    ensures ParseLine(SampleLine)
            == map["date" := "2023-10-12", "time" := "10:00:00", "devname" := "FG-100D",
                   "srcip" := "192.168.1.1", "action" := "deny"]
  {
    SampleLineWritten();
    SampleWritable();
    ParseWritten(SampleFields());
    SamplePairs();
  }

  /** A key written twice keeps the later value, whichever form each occurrence takes. */
  lemma ParseRepeatedKey(f: Field, g: Field)
    requires Writable(f) && Writable(g) && f.key == g.key
    ensures ParseLine(WriteField(f) + (" " + WriteField(g))) == map[g.key := g.value]
  {
    var fs := [f, g];
    WriteLineCons(f, [g]);
    assert [f] + [g] == fs;
    ParseWritten(fs);
    var ps := Pairs(fs);
    assert ps == [] + [ps[0]] + [ps[1]];
    AssignSnoc([], ps[0]);
    AssignSnoc([] + [ps[0]], ps[1]);
  }
}
