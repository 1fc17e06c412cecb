/**
 Character classes and string helpers shared by the whole analyzer.

 Whitespace is the set Python's `str.isspace` accepts; it is the class behind the
 regular expression `\s`/`\S`, behind `str.split()` and behind `str.strip()`, so one
 predicate serves all three. Word characters and lower-casing are the ASCII subset
 of Python's Unicode-aware versions.
 */
module Text {

  datatype Option<+T> = None | Some(value: T)

  /** Python whitespace: the ASCII controls 9-13 and 28-31, space, and the Unicode spaces. */
  predicate IsSpace(c: char) {
    || ('\t' <= c <= '\r')
    || ('\U{1C}' <= c <= '\U{1F}')
    || c == ' '
    || c == '\U{85}'
    || c == '\U{A0}'
    || c == '\U{1680}'
    || ('\U{2000}' <= c <= '\U{200A}')
    || c == '\U{2028}'
    || c == '\U{2029}'
    || c == '\U{202F}'
    || c == '\U{205F}'
    || c == '\U{3000}'
  }

  /** The ASCII part of the regular expression class `\w`. */
  predicate IsWordChar(c: char) {
    ('a' <= c <= 'z') || ('A' <= c <= 'Z') || ('0' <= c <= '9') || c == '_'
  }

  predicate IsDigit(c: char) {
    '0' <= c <= '9'
  }

  predicate AllWord(s: string) {
    forall k :: 0 <= k < |s| ==> IsWordChar(s[k])
  }

  predicate NoSpace(s: string) {
    forall k :: 0 <= k < |s| ==> !IsSpace(s[k])
  }

  predicate AllSpace(s: string) {
    forall k :: 0 <= k < |s| ==> IsSpace(s[k])
  }

  predicate IsUpper(c: char) {
    'A' <= c <= 'Z'
  }

  /** ASCII `str.lower()` on one character. */
  function LowerChar(c: char): (d: char)
    ensures !IsUpper(d)
    ensures !IsUpper(c) ==> d == c
    ensures IsUpper(c) ==> d as int == c as int + 32
  {
    if IsUpper(c) then (c as int + 32) as char else c
  }

  /** ASCII `str.lower()`. */
  function Lower(s: string): (r: string)
    ensures |r| == |s|
    ensures forall k :: 0 <= k < |s| ==> r[k] == LowerChar(s[k])
  {
    seq(|s|, k requires 0 <= k < |s| => LowerChar(s[k]))
  }

  predicate IsLowered(s: string) {
    forall k :: 0 <= k < |s| ==> !IsUpper(s[k])
  }

  /** Lower-casing is idempotent, and fixes every string without upper-case letters. */
  lemma LowerFixesLowered(s: string)
    requires IsLowered(s)
    ensures Lower(s) == s
  {
  }

  lemma LowerIdempotent(s: string)
    ensures IsLowered(Lower(s))
    ensures Lower(Lower(s)) == Lower(s)
  {
    LowerFixesLowered(Lower(s));
  }

  lemma LowerAppend(a: string, b: string)
    ensures Lower(a + b) == Lower(a) + Lower(b)
  {
  }

  /** `needle in hay` for Python strings. */
  predicate IsSubstring(needle: string, hay: string)
    decreases |hay|
  {
    needle <= hay || (|hay| > 0 && IsSubstring(needle, hay[1..]))
  }

  predicate OccursAt(needle: string, hay: string, i: nat) {
    i + |needle| <= |hay| && hay[i..i + |needle|] == needle
  }

  /** IsSubstring holds exactly when the needle occurs at some offset of the haystack. */
  lemma {:induction false} SubstringOccurs(needle: string, hay: string)
    ensures IsSubstring(needle, hay) <==> exists i: nat :: OccursAt(needle, hay, i)
    decreases |hay|
  {
    OccursAtStart(needle, hay);
    if needle <= hay {
      assert OccursAt(needle, hay, 0);
    }
    if |hay| > 0 {
      SubstringOccurs(needle, hay[1..]);
      if IsSubstring(needle, hay[1..]) {
        var i: nat :| OccursAt(needle, hay[1..], i);
        OccursTail(needle, hay, i);
      }
      if exists i: nat :: OccursAt(needle, hay, i) {
        var i: nat :| OccursAt(needle, hay, i);
        if i > 0 {
          OccursTail(needle, hay, i - 1);
        }
      }
    }
  }

  lemma OccursAtStart(needle: string, hay: string)
    ensures OccursAt(needle, hay, 0) <==> needle <= hay
  {
  }

  /** An occurrence in the tail is an occurrence one position later in the whole. */
  lemma OccursTail(needle: string, hay: string, i: nat)
    requires |hay| > 0
    ensures OccursAt(needle, hay[1..], i) <==> OccursAt(needle, hay, i + 1)
  {
    if i + |needle| <= |hay[1..]| {
      assert hay[1..][i..i + |needle|] == hay[i + 1..i + 1 + |needle|];
    }
  }

  /** The empty string is a substring of everything (Python: `'' in s`). */
  lemma EmptyIsSubstring(hay: string)
    ensures IsSubstring("", hay)
  {
  }

  /** The end of the run of whitespace that starts at `i`. */
  function LeadEnd(s: string, i: nat): (e: nat)
    requires i <= |s|
    ensures i <= e <= |s|
    ensures forall k :: i <= k < e ==> IsSpace(s[k])
    ensures e < |s| ==> !IsSpace(s[e])
    decreases |s| - i
  {
    if i < |s| && IsSpace(s[i]) then LeadEnd(s, i + 1) else i
  }

  /** The start of the run of whitespace that ends at `j`, looking no further back than `lo`. */
  function TrailStart(s: string, lo: nat, j: nat): (b: nat)
    requires lo <= j <= |s|
    ensures lo <= b <= j
    ensures forall k :: b <= k < j ==> IsSpace(s[k])
    ensures b > lo ==> !IsSpace(s[b - 1])
    decreases j
  {
    if j > lo && IsSpace(s[j - 1]) then TrailStart(s, lo, j - 1) else j
  }

  /** `str.strip()`: the text between the leading and the trailing whitespace. */
  function Strip(s: string): string {
    var lo := LeadEnd(s, 0);
    s[lo..TrailStart(s, lo, |s|)]
  }

  /**
   Strip leaves the slice of its input that starts after the leading whitespace; that
   slice neither starts nor ends with whitespace, and everything removed is whitespace.
   */
  lemma StripSpec(s: string)
    ensures var r := Strip(s);
            var lo := LeadEnd(s, 0);
            && (r == [] || (!IsSpace(r[0]) && !IsSpace(r[|r| - 1])))
            && lo + |r| <= |s| && s[lo..lo + |r|] == r
            && AllSpace(s[..lo]) && AllSpace(s[lo + |r|..])
  {
    var lo := LeadEnd(s, 0);
    var hi := TrailStart(s, lo, |s|);
    var r := Strip(s);
    assert r == s[lo..hi];
    if r != [] {
      assert r[0] == s[lo];
      assert r[|r| - 1] == s[hi - 1];
    }
    forall k | 0 <= k < lo
      ensures IsSpace(s[..lo][k])
    {
      assert s[..lo][k] == s[k];
    }
    forall k | 0 <= k < |s| - hi
      ensures IsSpace(s[hi..][k])
    {
      assert s[hi..][k] == s[hi + k];
    }
  }

  /** The characters of `Strip(s)` occur in `s`. */
  lemma StripSlice(s: string)
    ensures forall c :: c in Strip(s) ==> c in s
  {
    var lo := LeadEnd(s, 0);
    var t := Strip(s);
    forall c | c in t
      ensures c in s
    {
      var k :| 0 <= k < |t| && t[k] == c;
      assert s[lo + k] == c;
    }
  }

  /** LeadEnd stops at the first character that is not whitespace. */
  lemma {:induction false} LeadEndAt(s: string, i: nat, e: nat)
    requires i <= e <= |s|
    requires forall k :: i <= k < e ==> IsSpace(s[k])
    requires e < |s| ==> !IsSpace(s[e])
    ensures LeadEnd(s, i) == e
    decreases e - i
  {
    if i < e {
      LeadEndAt(s, i + 1, e);
    }
  }

  /** TrailStart stops after the last character that is not whitespace. */
  lemma {:induction false} TrailStartAt(s: string, lo: nat, b: nat, j: nat)
    requires lo <= b <= j <= |s|
    requires forall k :: b <= k < j ==> IsSpace(s[k])
    requires b > lo ==> !IsSpace(s[b - 1])
    ensures TrailStart(s, lo, j) == b
    decreases j - b
  {
    if b < j {
      TrailStartAt(s, lo, b, j - 1);
    }
  }

  /** Stripping a string padded with whitespace gives back its core. */
  lemma StripPadded(pre: string, core: string, post: string)
    requires AllSpace(pre) && AllSpace(post)
    requires core == [] || (!IsSpace(core[0]) && !IsSpace(core[|core| - 1]))
    ensures Strip(pre + core + post) == core
  {
    var s := pre + core + post;
    var lo, hi := |pre|, |pre| + |core|;
    forall k | 0 <= k < lo
      ensures IsSpace(s[k])
    {
      assert s[k] == pre[k];
    }
    forall k | hi <= k < |s|
      ensures IsSpace(s[k])
    {
      assert s[k] == post[k - hi];
    }
    if core == [] {
      LeadEndAt(s, 0, |s|);
      TrailStartAt(s, |s|, |s|, |s|);
      assert s[|s|..|s|] == [];
    } else {
      assert s[lo] == core[0] && s[hi - 1] == core[|core| - 1];
      LeadEndAt(s, 0, lo);
      TrailStartAt(s, lo, hi, |s|);
      assert s[lo..hi] == core;
    }
  }

  /** `line.replace('\x00', '')`. */
  function RemoveNul(s: string): (r: string)
    ensures '\0' !in r
    ensures |r| <= |s|
  {
    if s == [] then []
    else if s[0] == '\0' then RemoveNul(s[1..])
    else [s[0]] + RemoveNul(s[1..])
  }

  /** Removing NULs works piecewise and keeps every other character. */
  lemma {:induction false} RemoveNulAppend(a: string, b: string)
    ensures RemoveNul(a + b) == RemoveNul(a) + RemoveNul(b)
    decreases |a|
  {
    if a != [] {
      assert (a + b)[1..] == a[1..] + b;
      RemoveNulAppend(a[1..], b);
    } else {
      assert a + b == b;
    }
  }

  lemma {:induction false} RemoveNulKeeps(s: string)
    requires '\0' !in s
    ensures RemoveNul(s) == s
    decreases |s|
  {
    if s != [] {
      RemoveNulKeeps(s[1..]);
    }
  }

  /** Python's ordering of `str` values: lexicographic by code point, a proper prefix first. */
  predicate LexLt(a: string, b: string)
    decreases |a|
  {
    |b| > 0 && (|a| == 0 || a[0] < b[0] || (a[0] == b[0] && LexLt(a[1..], b[1..])))
  }

  lemma {:induction false} LexIrreflexive(a: string)
    ensures !LexLt(a, a)
    decreases |a|
  {
    if |a| > 0 {
      LexIrreflexive(a[1..]);
    }
  }

  lemma {:induction false} LexTransitive(a: string, b: string, c: string)
    requires LexLt(a, b) && LexLt(b, c)
    ensures LexLt(a, c)
    decreases |a|
  {
    if |a| > 0 && a[0] == b[0] && b[0] == c[0] {
      LexTransitive(a[1..], b[1..], c[1..]);
    }
  }

  lemma {:induction false} LexTotal(a: string, b: string)
    requires a != b
    ensures LexLt(a, b) || LexLt(b, a)
    decreases |a|
  {
    if |a| > 0 && |b| > 0 && a[0] == b[0] {
      assert a == [a[0]] + a[1..] && b == [b[0]] + b[1..];
      LexTotal(a[1..], b[1..]);
    }
  }

  lemma LexAsymmetric(a: string, b: string)
    requires LexLt(a, b)
    ensures !LexLt(b, a)
  {
    if LexLt(b, a) {
      LexTransitive(a, b, a);
      LexIrreflexive(a);
    }
  }
}
