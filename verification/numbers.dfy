/**
 The part of Python's `float(str)` that a log column can exercise in practice: optional
 surrounding whitespace, an optional sign, and decimal digits with an optional
 fractional part (`12`, `-3.5`, `7.`, `.25`). Anything else is rejected, as `float`
 rejects it with `ValueError`.
 */
module Numbers {
  import opened Text
  import opened Seqs

  predicate AllDigits(s: string) {
    forall k :: 0 <= k < |s| ==> IsDigit(s[k])
  }

  function DigitValue(c: char): nat
    requires IsDigit(c)
  {
    c as int - '0' as int
  }

  /** The value of a string of decimal digits, most significant first. */
  function DigitsValue(ds: string): nat
    requires AllDigits(ds)
    decreases |ds|
  {
    if ds == [] then 0
    else DigitsValue(ds[..|ds| - 1]) * 10 + DigitValue(ds[|ds| - 1])
  }

  function Pow10(n: nat): (p: nat)
    ensures p >= 1
  {
    if n == 0 then 1 else 10 * Pow10(n - 1)
  }

  /** The value of the digits after the decimal point. */
  function FracValue(ds: string): real
    requires AllDigits(ds)
  {
    DigitsValue(ds) as real / Pow10(|ds|) as real
  }

  lemma FracValueEmpty()
    ensures FracValue([]) == 0.0
  {
  }

  /** The split of a number's text into sign, integer digits and fraction digits. */
  datatype NumText = NumText(negative: bool, whole: string, frac: string)

  /**
   Splits stripped text at an optional leading sign and the first `.`; the pieces
   are checked for digits afterwards.
   */
  function Pieces(t: string): (p: NumText)
    ensures p.negative ==> t != [] && t[0] == '-'
  {
    var negative := t != [] && t[0] == '-';
    var body := Unsign(t);
    var d := IndexOf(body, '.');
    NumText(negative, body[..d], if d < |body| then body[d + 1..] else [])
  }

  /** The number the pieces spell. */
  function Value(p: NumText): real
    requires AllDigits(p.whole) && AllDigits(p.frac)
  {
    var magnitude := DigitsValue(p.whole) as real + FracValue(p.frac);
    if p.negative then -magnitude else magnitude
  }

  /**
   The information separators U+001C..U+001F: whitespace to `str.isspace`, but
   `float` strips only the ASCII whitespace 9..13 and 32 (and the non-ASCII spaces),
   so a separator around a number makes `float` fail.
   */
  predicate IsSeparator(c: char) {
    '\U{1C}' <= c <= '\U{1F}'
  }

  /** The whitespace `float` strips around a number. */
  predicate FloatSpace(c: char) {
    IsSpace(c) && !IsSeparator(c)
  }

  predicate AllFloatSpace(s: string) {
    forall k :: 0 <= k < |s| ==> FloatSpace(s[k])
  }

  predicate NoSeparator(s: string) {
    forall k :: 0 <= k < |s| ==> !IsSeparator(s[k])
  }

  /** `float(s)` for decimal text; None where `float` raises `ValueError`. */
  function ParseNum(s: string): (r: Option<real>)
    ensures r.Some? ==> forall k :: 0 <= k < |s| ==>
              IsDigit(s[k]) || FloatSpace(s[k]) || s[k] in {'+', '-', '.'}
  {
    var p := Pieces(Strip(s));
    if NoSeparator(s) && AllDigits(p.whole) && AllDigits(p.frac) && |p.whole| + |p.frac| > 0 then
      ParseNumChars(s);
      Some(Value(p))
    else None
  }

  /** An information separator next to a number is not stripped, so the text is no number. */
  lemma ParseRejectsSeparator()
    ensures ParseNum("5\U{1C}") == None
    ensures ParseNum("\U{1F}7") == None
  {
    assert IsSeparator("5\U{1C}"[1]);
    assert IsSeparator("\U{1F}7"[0]);
  }

  /** A piece holding only digits holds none of the other characters. */
  lemma ParseNumChars(s: string)
    requires var p := Pieces(Strip(s)); AllDigits(p.whole) && AllDigits(p.frac)
    ensures forall k :: 0 <= k < |s| ==> IsDigit(s[k]) || IsSpace(s[k]) || s[k] in {'+', '-', '.'}
  {
    var t := Strip(s);
    PiecesChars(t);
    StripCover(s);
  }

  /** Every character of a string is whitespace or a character of its stripped form. */
  lemma StripCover(s: string)
    ensures forall k :: 0 <= k < |s| ==> IsSpace(s[k]) || s[k] in Strip(s)
  {
    StripSpec(s);
    SpacedCover(s, LeadEnd(s, 0), Strip(s));
  }

  /** A string made of whitespace, then `t`, then whitespace. */
  lemma SpacedCover(s: string, lo: nat, t: string)
    requires lo + |t| <= |s| && s[lo..lo + |t|] == t
    requires AllSpace(s[..lo]) && AllSpace(s[lo + |t|..])
    ensures forall k :: 0 <= k < |s| ==> IsSpace(s[k]) || s[k] in t
  {
    var pre, post := s[..lo], s[lo + |t|..];
    forall k | 0 <= k < lo
      ensures IsSpace(s[k])
    {
      assert s[k] == pre[k];
    }
    forall k | lo <= k < lo + |t|
      ensures s[k] in t
    {
      assert s[k] == t[k - lo];
    }
    forall k | lo + |t| <= k < |s|
      ensures IsSpace(s[k])
    {
      assert s[k] == post[k - lo - |t|];
    }
  }

  /** The characters of a string whose pieces are all digits. */
  lemma PiecesChars(t: string)
    requires AllDigits(Pieces(t).whole) && AllDigits(Pieces(t).frac)
    ensures forall c :: c in t ==> IsDigit(c) || c in {'+', '-', '.'}
  {
    var p := Pieces(t);
    var body := if t != [] && (t[0] == '+' || t[0] == '-') then t[1..] else t;
    var d := IndexOf(body, '.');
    forall k | 0 <= k < |body|
      ensures IsDigit(body[k]) || body[k] == '.'
    {
      if k < d {
        assert body[k] == p.whole[k];
      } else if k > d {
        assert body[k] == p.frac[k - d - 1];
      }
    }
    forall c | c in t
      ensures IsDigit(c) || c in {'+', '-', '.'}
    {
      var k :| 0 <= k < |t| && t[k] == c;
      if t[0] == '+' || t[0] == '-' {
        if k > 0 {
          assert t[k] == body[k - 1];
        }
      } else {
        assert t[k] == body[k];
      }
    }
  }

  /** The decimal text of a natural number, without leading zeros (`str(n)`). */
  function ShowNat(n: nat): (s: string)
    ensures s != [] && AllDigits(s)
    decreases n
  {
    var c := ('0' as int + n % 10) as char;
    if n < 10 then [c] else ShowNat(n / 10) + [c]
  }

  /** Reading back the digits of a number gives the number. */
  lemma {:induction false} ShowNatValue(n: nat)
    ensures DigitsValue(ShowNat(n)) == n
    decreases n
  {
    if n >= 10 {
      ShowNatValue(n / 10);
      var s := ShowNat(n);
      assert s[..|s| - 1] == ShowNat(n / 10);
    }
  }

  lemma NoDot(s: string)
    requires AllDigits(s)
    ensures IndexOf(s, '.') == |s|
  {
    forall k | 0 <= k < |s|
      ensures s[k] != '.'
    {
      assert IsDigit(s[k]);
    }
  }

  lemma DigitEdges(s: string)
    requires s != [] && AllDigits(s)
    ensures !IsSpace(s[0]) && !IsSpace(s[|s| - 1])
  {
    assert IsDigit(s[0]) && IsDigit(s[|s| - 1]);
  }

  /**
   `float(str(n))` is `n`, also with a sign and with whitespace around it: the text a
   program writes for an integer reads back as that integer.
   */
  lemma ParseShowNat(pre: string, sign: string, n: nat, post: string)
    requires AllFloatSpace(pre) && AllFloatSpace(post)
    requires sign in {"", "+", "-"}
    ensures ParseNum(pre + sign + ShowNat(n) + post) == Some(if sign == "-" then -(n as real) else n as real)
  {
    var ds := ShowNat(n);
    var x := pre + sign + ds + post;
    SignedPadded(pre, sign, ds, post);
    StripSigned(pre, sign, ds, post);
    PiecesSigned(sign, ds);
    ShowNatValue(n);
    var p := Pieces(Strip(x));
    assert p == NumText(sign == "-", ds, []);
    assert AllDigits(p.whole) && AllDigits(p.frac) && |p.whole| + |p.frac| > 0;
    assert ParseNum(x) == Some(Value(p));
    ValueWhole(sign == "-", ds);
  }

  /** A character that may appear in decimal text once the whitespace is stripped. */
  predicate NumberChar(c: char) {
    IsDigit(c) || c in {'+', '-', '.'}
  }

  lemma SignedPadded(pre: string, sign: string, ds: string, post: string)
    requires AllFloatSpace(pre) && AllFloatSpace(post)
    requires sign in {"", "+", "-"}
    requires AllDigits(ds)
    ensures AllSpace(pre) && AllSpace(post) && NoSeparator(pre + sign + ds + post)
  {
    var core := sign + ds;
    forall k | 0 <= k < |core|
      ensures NumberChar(core[k])
    {
      if k >= |sign| {
        assert core[k] == ds[k - |sign|];
      }
    }
    FloatPadded(pre, core, post);
    assert pre + sign + ds + post == pre + core + post;
  }

  /** Text padded with the whitespace `float` strips holds no separator. */
  lemma FloatPadded(pre: string, core: string, post: string)
    requires AllFloatSpace(pre) && AllFloatSpace(post)
    requires forall k :: 0 <= k < |core| ==> NumberChar(core[k])
    ensures AllSpace(pre) && AllSpace(post) && NoSeparator(pre + core + post)
  {
    var x := pre + core + post;
    forall k | 0 <= k < |x|
      ensures !IsSeparator(x[k])
    {
      if k < |pre| {
        assert x[k] == pre[k];
      } else if k < |pre| + |core| {
        assert x[k] == core[k - |pre|];
      } else {
        assert x[k] == post[k - |pre| - |core|];
      }
    }
  }

  /** A number without a fraction is its integer digits, with their sign. */
  lemma ValueWhole(negative: bool, ds: string)
    requires AllDigits(ds)
    ensures Value(NumText(negative, ds, [])) == if negative then -(DigitsValue(ds) as real) else DigitsValue(ds) as real
  {
    FracValueEmpty();
  }

  lemma StripSigned(pre: string, sign: string, ds: string, post: string)
    requires AllSpace(pre) && AllSpace(post)
    requires sign in {"", "+", "-"}
    requires ds != [] && AllDigits(ds)
    ensures Strip(pre + sign + ds + post) == sign + ds
  {
    var core := sign + ds;
    DigitEdges(ds);
    if sign != "" {
      assert core[0] == sign[0];
    }
    assert core[|core| - 1] == ds[|ds| - 1];
    assert pre + sign + ds + post == pre + core + post;
    StripPadded(pre, core, post);
  }

  lemma PiecesSigned(sign: string, ds: string)
    requires sign in {"", "+", "-"}
    requires ds != [] && AllDigits(ds)
    ensures Pieces(sign + ds) == NumText(sign == "-", ds, [])
  {
    var core := sign + ds;
    var body := if core != [] && (core[0] == '+' || core[0] == '-') then core[1..] else core;
    if sign == "" {
      assert IsDigit(ds[0]);
      assert core == ds;
    } else {
      assert core[1..] == ds;
    }
    assert body == ds;
    NoDot(ds);
    assert ds[..|ds|] == ds;
  }

  /**
   Decimal text with a point reads as its integer digits plus its fraction digits,
   with their sign, whatever whitespace surrounds it.
   */
  lemma ParseDecimal(pre: string, sign: string, whole: string, frac: string, post: string)
    requires AllFloatSpace(pre) && AllFloatSpace(post)
    requires sign in {"", "+", "-"}
    requires AllDigits(whole) && AllDigits(frac) && |whole| + |frac| > 0
    ensures ParseNum(pre + sign + whole + "." + frac + post) == Some(Value(NumText(sign == "-", whole, frac)))
  {
    var core := sign + whole + "." + frac;
    var x := pre + sign + whole + "." + frac + post;
    forall k | 0 <= k < |core|
      ensures NumberChar(core[k])
    {
      if |sign| <= k < |sign| + |whole| {
        assert core[k] == whole[k - |sign|];
      } else if k > |sign| + |whole| {
        assert core[k] == frac[k - |sign| - |whole| - 1];
      }
    }
    FloatPadded(pre, core, post);
    assert x == pre + core + post;
    StripDecimal(pre, sign, whole, frac, post);
    PiecesDecimal(sign, whole, frac);
    var p := Pieces(Strip(x));
    assert p == NumText(sign == "-", whole, frac);
    assert ParseNum(x) == Some(Value(p));
  }

  lemma StripDecimal(pre: string, sign: string, whole: string, frac: string, post: string)
    requires AllSpace(pre) && AllSpace(post)
    requires sign in {"", "+", "-"}
    requires AllDigits(whole) && AllDigits(frac)
    ensures Strip(pre + sign + whole + "." + frac + post) == sign + whole + "." + frac
  {
    var core := sign + whole + "." + frac;
    if sign != "" {
      assert core[0] == sign[0];
    } else if whole != [] {
      assert core[0] == whole[0] && IsDigit(whole[0]);
    } else {
      assert core[0] == '.';
    }
    if frac != [] {
      assert core[|core| - 1] == frac[|frac| - 1] && IsDigit(frac[|frac| - 1]);
    } else {
      assert core[|core| - 1] == '.';
    }
    assert pre + sign + whole + "." + frac + post == pre + core + post;
    StripPadded(pre, core, post);
  }

  lemma PiecesDecimal(sign: string, whole: string, frac: string)
    requires sign in {"", "+", "-"}
    requires AllDigits(whole) && AllDigits(frac)
    ensures Pieces(sign + whole + "." + frac) == NumText(sign == "-", whole, frac)
  {
    var body := whole + "." + frac;
    Regroup(sign, whole, ".", frac);
    if whole != [] {
      assert body[0] == whole[0] && IsDigit(whole[0]);
    }
    Unsigned(sign, body);
    SplitAtPoint(whole, frac);
  }

  lemma Regroup(a: string, b: string, c: string, d: string)
    ensures a + b + c + d == a + (b + c + d)
  {
  }

  /** The text after an optional sign. */
  function Unsign(t: string): string {
    if t != [] && (t[0] == '+' || t[0] == '-') then t[1..] else t
  }

  lemma Unsigned(sign: string, body: string)
    requires sign in {"", "+", "-"}
    requires body == [] || (body[0] != '+' && body[0] != '-')
    ensures Unsign(sign + body) == body
    ensures (sign + body != [] && (sign + body)[0] == '-') == (sign == "-")
  {
    if sign == "" {
      assert sign + body == body;
    } else {
      assert (sign + body)[1..] == body;
    }
  }

  lemma SplitAtPoint(whole: string, frac: string)
    requires AllDigits(whole)
    ensures var body := whole + "." + frac;
            var d := IndexOf(body, '.');
            d == |whole| && body[..d] == whole && body[d + 1..] == frac
  {
    var body := whole + "." + frac;
    NoDot(whole);
    assert body == whole + ("." + frac);
    IndexOfAfter(whole, '.', "." + frac);
    assert body[..|whole|] == whole && body[|whole| + 1..] == frac;
  }

  /** The first occurrence in `a + b` of a value missing from `a` is the first in `b`, shifted. */
  lemma {:induction false} IndexOfAfter<T>(a: seq<T>, x: T, b: seq<T>)
    requires x !in a
    ensures IndexOf(a + b, x) == |a| + IndexOf(b, x)
    decreases |a|
  {
    if a != [] {
      assert (a + b)[1..] == a[1..] + b;
      IndexOfAfter(a[1..], x, b);
    } else {
      assert a + b == b;
    }
  }

  /** The digits of a number below `10^n` fit in `n` places. */
  lemma {:induction false} DigitsBound(ds: string)
    requires AllDigits(ds)
    ensures DigitsValue(ds) < Pow10(|ds|)
    decreases |ds|
  {
    if ds != [] {
      DigitsBound(ds[..|ds| - 1]);
    }
  }

  /** A fraction lies in [0, 1). */
  lemma FracValueRange(ds: string)
    requires AllDigits(ds)
    ensures 0.0 <= FracValue(ds) < 1.0
  {
    DigitsBound(ds);
    QuotientBelowOne(DigitsValue(ds) as real, Pow10(|ds|) as real);
  }

  lemma QuotientBelowOne(d: real, q: real)
    requires 0.0 <= d < q
    ensures 0.0 <= d / q < 1.0
  {
    var r := d / q;
    assert r * q == d;
  }

  /** Text without a single digit is never a number. */
  lemma ParseNoDigits(s: string)
    requires forall k :: 0 <= k < |s| ==> !IsDigit(s[k])
    ensures ParseNum(s) == None
  {
    var t := Strip(s);
    StripSlice(s);
    assert forall c :: c in t ==> !IsDigit(c);
    var p := Pieces(t);
    PiecesFrom(t);
    if |p.whole| > 0 {
      assert p.whole[0] in t;
    }
    if |p.frac| > 0 {
      assert p.frac[0] in t;
    }
  }

  /** The pieces are made of characters of the text. */
  lemma PiecesFrom(t: string)
    ensures forall c :: c in Pieces(t).whole ==> c in t
    ensures forall c :: c in Pieces(t).frac ==> c in t
  {
    var body := if t != [] && (t[0] == '+' || t[0] == '-') then t[1..] else t;
    var d := IndexOf(body, '.');
    assert forall c :: c in body ==> c in t;
    assert forall c :: c in body[..d] ==> c in body;
    if d < |body| {
      assert forall c :: c in body[d + 1..] ==> c in body;
    }
  }

  /** The empty string is not a number. */
  lemma ParseRejectsEmpty()
    ensures ParseNum("") == None
  {
    ParseNoDigits("");
  }

  /** A lone sign is not a number. */
  lemma ParseRejectsSign()
    ensures ParseNum("-") == None
  {
    ParseNoDigits("-");
  }

  /** A lone decimal point is not a number. */
  lemma ParseRejectsPoint()
    ensures ParseNum(".") == None
  {
    ParseNoDigits(".");
  }
}
