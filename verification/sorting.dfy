/**
 Python's `list.sort(key=…, reverse=…)`, which is stable in both directions: elements
 with equal keys keep their relative order even when `reverse=True`. The model is an
 insertion sort that places each element after every element already placed whose
 key it does not strictly precede.

 Keys are either numbers (the `float` key of a numeric column, or a count) or
 lower-cased strings. One sort only ever compares keys of one kind; the order puts
 numbers before strings so that it is total all the same.
 */
module Sorting {
  import opened Text
  import opened Seqs

  datatype SortKey = Num(x: real) | Str(s: string)

  /** Strict order on keys: numbers by value, strings by code point. */
  predicate KeyLt(a: SortKey, b: SortKey) {
    match (a, b)
    case (Num(x), Num(y)) => x < y
    case (Str(s), Str(t)) => LexLt(s, t)
    case (Num(_), Str(_)) => true
    case (Str(_), Num(_)) => false
  }

  lemma KeyLtIrreflexive(a: SortKey)
    ensures !KeyLt(a, a)
  {
    if a.Str? {
      LexIrreflexive(a.s);
    }
  }

  lemma KeyLtTransitive(a: SortKey, b: SortKey, c: SortKey)
    requires KeyLt(a, b) && KeyLt(b, c)
    ensures KeyLt(a, c)
  {
    if a.Str? {
      LexTransitive(a.s, b.s, c.s);
    }
  }

  lemma KeyLtTotal(a: SortKey, b: SortKey)
    ensures a == b || KeyLt(a, b) || KeyLt(b, a)
  {
    if a.Str? && b.Str? && a.s != b.s {
      LexTotal(a.s, b.s);
    }
  }

  /** `a` comes strictly before `b` in the direction of the sort. */
  predicate Prec(a: SortKey, b: SortKey, asc: bool) {
    if asc then KeyLt(a, b) else KeyLt(b, a)
  }

  lemma PrecIrreflexive(a: SortKey, asc: bool)
    ensures !Prec(a, a, asc)
  {
    KeyLtIrreflexive(a);
  }

  lemma PrecTransitive(a: SortKey, b: SortKey, c: SortKey, asc: bool)
    requires Prec(a, b, asc) && Prec(b, c, asc)
    ensures Prec(a, c, asc)
  {
    if asc {
      KeyLtTransitive(a, b, c);
    } else {
      KeyLtTransitive(c, b, a);
    }
  }

  lemma PrecTotal(a: SortKey, b: SortKey, asc: bool)
    ensures a == b || Prec(a, b, asc) || Prec(b, a, asc)
  {
    KeyLtTotal(a, b);
  }

  lemma PrecAsymmetric(a: SortKey, b: SortKey, asc: bool)
    requires Prec(a, b, asc)
    ensures !Prec(b, a, asc)
  {
    if Prec(b, a, asc) {
      PrecTransitive(a, b, a, asc);
      PrecIrreflexive(a, asc);
    }
  }

  /** No element's key strictly precedes the key of an element placed before it. */
  predicate Ordered<V>(s: seq<V>, key: V -> SortKey, asc: bool) {
    forall i, j :: 0 <= i < j < |s| ==> !Prec(key(s[j]), key(s[i]), asc)
  }

  /** Where `x` goes in an ordered sequence: before the first element its key strictly precedes. */
  function Slot<V>(r: seq<V>, x: V, key: V -> SortKey, asc: bool): (i: nat)
    ensures i <= |r|
    ensures forall m :: 0 <= m < i ==> !Prec(key(x), key(r[m]), asc)
    ensures i < |r| ==> Prec(key(x), key(r[i]), asc)
  {
    if r == [] then 0
    else if Prec(key(x), key(r[0]), asc) then 0
    else 1 + Slot(r[1..], x, key, asc)
  }

  function Insert<V>(r: seq<V>, x: V, key: V -> SortKey, asc: bool): seq<V> {
    var i := Slot(r, x, key, asc);
    r[..i] + [x] + r[i..]
  }

  /** `sorted(s, key=key, reverse=not asc)`. */
  function Sort<V>(s: seq<V>, key: V -> SortKey, asc: bool): seq<V>
    decreases |s|
  {
    if s == [] then []
    else Insert(Sort(s[..|s| - 1], key, asc), s[|s| - 1], key, asc)
  }

  /** Inserting into an ordered sequence keeps it ordered. */
  lemma InsertOrdered<V>(r: seq<V>, x: V, key: V -> SortKey, asc: bool)
    requires Ordered(r, key, asc)
    ensures Ordered(Insert(r, x, key, asc), key, asc)
  {
    var i := Slot(r, x, key, asc);
    var t := Insert(r, x, key, asc);
    forall a, b | 0 <= a < b < |t|
      ensures !Prec(key(t[b]), key(t[a]), asc)
    {
      if b < i {
        assert t[a] == r[a] && t[b] == r[b];
      } else if b == i {
        assert t[a] == r[a] && t[b] == x;
      } else if a < i {
        assert t[a] == r[a] && t[b] == r[b - 1];
      } else if a == i {
        assert t[a] == x && t[b] == r[b - 1];
        AfterSlot(r, x, key, asc, b - 1);
        PrecAsymmetric(key(x), key(r[b - 1]), asc);
      } else {
        assert t[a] == r[a - 1] && t[b] == r[b - 1];
      }
    }
  }

  /** In an ordered sequence, `x` strictly precedes every element from its slot on. */
  lemma AfterSlot<V>(r: seq<V>, x: V, key: V -> SortKey, asc: bool, m: nat)
    requires Ordered(r, key, asc)
    requires Slot(r, x, key, asc) <= m < |r|
    ensures Prec(key(x), key(r[m]), asc)
    ensures key(r[m]) != key(x)
  {
    var i := Slot(r, x, key, asc);
    if m > i {
      assert !Prec(key(r[m]), key(r[i]), asc);
      PrecTotal(key(r[i]), key(r[m]), asc);
      if key(r[i]) != key(r[m]) {
        PrecTransitive(key(x), key(r[i]), key(r[m]), asc);
      }
    }
    PrecIrreflexive(key(x), asc);
  }

  lemma InsertCount<V>(r: seq<V>, x: V, key: V -> SortKey, asc: bool)
    ensures multiset(Insert(r, x, key, asc)) == multiset(r) + multiset{x}
  {
    var i := Slot(r, x, key, asc);
    assert r == r[..i] + r[i..];
  }

  /** The sort is a permutation of its input. */
  lemma {:induction false} SortPermutes<V>(s: seq<V>, key: V -> SortKey, asc: bool)
    ensures multiset(Sort(s, key, asc)) == multiset(s)
    decreases |s|
  {
    if s != [] {
      var init := s[..|s| - 1];
      SortPermutes(init, key, asc);
      InsertCount(Sort(init, key, asc), s[|s| - 1], key, asc);
      assert s == init + [s[|s| - 1]];
    }
  }

  /** The sort's output is ordered by key in the requested direction. */
  lemma {:induction false} SortOrdered<V>(s: seq<V>, key: V -> SortKey, asc: bool)
    ensures Ordered(Sort(s, key, asc), key, asc)
    decreases |s|
  {
    if s != [] {
      var init := s[..|s| - 1];
      SortOrdered(init, key, asc);
      InsertOrdered(Sort(init, key, asc), s[|s| - 1], key, asc);
    }
  }

  /** The elements whose key is `k`. */
  function HasKey<V>(key: V -> SortKey, k: SortKey): V -> bool {
    v => key(v) == k
  }

  /** Inserting `x` puts it after every element already there with the same key. */
  lemma InsertStable<V>(r: seq<V>, x: V, key: V -> SortKey, asc: bool, k: SortKey)
    requires Ordered(r, key, asc)
    ensures Select(Insert(r, x, key, asc), HasKey(key, k))
            == Select(r, HasKey(key, k)) + (if key(x) == k then [x] else [])
  {
    var i := Slot(r, x, key, asc);
    var p := HasKey(key, k);
    var lo, hi := r[..i], r[i..];
    assert Insert(r, x, key, asc) == lo + [x] + hi;
    SelectSplice(lo, x, hi, p);
    assert r == lo + hi;
    SelectAppend(lo, hi, p);
    if key(x) == k {
      SlotTailOtherKeys(r, x, key, asc);
    }
    StableCombine(Select(lo, p), Select(hi, p), x, p(x));
  }

  /** `a + [x] + b` equals `a + b + [x]` when `b` is empty, and leaving out `x` gives `a + b`. */
  lemma StableCombine<V>(a: seq<V>, b: seq<V>, x: V, px: bool)
    requires px ==> b == []
    ensures a + (if px then [x] else []) + b == a + b + (if px then [x] else [])
  {
  }

  /** Selecting from a sequence with one element spliced in. */
  lemma SelectSplice<V>(lo: seq<V>, x: V, hi: seq<V>, p: V -> bool)
    ensures Select(lo + [x] + hi, p) == Select(lo, p) + (if p(x) then [x] else []) + Select(hi, p)
  {
    SelectAppend(lo + [x], hi, p);
    SelectAppend(lo, [x], p);
    SelectSingle(x, p);
  }

  lemma SelectSingle<V>(x: V, p: V -> bool)
    ensures Select([x], p) == if p(x) then [x] else []
  {
    assert [x][..0] == [];
  }

  /** No element from the slot of `x` on has the key of `x`. */
  lemma SlotTailOtherKeys<V>(r: seq<V>, x: V, key: V -> SortKey, asc: bool)
    requires Ordered(r, key, asc)
    ensures Select(r[Slot(r, x, key, asc)..], HasKey(key, key(x))) == []
  {
    var i := Slot(r, x, key, asc);
    var hi := r[i..];
    var p := HasKey(key, key(x));
    forall m | 0 <= m < |hi|
      ensures !p(hi[m])
    {
      AfterSlot(r, x, key, asc, i + m);
    }
    SelectNone(hi, p);
  }

  /**
   The sort is stable: the elements with any one key appear in the output in the
   order they had in the input, in both directions.
   */
  lemma {:induction false} SortStable<V>(s: seq<V>, key: V -> SortKey, asc: bool, k: SortKey)
    ensures Select(Sort(s, key, asc), HasKey(key, k)) == Select(s, HasKey(key, k))
    decreases |s|
  {
    if s != [] {
      var init := s[..|s| - 1];
      SortStable(init, key, asc, k);
      SortOrdered(init, key, asc);
      InsertStable(Sort(init, key, asc), s[|s| - 1], key, asc, k);
    }
  }

  /** A sequence that is already ordered is left as it is. */
  lemma {:induction false} SortOfOrdered<V>(s: seq<V>, key: V -> SortKey, asc: bool)
    requires Ordered(s, key, asc)
    ensures Sort(s, key, asc) == s
    decreases |s|
  {
    if s != [] {
      var init, x := s[..|s| - 1], s[|s| - 1];
      assert Ordered(init, key, asc);
      SortOfOrdered(init, key, asc);
      assert forall m :: 0 <= m < |init| ==> init[m] == s[m];
      SlotAtEnd(init, x, key, asc);
      assert init + [x] == s;
    }
  }

  /** An element no key of `r` comes after goes at the end. */
  lemma {:induction false} SlotAtEnd<V>(r: seq<V>, x: V, key: V -> SortKey, asc: bool)
    requires forall m :: 0 <= m < |r| ==> !Prec(key(x), key(r[m]), asc)
    ensures Slot(r, x, key, asc) == |r|
    ensures Insert(r, x, key, asc) == r + [x]
    decreases |r|
  {
    if r != [] {
      assert forall m :: 0 <= m < |r[1..]| ==> r[1..][m] == r[m + 1];
      SlotAtEnd(r[1..], x, key, asc);
    }
  }

  /** Sorting twice is sorting once. */
  lemma SortIdempotent<V>(s: seq<V>, key: V -> SortKey, asc: bool)
    ensures Sort(Sort(s, key, asc), key, asc) == Sort(s, key, asc)
  {
    SortOrdered(s, key, asc);
    SortOfOrdered(Sort(s, key, asc), key, asc);
  }
}
