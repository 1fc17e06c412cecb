/**
 A parsed log line is a record: a mapping from field name to field value. Python
 dictionaries also remember insertion order; no operation modelled here depends on
 it, so a Dafny `map` carries all the information that matters.
 */
module Records {

  type Record = map<string, string>

  /** `rec.get(k, default)`. */
  function Get(rec: Record, k: string, default: string): string {
    if k in rec then rec[k] else default
  }

  /** `n` is the last position in `pairs` whose key is `pairs[n].0`. */
  predicate IsLastOfKey(pairs: seq<(string, string)>, n: nat)
    requires n < |pairs|
  {
    forall m :: n < m < |pairs| ==> pairs[m].0 != pairs[n].0
  }

  /**
   The dictionary built by assigning `d[k] = v` for each pair in order, starting from
   `{}`.
   */
  function Assign(pairs: seq<(string, string)>): map<string, string>
    decreases |pairs|
  {
    if pairs == [] then map[]
    else Assign(pairs[..|pairs| - 1])[pairs[|pairs| - 1].0 := pairs[|pairs| - 1].1]
  }

  /**
   Every key that occurs is present, nothing else is, and a repeated key keeps the
   value of its last occurrence.
   */
  lemma {:induction false} AssignSpec(pairs: seq<(string, string)>)
    ensures Assign(pairs).Keys == set n | 0 <= n < |pairs| :: pairs[n].0
    ensures forall n :: 0 <= n < |pairs| && IsLastOfKey(pairs, n) ==> Assign(pairs)[pairs[n].0] == pairs[n].1
    decreases |pairs|
  {
    if pairs != [] {
      var init, p := pairs[..|pairs| - 1], pairs[|pairs| - 1];
      assert pairs == init + [p];
      AssignSpec(init);
      AssignSnoc(init, p);
      KeySetSnoc(init, p);
      forall n | 0 <= n < |pairs| && IsLastOfKey(pairs, n)
        ensures Assign(pairs)[pairs[n].0] == pairs[n].1
      {
        if n < |init| {
          assert init[n] == pairs[n];
          assert p.0 != pairs[n].0;
          forall m | n < m < |init|
            ensures init[m].0 != init[n].0
          {
            assert init[m] == pairs[m];
          }
          assert IsLastOfKey(init, n);
        }
      }
    }
  }

  /** The keys of the pairs with one more pair at the end. */
  lemma KeySetSnoc(init: seq<(string, string)>, p: (string, string))
    ensures (set n | 0 <= n < |init + [p]| :: (init + [p])[n].0)
            == (set n | 0 <= n < |init| :: init[n].0) + {p.0}
  {
    var pairs := init + [p];
    var after := set n | 0 <= n < |pairs| :: pairs[n].0;
    var before := set n | 0 <= n < |init| :: init[n].0;
    forall k | k in after
      ensures k in before + {p.0}
    {
      var n :| 0 <= n < |pairs| && pairs[n].0 == k;
      if n < |init| {
        assert init[n] == pairs[n];
      }
    }
    forall k | k in before + {p.0}
      ensures k in after
    {
      if k == p.0 {
        assert pairs[|init|].0 == k;
      } else {
        var n :| 0 <= n < |init| && init[n].0 == k;
        assert pairs[n] == init[n];
      }
    }
  }

  /** The keys of all records of a collection, as `all_keys.update(data.keys())` gathers them. */
  function AllKeys(records: seq<Record>): set<string>
    decreases |records|
  {
    if records == [] then {}
    else AllKeys(records[..|records| - 1]) + records[|records| - 1].Keys
  }

  /** A key is gathered exactly when some record has it. */
  lemma {:induction false} AllKeysSpec(records: seq<Record>)
    ensures forall k :: k in AllKeys(records) <==> exists n :: 0 <= n < |records| && k in records[n]
    decreases |records|
  {
    if records != [] {
      var init := records[..|records| - 1];
      AllKeysSpec(init);
      assert forall n :: 0 <= n < |init| ==> init[n] == records[n];
    }
  }

  lemma AllKeysSnoc(records: seq<Record>, rec: Record)
    ensures AllKeys(records + [rec]) == AllKeys(records) + rec.Keys
  {
    assert (records + [rec])[..|records|] == records;
  }

  /** Assigning one more pair updates the dictionary built so far. */
  lemma AssignSnoc(pairs: seq<(string, string)>, p: (string, string))
    ensures Assign(pairs + [p]) == Assign(pairs)[p.0 := p.1]
  {
    assert (pairs + [p])[..|pairs|] == pairs;
  }
}
