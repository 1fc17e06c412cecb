/**
 The colour tag of a table row (`refresh_table`, src/main.py:230-237). The `level` and
 `action` fields are lower-cased, a missing field reading as the empty string. A row
 is critical when its level is alert, critical or error, or when its action is deny or
 block; otherwise it is a warning when its level is warning or notice; otherwise it
 carries no tag. Membership is exact: "errors" is not "error".
 */
module Severity {
  import opened Text
  import opened Records

  datatype Tag = Critical | Warning | Plain

  const CriticalLevels: set<string> := {"alert", "critical", "error"}
  const BlockingActions: set<string> := {"deny", "block"}
  const WarningLevels: set<string> := {"warning", "notice"}

  function LevelOf(rec: Record): string {
    Lower(Get(rec, "level", ""))
  }

  function ActionOf(rec: Record): string {
    Lower(Get(rec, "action", ""))
  }

  /** The tag of a row. */
  function TagOf(rec: Record): (t: Tag)
    ensures t == Critical <==> LevelOf(rec) in CriticalLevels || ActionOf(rec) in BlockingActions
    ensures t == Warning <==> LevelOf(rec) !in CriticalLevels && ActionOf(rec) !in BlockingActions
                              && LevelOf(rec) in WarningLevels
  {
    var level, action := LevelOf(rec), ActionOf(rec);
    if level in CriticalLevels || action in BlockingActions then Critical
    else if level in WarningLevels then Warning
    else Plain
  }

  /** A blocking action makes the row critical whatever its level, even a warning one. */
  lemma ActionOverridesLevel(rec: Record)
    requires ActionOf(rec) in BlockingActions
    ensures TagOf(rec) == Critical
  {
  }

  /** A row with neither field carries no tag. */
  lemma UntaggedWithoutFields(rec: Record)
    requires "level" !in rec && "action" !in rec
    ensures TagOf(rec) == Plain
  {
    assert Lower("") == "";
  }

  /**
   The tag ignores the case of the fields: a record whose level and action have the
   same lower-cased text gets the same tag.
   */
  lemma TagIgnoresCase(a: Record, b: Record)
    requires Lower(Get(a, "level", "")) == Lower(Get(b, "level", ""))
    requires Lower(Get(a, "action", "")) == Lower(Get(b, "action", ""))
    ensures TagOf(a) == TagOf(b)
  {
  }

  /** Upper-case values are recognised, and a record without either field is untagged. */
  lemma ClassifyExamples()
    ensures TagOf(map["level" := "ERROR"]) == Critical
    ensures TagOf(map["action" := "Block"]) == Critical
    ensures TagOf(map["level" := "Notice"]) == Warning
    ensures TagOf(map[]) == Plain
  {
    assert Lower("ERROR") == "error";
    assert Lower("Block") == "block";
    assert Lower("Notice") == "notice";
    assert Lower("") == "";
  }

  /** Exact membership: "errors" and "denied" are neither critical nor warnings. */
  lemma NearMisses(rec: Record)
    requires Get(rec, "level", "") == "errors" && Get(rec, "action", "") == "denied"
    ensures TagOf(rec) == Plain
  {
    assert Lower("errors") == "errors";
    assert Lower("denied") == "denied";
  }
}
