/**
 The already-parsed JSON document the extractor works on.

 Objects are association lists so that the iteration order of a Python
 dict (`dict.values()`, `dict.items()`) is explicit. `json.load` keeps one
 entry per key, so on parsed documents the first-match lookup `Get` is
 exactly `dict.get`. Numbers are only ever passed through; a `real`
 holds both JSON integers and decimal literals such as 52.1.
 */
module JsonValue {
  import opened Wrappers

  datatype Json =
    | JNull
    | JBool(b: bool)
    | JNum(n: real)
    | JStr(s: string)
    | JArr(items: seq<Json>)
    | JObj(fields: seq<(string, Json)>)

  /** Python's `k in d` for a dict `d`: the key is present, whatever its value. */
  predicate HasKey<V>(entries: seq<(string, V)>, k: string) {
    exists i :: 0 <= i < |entries| && entries[i].0 == k
  }

  /** Every key occurs once, as in any Python dict. */
  predicate UniqueKeys<V>(entries: seq<(string, V)>) {
    forall i, j :: 0 <= i < j < |entries| ==> entries[i].0 != entries[j].0
  }

  /** `dict.get(k)`: the value stored under `k`, or `None` when `k` is missing. */
  function Get<V>(fields: seq<(string, V)>, k: string): (r: Option<V>)
    ensures r.None? <==> !HasKey(fields, k)
    ensures r.Some? ==>
      exists i :: 0 <= i < |fields| && fields[i] == (k, r.value)
                  && forall j :: 0 <= j < i ==> fields[j].0 != k
  {
    if |fields| == 0 then None
    else if fields[0].0 == k then Some(fields[0].1)
    else
      var r := Get(fields[1..], k);
      assert r.Some? ==> exists i :: 0 < i < |fields| && fields[i] == (k, r.value)
                                     && forall j :: 0 <= j < i ==> fields[j].0 != k by {
        if r.Some? {
          var i' :| 0 <= i' < |fields| - 1 && fields[1..][i'] == (k, r.value)
                    && forall j :: 0 <= j < i' ==> fields[1..][j].0 != k;
          assert fields[i' + 1] == (k, r.value);
          assert forall j :: 1 <= j < i' + 1 ==> fields[j].0 == fields[1..][j - 1].0;
        }
      }
      assert !HasKey(fields[1..], k) ==> !HasKey(fields, k) by {
        if HasKey(fields, k) {
          var i :| 0 <= i < |fields| && fields[i].0 == k;
          assert i > 0 && fields[1..][i - 1].0 == k;
        }
      }
      r
  }

  /** On a Python dict (unique keys) lookup finds the one entry stored under a key. */
  lemma GetUnique<V>(fields: seq<(string, V)>, i: nat)
    requires UniqueKeys(fields)
    requires i < |fields|
    ensures Get(fields, fields[i].0) == Some(fields[i].1)
  {
    var r := Get(fields, fields[i].0);
    var j :| 0 <= j < |fields| && fields[j] == (fields[i].0, r.value)
              && forall m :: 0 <= m < j ==> fields[m].0 != fields[i].0;
    assert j == i;
  }

  /**
   `x` occurs somewhere inside `v` (or is `v`): the sub-values reachable by
   descending into list items and dict values.
   */
  ghost predicate SubValue(x: Json, v: Json)
    decreases v
  {
    || x == v
    || (v.JArr? && exists i :: 0 <= i < |v.items| && SubValue(x, v.items[i]))
    || (v.JObj? && exists i :: 0 <= i < |v.fields| && SubValue(x, v.fields[i].1))
  }
}
