/**
 Dot-separated key paths (`get_by_path` in json_processor.py).

 A path is split exactly like Python's `path.split(".")`: there is always at
 least one segment and empty segments are kept. Resolution walks one dict
 key per segment and gives up (`None`) at the first step whose current value
 is not a dict, whose key is missing, or whose value is JSON null.
 */
module PathLookup {
  import opened Wrappers
  import opened JsonValue

  predicate DotFree(seg: string) {
    '.' !in seg
  }

  /** The segments joined back together with '.' separators (`".".join`). */
  function Join(segs: seq<string>): string
    requires |segs| >= 1
  {
    if |segs| == 1 then segs[0] else segs[0] + "." + Join(segs[1..])
  }

  /** Python's `s.split(".")`. */
  function Split(s: string): (segs: seq<string>)
    ensures |segs| >= 1
    ensures forall i :: 0 <= i < |segs| ==> DotFree(segs[i])
    ensures Join(segs) == s
  {
    if |s| == 0 then [""]
    else
      var rest := Split(s[1..]);
      if s[0] == '.' then
        assert s == [] + "." + Join(rest);
        [""] + rest
      else
        var segs := [[s[0]] + rest[0]] + rest[1..];
        assert segs[1..] == rest[1..];
        assert s == [s[0]] + Join(rest);
        segs
  }

  lemma {:induction false} SplitDotFree(a: string)
    requires DotFree(a)
    ensures Split(a) == [a]
  {
    if |a| > 0 {
      assert a[0] != '.';
      assert DotFree(a[1..]) by { assert forall c :: c in a[1..] ==> c in a; }
      SplitDotFree(a[1..]);
      assert [a[0]] + a[1..] == a;
    }
  }

  lemma {:induction false} SplitAtFirstDot(a: string, b: string)
    requires DotFree(a)
    ensures Split(a + "." + b) == [a] + Split(b)
  {
    if |a| == 0 {
      assert a + "." + b == "." + b;
      assert ("." + b)[1..] == b;
    } else {
      assert DotFree(a[1..]) by { assert forall c :: c in a[1..] ==> c in a; }
      SplitAtFirstDot(a[1..], b);
      var s := a + "." + b;
      assert s[0] == a[0] && s[0] != '.';
      assert s[1..] == a[1..] + "." + b;
      assert [a[0]] + a[1..] == a;
    }
  }

  /** Splitting undoes joining for segments that hold no dot. */
  lemma {:induction false} SplitJoin(segs: seq<string>)
    requires |segs| >= 1
    requires forall i :: 0 <= i < |segs| ==> DotFree(segs[i])
    ensures Split(Join(segs)) == segs
  {
    if |segs| == 1 {
      SplitDotFree(segs[0]);
    } else {
      SplitJoin(segs[1..]);
      SplitAtFirstDot(segs[0], Join(segs[1..]));
      assert [segs[0]] + segs[1..] == segs;
    }
  }

  /** The single step `current = current.get(key)` followed by the `None` test. */
  function Step(cur: Json, key: string): (r: Option<Json>)
    ensures r.Some? <==> cur.JObj? && HasKey(cur.fields, key) && Get(cur.fields, key) != Some(JNull)
    ensures r.Some? ==> Get(cur.fields, key) == r && r.value != JNull
  {
    match cur
    case JObj(fields) =>
      (match Get(fields, key)
       case Some(v) => if v == JNull then None else Some(v)
       case None => None)
    case _ => None
  }

  /** The loop of `get_by_path` over already-split keys. */
  function Walk(cur: Json, keys: seq<string>): (r: Option<Json>)
    ensures |keys| == 0 ==> r == Some(cur)
    ensures |keys| > 0 && Step(cur, keys[0]).None? ==> r.None?
    ensures |keys| > 0 ==> r != Some(JNull)
  {
    if |keys| == 0 then Some(cur)
    else
      match Step(cur, keys[0])
      case None => None
      case Some(next) => Walk(next, keys[1..])
  }

  /** `get_by_path(data, path)`. */
  function GetByPath(data: Json, path: string): (r: Option<Json>)
    ensures r != Some(JNull)
    ensures !data.JObj? ==> r.None?
  {
    var keys := Split(path);
    WalkNeverNull(data, keys);
    Walk(data, keys)
  }

  lemma {:induction false} WalkNeverNull(cur: Json, keys: seq<string>)
    requires |keys| >= 1
    ensures Walk(cur, keys) != Some(JNull)
  {
    match Step(cur, keys[0])
    case None =>
    case Some(next) =>
      if |keys| > 1 {
        WalkNeverNull(next, keys[1..]);
      }
  }

  /**
   The successful walks, stated without `Walk`: `vals` is the chain of
   values visited, each reached from the previous one by looking up the
   next key in a dict and finding a non-null value.
   */
  ghost predicate IsChain(data: Json, keys: seq<string>, vals: seq<Json>) {
    && |vals| == |keys| + 1
    && vals[0] == data
    && forall i {:trigger keys[i]} :: 0 <= i < |keys| ==> Linked(vals[i], keys[i], vals[i + 1])
  }

  /** `b` is the non-null value dict `a` holds under `key`. */
  predicate Linked(a: Json, key: string, b: Json) {
    a.JObj? && Get(a.fields, key) == Some(b) && b != JNull
  }

  /** The values a walk visits, as far as it gets. */
  function Trace(cur: Json, keys: seq<string>): (vals: seq<Json>)
    ensures 1 <= |vals| <= |keys| + 1
    ensures vals[0] == cur
  {
    if |keys| == 0 then [cur]
    else
      match Step(cur, keys[0])
      case None => [cur]
      case Some(next) => [cur] + Trace(next, keys[1..])
  }

  /**
   A walk succeeds with `v` exactly when there is a chain of dict lookups,
   none of them missing or null, that consumes every key and ends at `v`.
   */
  lemma {:induction false} WalkSomeIffChain(cur: Json, keys: seq<string>, v: Json)
    ensures Walk(cur, keys) == Some(v) <==>
            exists vals :: IsChain(cur, keys, vals) && vals[|keys|] == v
  {
    if Walk(cur, keys) == Some(v) {
      TraceIsChain(cur, keys, v);
    }
    if exists vals :: IsChain(cur, keys, vals) && vals[|keys|] == v {
      var vals :| IsChain(cur, keys, vals) && vals[|keys|] == v;
      ChainWalks(cur, keys, vals);
    }
  }

  /** One successful lookup in front of a chain extends it by one step. */
  lemma ChainCons(cur: Json, key: string, keys: seq<string>, vals: seq<Json>)
    requires |vals| > 0 && IsChain(vals[0], keys, vals)
    requires cur.JObj? && Get(cur.fields, key) == Some(vals[0]) && vals[0] != JNull
    ensures IsChain(cur, [key] + keys, [cur] + vals)
  {
    var ks := [key] + keys;
    var vs := [cur] + vals;
    forall i {:trigger ks[i]} | 0 <= i < |ks|
      ensures Linked(vs[i], ks[i], vs[i + 1])
    {
      if i > 0 {
        assert ks[i] == keys[i - 1] && vs[i] == vals[i - 1] && vs[i + 1] == vals[i];
      }
    }
    assert |vs| == |ks| + 1 && vs[0] == cur;
  }

  lemma {:induction false} TraceIsChain(cur: Json, keys: seq<string>, v: Json)
    requires Walk(cur, keys) == Some(v)
    ensures IsChain(cur, keys, Trace(cur, keys)) && Trace(cur, keys)[|keys|] == v
  {
    if |keys| > 0 {
      var next := Step(cur, keys[0]).value;
      TraceIsChain(next, keys[1..], v);
      var t := Trace(next, keys[1..]);
      assert Trace(cur, keys) == [cur] + t;
      ChainCons(cur, keys[0], keys[1..], t);
      assert [keys[0]] + keys[1..] == keys;
    } else {
      assert Trace(cur, keys) == [cur];
    }
  }

  lemma ChainWalks(cur: Json, keys: seq<string>, vals: seq<Json>)
    requires IsChain(cur, keys, vals)
    ensures Walk(cur, keys) == Some(vals[|keys|])
  {
    ChainWalksFrom(keys, vals, 0);
    assert keys[0..] == keys;
  }

  lemma {:induction false} ChainWalksFrom(keys: seq<string>, vals: seq<Json>, k: nat)
    requires |vals| > 0 && IsChain(vals[0], keys, vals)
    requires k <= |keys|
    ensures Walk(vals[k], keys[k..]) == Some(vals[|keys|])
    decreases |keys| - k
  {
    if k < |keys| {
      ChainWalksFrom(keys, vals, k + 1);
      assert keys[k..][0] == keys[k];
      assert keys[k..][1..] == keys[k + 1..];
      assert Step(vals[k], keys[k]) == Some(vals[k + 1]);
    }
  }

  /** Why a single step gives up: not a dict, key missing, or value null. */
  predicate StepFails(cur: Json, key: string) {
    || !cur.JObj?
    || !HasKey(cur.fields, key)
    || Get(cur.fields, key) == Some(JNull)
  }

  /**
   A walk is absent exactly when, after some prefix of the keys walked
   successfully, the next step hits a non-dict, a missing key or a null.
   */
  lemma {:induction false} WalkNoneIffSomeStepFails(cur: Json, keys: seq<string>)
    ensures Walk(cur, keys).None? <==>
            exists i :: 0 <= i < |keys| && Walk(cur, keys[..i]).Some?
                        && StepFails(Walk(cur, keys[..i]).value, keys[i])
  {
    if |keys| > 0 {
      assert keys[..0] == [];
      match Step(cur, keys[0])
      case None =>
        assert StepFails(Walk(cur, keys[..0]).value, keys[0]);
      case Some(next) =>
        WalkNoneIffSomeStepFails(next, keys[1..]);
        forall i | 1 <= i <= |keys|
          ensures Walk(cur, keys[..i]) == Walk(next, keys[1..][..i - 1])
        {
          assert keys[..i][0] == keys[0];
          assert keys[..i][1..] == keys[1..][..i - 1];
        }
        if Walk(cur, keys).None? {
          var j :| 0 <= j < |keys| - 1 && Walk(next, keys[1..][..j]).Some?
                   && StepFails(Walk(next, keys[1..][..j]).value, keys[1..][j]);
          assert Walk(cur, keys[..j + 1]) == Walk(next, keys[1..][..j]);
        } else {
          forall i | 0 <= i < |keys| && Walk(cur, keys[..i]).Some?
            ensures !StepFails(Walk(cur, keys[..i]).value, keys[i])
          {
            if i > 0 {
              assert keys[1..][i - 1] == keys[i];
            }
          }
        }
    }
  }

  /** Walking a concatenation walks the first part, then the second from there. */
  lemma {:induction false} WalkAppend(cur: Json, a: seq<string>, b: seq<string>)
    ensures Walk(cur, a + b) ==
            match Walk(cur, a)
            case None => None
            case Some(mid) => Walk(mid, b)
  {
    if |a| > 0 {
      assert (a + b)[0] == a[0];
      assert (a + b)[1..] == a[1..] + b;
      match Step(cur, a[0])
      case None =>
      case Some(next) => WalkAppend(next, a[1..], b);
    } else {
      assert a + b == b;
    }
  }

  /** Once a prefix of the path is absent, no longer path can be present. */
  lemma AbsentPrefixStaysAbsent(cur: Json, a: seq<string>, b: seq<string>)
    requires Walk(cur, a).None?
    ensures Walk(cur, a + b).None?
  {
    WalkAppend(cur, a, b);
  }

  /**
   A one-segment path returns every non-null value stored under its key,
   including the falsy ones (`0`, `false`, `""`, empty list and dict).
   */
  lemma SingleKeyResolves(fields: seq<(string, Json)>, key: string)
    requires DotFree(key)
    ensures GetByPath(JObj(fields), key) ==
            if Get(fields, key) == Some(JNull) then None else Get(fields, key)
  {
    SplitDotFree(key);
    assert Walk(JObj(fields), [key]) == Step(JObj(fields), key) by {
      assert [key][1..] == [];
    }
  }

  /** Resolving a joined path of dot-free keys walks exactly those keys. */
  lemma GetByPathJoin(data: Json, keys: seq<string>)
    requires |keys| >= 1
    requires forall i :: 0 <= i < |keys| ==> DotFree(keys[i])
    ensures GetByPath(data, Join(keys)) == Walk(data, keys)
  {
    SplitJoin(keys);
  }

  /**
   `get_by_path` finds `v` exactly when the segments of the path lead, one
   dict lookup at a time and never through a null, from the data to `v`.
   */
  lemma GetByPathSomeIff(data: Json, path: string, v: Json)
    ensures GetByPath(data, path) == Some(v) <==>
            exists vals :: IsChain(data, Split(path), vals) && vals[|Split(path)|] == v
  {
    WalkSomeIffChain(data, Split(path), v);
    assert GetByPath(data, path) == Walk(data, Split(path));
  }

  /**
   `get_by_path` gives up exactly when, after some prefix of the segments
   resolved, the next segment meets a non-dict, a missing key or a null.
   */
  lemma GetByPathNoneIff(data: Json, path: string)
    ensures GetByPath(data, path).None? <==>
            exists i :: 0 <= i < |Split(path)| && Walk(data, Split(path)[..i]).Some?
                        && StepFails(Walk(data, Split(path)[..i]).value, Split(path)[i])
  {
    var keys := Split(path);
    WalkNoneIffSomeStepFails(data, keys);
    assert GetByPath(data, path) == Walk(data, keys);
    if GetByPath(data, path).None? {
      var i :| 0 <= i < |keys| && Walk(data, keys[..i]).Some? && StepFails(Walk(data, keys[..i]).value, keys[i]);
      assert 0 <= i < |Split(path)| && Walk(data, Split(path)[..i]).Some?
             && StepFails(Walk(data, Split(path)[..i]).value, Split(path)[i]);
    }
  }
}
