/**
 Locating the per-frame records (`find_frames` in json_processor.py): a
 depth-first, first-match search for a list whose elements are all dicts
 and at least one of which has a marker key.
 */
module FrameSearch {
  import opened Wrappers
  import opened JsonValue

  /** The keys whose presence marks a dict as a frame record. */
  const Markers: seq<string> := ["shutter", "aperture", "lens"]

  /** `any(k in frame for k in [...markers])`; the key only has to be present. */
  predicate HasMarker(frame: Json)
    ensures HasMarker(frame) <==>
              frame.JObj? && (HasKey(frame.fields, "shutter") || HasKey(frame.fields, "aperture")
                              || HasKey(frame.fields, "lens"))
  {
    frame.JObj? && exists m :: m in Markers && HasKey(frame.fields, m)
  }

  /** The test a list must pass to be returned as the frame list. */
  predicate Qualifies(items: seq<Json>)
    ensures Qualifies(items) ==> |items| > 0
  {
    && (forall i :: 0 <= i < |items| ==> items[i].JObj?)
    && (exists i :: 0 <= i < |items| && HasMarker(items[i]))
  }

  /**
   `find_frames(data)`. A qualifying list is returned before its own items
   are looked at; otherwise list items, or dict values, are searched in
   order and the first child that finds something wins; scalars find
   nothing. The Python `if result:` test is a `Some?` test here, because a
   qualifying list is never empty.
   */
  function FindFrames(v: Json): (r: Option<seq<Json>>)
    ensures r.Some? ==> |r.value| > 0 && Qualifies(r.value) && SubValue(JArr(r.value), v)
    decreases v
  {
    match v
    case JArr(items) =>
      if Qualifies(items) then Some(items) else FindInItems(items)
    case JObj(fields) => FindInValues(fields)
    case _ => None
  }

  /** The loop `for item in data` of `find_frames`. */
  function FindInItems(items: seq<Json>): (r: Option<seq<Json>>)
    ensures r.Some? ==> Qualifies(r.value)
                        && exists i :: 0 <= i < |items| && SubValue(JArr(r.value), items[i])
    decreases items
  {
    if |items| == 0 then None
    else
      match FindFrames(items[0])
      case Some(found) => Some(found)
      case None =>
        var r := FindInItems(items[1..]);
        assert r.Some? ==> exists i :: 0 <= i < |items| && SubValue(JArr(r.value), items[i]) by {
          if r.Some? {
            var i :| 0 <= i < |items[1..]| && SubValue(JArr(r.value), items[1..][i]);
            assert items[1..][i] == items[i + 1];
          }
        }
        r
  }

  /** The loop `for value in data.values()` of `find_frames`. */
  function FindInValues(fields: seq<(string, Json)>): (r: Option<seq<Json>>)
    ensures r.Some? ==> Qualifies(r.value)
                        && exists i :: 0 <= i < |fields| && SubValue(JArr(r.value), fields[i].1)
    decreases fields
  {
    if |fields| == 0 then None
    else
      assert fields[0] in fields;
      assert fields[0] decreases to fields[0].1;
      match FindFrames(fields[0].1)
      case Some(found) => Some(found)
      case None =>
        var r := FindInValues(fields[1..]);
        assert r.Some? ==> exists i :: 0 <= i < |fields| && SubValue(JArr(r.value), fields[i].1) by {
          if r.Some? {
            var i :| 0 <= i < |fields[1..]| && SubValue(JArr(r.value), fields[1..][i].1);
            assert fields[1..][i] == fields[i + 1];
          }
        }
        r
  }

  /** The first child search that finds something decides `FindInItems`. */
  lemma {:induction false} FindInItemsFirstChild(items: seq<Json>)
    ensures FindInItems(items).None? <==> forall i :: 0 <= i < |items| ==> FindFrames(items[i]).None?
    ensures FindInItems(items).Some? ==>
              exists i :: 0 <= i < |items| && FindFrames(items[i]) == FindInItems(items)
                          && forall j :: 0 <= j < i ==> FindFrames(items[j]).None?
  {
    if |items| > 0 {
      var rest := items[1..];
      if FindFrames(items[0]).Some? {
        assert FindInItems(items) == FindFrames(items[0]);
      } else {
        assert FindInItems(items) == FindInItems(rest);
        FindInItemsFirstChild(rest);
        if FindInItems(items).Some? {
          var i :| 0 <= i < |rest| && FindFrames(rest[i]) == FindInItems(rest)
                   && forall j :: 0 <= j < i ==> FindFrames(rest[j]).None?;
          assert items[i + 1] == rest[i];
          forall j | 0 < j < i + 1
            ensures FindFrames(items[j]).None?
          {
            assert items[j] == rest[j - 1];
          }
        } else {
          forall i | 0 < i < |items|
            ensures FindFrames(items[i]).None?
          {
            assert items[i] == rest[i - 1];
          }
        }
      }
    }
  }

  /** The first dict value whose search finds something decides `FindInValues`. */
  lemma {:induction false} FindInValuesFirstChild(fields: seq<(string, Json)>)
    ensures FindInValues(fields).None? <==> forall i :: 0 <= i < |fields| ==> FindFrames(fields[i].1).None?
    ensures FindInValues(fields).Some? ==>
              exists i :: 0 <= i < |fields| && FindFrames(fields[i].1) == FindInValues(fields)
                          && forall j :: 0 <= j < i ==> FindFrames(fields[j].1).None?
  {
    if |fields| > 0 {
      var rest := fields[1..];
      if FindFrames(fields[0].1).Some? {
        assert FindInValues(fields) == FindFrames(fields[0].1);
      } else {
        assert FindInValues(fields) == FindInValues(rest);
        FindInValuesFirstChild(rest);
        if FindInValues(fields).Some? {
          var i :| 0 <= i < |rest| && FindFrames(rest[i].1) == FindInValues(rest)
                   && forall j :: 0 <= j < i ==> FindFrames(rest[j].1).None?;
          assert fields[i + 1] == rest[i];
          forall j | 0 < j < i + 1
            ensures FindFrames(fields[j].1).None?
          {
            assert fields[j] == rest[j - 1];
          }
        } else {
          forall i | 0 < i < |fields|
            ensures FindFrames(fields[i].1).None?
          {
            assert fields[i] == rest[i - 1];
          }
        }
      }
    }
  }

  /** Any qualifying list inside the document guarantees that the search finds one. */
  lemma {:induction false} QualifyingSubValueFound(x: Json, v: Json)
    requires SubValue(x, v) && x.JArr? && Qualifies(x.items)
    ensures FindFrames(v).Some?
    decreases v
  {
    if x != v {
      match v
      case JArr(items) =>
        if !Qualifies(items) {
          var i :| 0 <= i < |items| && SubValue(x, items[i]);
          QualifyingSubValueFound(x, items[i]);
          FindInItemsFirstChild(items);
        }
      case JObj(fields) =>
        var i :| 0 <= i < |fields| && SubValue(x, fields[i].1);
        QualifyingSubValueFound(x, fields[i].1);
        FindInValuesFirstChild(fields);
    }
  }

  /** The search comes back empty exactly when no list anywhere in the document qualifies. */
  lemma FindFramesNoneIff(v: Json)
    ensures FindFrames(v).None? <==>
            forall x :: SubValue(x, v) ==> !(x.JArr? && Qualifies(x.items))
  {
    if FindFrames(v).None? {
      forall x | SubValue(x, v)
        ensures !(x.JArr? && Qualifies(x.items))
      {
        if x.JArr? && Qualifies(x.items) {
          QualifyingSubValueFound(x, v);
        }
      }
    }
  }

  /**
   Every value of the document in depth-first pre-order: a value comes
   before everything inside it, list items and dict values in their order.
   */
  function Preorder(v: Json): (vs: seq<Json>)
    ensures |vs| >= 1 && vs[0] == v
    decreases v
  {
    [v] + match v
          case JArr(items) => PreorderItems(items)
          case JObj(fields) => PreorderValues(fields)
          case _ => []
  }

  function PreorderItems(items: seq<Json>): seq<Json>
    decreases items
  {
    if |items| == 0 then [] else Preorder(items[0]) + PreorderItems(items[1..])
  }

  function PreorderValues(fields: seq<(string, Json)>): seq<Json>
    decreases fields
  {
    if |fields| == 0 then []
    else
      assert fields[0] in fields;
      assert fields[0] decreases to fields[0].1;
      Preorder(fields[0].1) + PreorderValues(fields[1..])
  }

  predicate IsFrameList(v: Json) {
    v.JArr? && Qualifies(v.items)
  }

  /** The items of the first qualifying list in `vs`. */
  function FirstFrameList(vs: seq<Json>): (r: Option<seq<Json>>)
    ensures r.None? <==> forall i :: 0 <= i < |vs| ==> !IsFrameList(vs[i])
    ensures r.Some? ==>
              exists i :: 0 <= i < |vs| && vs[i] == JArr(r.value)
                          && IsFrameList(vs[i]) && forall j :: 0 <= j < i ==> !IsFrameList(vs[j])
  {
    if |vs| == 0 then None
    else if IsFrameList(vs[0]) then Some(vs[0].items)
    else
      var r := FirstFrameList(vs[1..]);
      assert forall i :: 0 < i < |vs| ==> vs[i] == vs[1..][i - 1];
      assert r.Some? ==>
               exists i :: 0 <= i < |vs| && vs[i] == JArr(r.value)
                           && IsFrameList(vs[i]) && forall j :: 0 <= j < i ==> !IsFrameList(vs[j]) by {
        if r.Some? {
          var i :| 0 <= i < |vs[1..]| && vs[1..][i] == JArr(r.value)
                   && IsFrameList(vs[1..][i]) && forall j :: 0 <= j < i ==> !IsFrameList(vs[1..][j]);
          assert vs[i + 1] == vs[1..][i];
        }
      }
      r
  }

  lemma {:induction false} FirstFrameListAppend(a: seq<Json>, b: seq<Json>)
    ensures FirstFrameList(a + b) == if FirstFrameList(a).Some? then FirstFrameList(a) else FirstFrameList(b)
  {
    if |a| == 0 {
      assert a + b == b;
    } else {
      assert (a + b)[0] == a[0];
      assert (a + b)[1..] == a[1..] + b;
      FirstFrameListAppend(a[1..], b);
    }
  }

  /**
   `find_frames` returns the first qualifying list in depth-first pre-order:
   a list is judged before anything inside it, and an earlier sibling's
   whole subtree before a later sibling.
   */
  lemma {:induction false} FindFramesIsFirstInPreorder(v: Json)
    ensures FindFrames(v) == FirstFrameList(Preorder(v))
    decreases v
  {
    var vs := Preorder(v);
    assert vs[0] == v;
    match v
    case JArr(items) =>
      FindInItemsIsFirstInPreorder(items);
      assert vs[1..] == PreorderItems(items);
    case JObj(fields) =>
      FindInValuesIsFirstInPreorder(fields);
      assert vs[1..] == PreorderValues(fields);
    case _ =>
      assert vs[1..] == [];
  }

  lemma {:induction false} FindInItemsIsFirstInPreorder(items: seq<Json>)
    ensures FindInItems(items) == FirstFrameList(PreorderItems(items))
    decreases items
  {
    if |items| > 0 {
      FindFramesIsFirstInPreorder(items[0]);
      FindInItemsIsFirstInPreorder(items[1..]);
      FirstFrameListAppend(Preorder(items[0]), PreorderItems(items[1..]));
    }
  }

  lemma {:induction false} FindInValuesIsFirstInPreorder(fields: seq<(string, Json)>)
    ensures FindInValues(fields) == FirstFrameList(PreorderValues(fields))
    decreases fields
  {
    if |fields| > 0 {
      assert fields[0] in fields;
      assert fields[0] decreases to fields[0].1;
      FindFramesIsFirstInPreorder(fields[0].1);
      FindInValuesIsFirstInPreorder(fields[1..]);
      FirstFrameListAppend(Preorder(fields[0].1), PreorderValues(fields[1..]));
    }
  }
}
