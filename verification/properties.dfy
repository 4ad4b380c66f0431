/**
 Properties of `extract_photo_metadata` that relate several calls or state
 the precedence rules: which fields look at the document root, which frames
 are kept, and how the output lines up with the located frames.
 */
module ExtractionProperties {
  import opened Wrappers
  import opened JsonValue
  import opened PathLookup
  import opened FrameSearch
  import opened PhotoMetadata

  /**
   What `Collect` builds: empty exactly when nothing resolves, and holding
   exactly the resolved entries under their names.
   */
  lemma CollectContents<S>(entries: seq<(string, S)>, resolve: (string, S) --> Option<Json>)
    requires forall j :: 0 <= j < |entries| ==> resolve.requires(entries[j].0, entries[j].1)
    ensures var obj := Collect(entries, resolve);
            && (|obj| == 0 <==> forall j :: 0 <= j < |entries| ==> resolve(entries[j].0, entries[j].1).None?)
            && (forall kv :: kv in obj <==>
                  exists j :: 0 <= j < |entries| && entries[j].0 == kv.0
                              && resolve(entries[j].0, entries[j].1) == Some(kv.1))
  {
    var obj := Collect(entries, resolve);
    if |obj| > 0 {
      assert obj[0] in obj;
    }
    forall kv | kv in obj
      ensures exists j :: 0 <= j < |entries| && entries[j].0 == kv.0
                          && resolve(entries[j].0, entries[j].1) == Some(kv.1)
    {
      var k :| 0 <= k < |obj| && obj[k] == kv;
    }
  }

  /** How a composite treats one sub-entry. */
  lemma SubfieldResolverValue(scope: Option<Json>, frame: Json, name: string, path: Option<string>)
    requires path.Some?
    ensures SubfieldResolver(scope, frame)(name, path) == ResolveSubfield(scope, frame, path.value)
  {
  }

  /** Every entry of a composite comes from a sub-entry that resolved, under its name. */
  lemma CompositeSound(root: Json, frame: Json, name: string, spec: FieldSpec, kv: (string, Json))
    requires spec.subfields.Some? && SpecPathsPresent(spec)
    requires ResolveField(root, frame, name, spec).Some?
    requires kv in ResolveField(root, frame, name, spec).value.fields
    ensures var subs := spec.subfields.value;
            exists j :: 0 <= j < |subs| && subs[j].0 == kv.0
                        && ResolveSubfield(Scope(root, name), frame, subs[j].1.value) == Some(kv.1)
  {
    var subs := spec.subfields.value;
    var resolve := SubfieldResolver(Scope(root, name), frame);
    assert kv in Collect(subs, resolve);
    var j :| 0 <= j < |subs| && subs[j].0 == kv.0 && resolve(subs[j].0, subs[j].1) == Some(kv.1);
    SubfieldResolverValue(Scope(root, name), frame, subs[j].0, subs[j].1);
  }

  /**
   Every sub-entry that resolved is in the composite under its name, so the
   composite is attached as soon as one sub-entry resolves.
   */
  lemma CompositeComplete(root: Json, frame: Json, name: string, spec: FieldSpec, j: nat)
    requires spec.subfields.Some? && SpecPathsPresent(spec)
    requires j < |spec.subfields.value|
    requires ResolveSubfield(Scope(root, name), frame, spec.subfields.value[j].1.value).Some?
    ensures var sub := spec.subfields.value[j];
            var r := ResolveField(root, frame, name, spec);
            r.Some? && (sub.0, ResolveSubfield(Scope(root, name), frame, sub.1.value).value) in r.value.fields
  {
    var subs := spec.subfields.value;
    var resolve := SubfieldResolver(Scope(root, name), frame);
    SubfieldResolverValue(Scope(root, name), frame, subs[j].0, subs[j].1);
    assert (subs[j].0, resolve(subs[j].0, subs[j].1).value) in Collect(subs, resolve);
  }

  /**
   A composite holds exactly the sub-entries that resolved (under their
   names, with their values) and is attached only when at least one did.
   */
  lemma CompositeContents(root: Json, frame: Json, name: string, spec: FieldSpec)
    requires spec.subfields.Some? && SpecPathsPresent(spec)
    ensures var subs := spec.subfields.value;
            var r := ResolveField(root, frame, name, spec);
            && (r.None? <==> forall j :: 0 <= j < |subs| ==>
                               ResolveSubfield(Scope(root, name), frame, subs[j].1.value).None?)
            && (r.Some? ==> forall kv :: kv in r.value.fields <==>
                               exists j :: 0 <= j < |subs| && subs[j].0 == kv.0
                                           && ResolveSubfield(Scope(root, name), frame, subs[j].1.value) == Some(kv.1))
  {
    var subs := spec.subfields.value;
    var scope := Scope(root, name);
    var r := ResolveField(root, frame, name, spec);
    if r.Some? {
      var kv0 := r.value.fields[0];
      CompositeSound(root, frame, name, spec, kv0);
      forall kv | kv in r.value.fields
        ensures exists j :: 0 <= j < |subs| && subs[j].0 == kv.0
                            && ResolveSubfield(scope, frame, subs[j].1.value) == Some(kv.1)
      {
        CompositeSound(root, frame, name, spec, kv);
      }
      forall kv: (string, Json) | (exists j :: 0 <= j < |subs| && subs[j].0 == kv.0
                                               && ResolveSubfield(scope, frame, subs[j].1.value) == Some(kv.1))
        ensures kv in r.value.fields
      {
        var j :| 0 <= j < |subs| && subs[j].0 == kv.0 && ResolveSubfield(scope, frame, subs[j].1.value) == Some(kv.1);
        CompositeComplete(root, frame, name, spec, j);
      }
    } else {
      forall j | 0 <= j < |subs|
        ensures ResolveSubfield(scope, frame, subs[j].1.value).None?
      {
        if ResolveSubfield(scope, frame, subs[j].1.value).Some? {
          CompositeComplete(root, frame, name, spec, j);
        }
      }
    }
  }

  /** With distinct sub-entry names, a composite never repeats a key. */
  lemma CompositeKeysUnique(root: Json, frame: Json, name: string, spec: FieldSpec)
    requires spec.subfields.Some? && SpecPathsPresent(spec)
    requires UniqueKeys(spec.subfields.value)
    requires ResolveField(root, frame, name, spec).Some?
    ensures UniqueKeys(ResolveField(root, frame, name, spec).value.fields)
  {
    CollectKeysUnique(spec.subfields.value, SubfieldResolver(Scope(root, name), frame));
  }

  /**
   `camera` sub-entries look at the whole document first: a value found
   there is the one recorded, whatever the frame holds; the frame is
   consulted only when the document has nothing under that path.
   */
  lemma CameraSubfieldRootFirst(root: Json, frame: Json, spec: FieldSpec, j: nat)
    requires spec.subfields.Some? && SpecPathsPresent(spec)
    requires j < |spec.subfields.value|
    ensures var sub := spec.subfields.value[j];
            var r := ResolveField(root, frame, "camera", spec);
            && (GetByPath(root, sub.1.value).Some? ==>
                  r.Some? && (sub.0, GetByPath(root, sub.1.value).value) in r.value.fields)
            && (GetByPath(root, sub.1.value).None? && GetByPath(frame, sub.1.value).Some? ==>
                  r.Some? && (sub.0, GetByPath(frame, sub.1.value).value) in r.value.fields)
  {
    var sub := spec.subfields.value[j];
    if GetByPath(root, sub.1.value).Some? || GetByPath(frame, sub.1.value).Some? {
      CompositeComplete(root, frame, "camera", spec, j);
    }
  }

  /**
   Every field other than a `camera` composite is resolved against the frame
   alone: swapping the document root for any other value changes nothing,
   so a same-named key at the root is never a fallback.
   */
  lemma FrameOnlyIgnoresRoot(root1: Json, root2: Json, frame: Json, name: string, spec: FieldSpec)
    requires SpecPathsPresent(spec)
    requires name != "camera" || spec.subfields.None?
    ensures ResolveField(root1, frame, name, spec) == ResolveField(root2, frame, name, spec)
  {
    assert spec.subfields.Some? ==> Scope(root1, name) == Scope(root2, name);
  }

  /** A simple field records `get_by_path(frame, path)`, or nothing when that is absent. */
  lemma SimpleFieldFromFrame(root: Json, frame: Json, name: string, spec: FieldSpec)
    requires SpecPathsPresent(spec) && spec.subfields.None?
    ensures ResolveField(root, frame, name, spec) == GetByPath(frame, spec.path.value)
  {
  }

  /**
   A composite other than `camera` (`lens`, `location`, ...) holds exactly
   the sub-entries whose path resolves in the frame, each with the frame's
   value, and is attached only when at least one does.
   */
  lemma FrameOnlyCompositeFromFrame(root: Json, frame: Json, name: string, spec: FieldSpec)
    requires SpecPathsPresent(spec) && spec.subfields.Some? && name != "camera"
    ensures var subs := spec.subfields.value;
            var r := ResolveField(root, frame, name, spec);
            && (r.None? <==> forall j :: 0 <= j < |subs| ==> GetByPath(frame, subs[j].1.value).None?)
            && (r.Some? ==> forall kv :: kv in r.value.fields <==>
                              exists j :: 0 <= j < |subs| && subs[j].0 == kv.0
                                          && GetByPath(frame, subs[j].1.value) == Some(kv.1))
  {
    CompositeContents(root, frame, name, spec);
  }

  /** How the record-building loop treats one configuration entry. */
  lemma EntryResolverValue(root: Json, frame: Json, name: string, spec: FieldSpec)
    requires name != "iso" ==> SpecPathsPresent(spec)
    ensures EntryResolver(root, frame)(name, spec) ==
            if name == "iso" then None else ResolveField(root, frame, name, spec)
  {
  }

  /** Every field a record receives comes from a configured entry other than `iso` that resolved. */
  lemma ResolveEntriesSound(root: Json, frame: Json, cfg: Config, kv: (string, Json))
    requires PathsPresent(cfg)
    requires kv in ResolveEntries(root, frame, cfg)
    ensures exists i :: 0 <= i < |cfg| && cfg[i].0 == kv.0 && cfg[i].0 != "iso"
                        && ResolveField(root, frame, cfg[i].0, cfg[i].1) == Some(kv.1)
  {
    var resolve := EntryResolver(root, frame);
    var i :| 0 <= i < |cfg| && cfg[i].0 == kv.0 && resolve(cfg[i].0, cfg[i].1) == Some(kv.1);
    EntryResolverValue(root, frame, cfg[i].0, cfg[i].1);
  }

  /** Every configured entry other than `iso` that resolved is in the record under its name. */
  lemma ResolveEntriesComplete(root: Json, frame: Json, cfg: Config, i: nat)
    requires PathsPresent(cfg)
    requires i < |cfg| && cfg[i].0 != "iso"
    requires ResolveField(root, frame, cfg[i].0, cfg[i].1).Some?
    ensures (cfg[i].0, ResolveField(root, frame, cfg[i].0, cfg[i].1).value) in ResolveEntries(root, frame, cfg)
  {
    EntryResolverValue(root, frame, cfg[i].0, cfg[i].1);
  }

  /**
   The fields a record receives besides `iso`: each comes from a configured
   entry other than `iso` that resolved, and each such entry is there.
   */
  lemma ResolveEntriesContents(root: Json, frame: Json, cfg: Config)
    requires PathsPresent(cfg)
    ensures var fields := ResolveEntries(root, frame, cfg);
            forall kv :: kv in fields <==>
              exists i :: 0 <= i < |cfg| && cfg[i].0 == kv.0 && cfg[i].0 != "iso"
                          && ResolveField(root, frame, cfg[i].0, cfg[i].1) == Some(kv.1)
  {
    var fields := ResolveEntries(root, frame, cfg);
    forall kv | kv in fields
      ensures exists i :: 0 <= i < |cfg| && cfg[i].0 == kv.0 && cfg[i].0 != "iso"
                          && ResolveField(root, frame, cfg[i].0, cfg[i].1) == Some(kv.1)
    {
      ResolveEntriesSound(root, frame, cfg, kv);
    }
    forall kv: (string, Json) | (exists i :: 0 <= i < |cfg| && cfg[i].0 == kv.0 && cfg[i].0 != "iso"
                                             && ResolveField(root, frame, cfg[i].0, cfg[i].1) == Some(kv.1))
      ensures kv in fields
    {
      var i :| 0 <= i < |cfg| && cfg[i].0 == kv.0 && cfg[i].0 != "iso"
               && ResolveField(root, frame, cfg[i].0, cfg[i].1) == Some(kv.1);
      ResolveEntriesComplete(root, frame, cfg, i);
    }
  }

  /** With distinct configured names, the attached fields never repeat a name. */
  lemma ResolveEntriesUnique(root: Json, frame: Json, cfg: Config)
    requires PathsPresent(cfg) && UniqueKeys(cfg)
    ensures UniqueKeys(ResolveEntries(root, frame, cfg))
  {
    CollectKeysUnique(cfg, EntryResolver(root, frame));
  }

  /**
   `has_any`: a frame is kept exactly when it is a dict and some configured
   field other than `iso` attached a value. A resolved `iso` alone does not
   keep a frame.
   */
  lemma FrameKeptIff(root: Json, cfg: Config, frame: Json)
    requires PathsPresent(cfg)
    ensures FrameRecord(root, cfg, frame).Some? <==>
            frame.JObj? && exists i :: 0 <= i < |cfg| && cfg[i].0 != "iso"
                                       && ResolveField(root, frame, cfg[i].0, cfg[i].1).Some?
  {
    if frame.JObj? {
      var fields := ResolveEntries(root, frame, cfg);
      if |fields| > 0 {
        ResolveEntriesSound(root, frame, cfg, fields[0]);
      }
      if i :| 0 <= i < |cfg| && cfg[i].0 != "iso" && ResolveField(root, frame, cfg[i].0, cfg[i].1).Some? {
        ResolveEntriesComplete(root, frame, cfg, i);
      }
    }
  }

  /** With distinct configured names (a Python dict), a record never repeats a key. */
  lemma RecordKeysUnique(root: Json, cfg: Config, frame: Json)
    requires PathsPresent(cfg) && UniqueKeys(cfg)
    requires FrameRecord(root, cfg, frame).Some?
    ensures UniqueKeys(FrameRecord(root, cfg, frame).value)
  {
    ResolveEntriesUnique(root, frame, cfg);
    var fields := ResolveEntries(root, frame, cfg);
    var rec := FrameRecord(root, cfg, frame).value;
    assert rec[1..] == fields;
    forall i, j | 0 <= i < j < |rec|
      ensures rec[i].0 != rec[j].0
    {
      assert rec[j] == fields[j - 1];
      assert rec[j] in fields;
      if i > 0 {
        assert rec[i] == fields[i - 1];
      }
    }
  }

  /** The `k`-th kept value is the entry at the `k`-th kept position. */
  lemma {:induction false} SomesAtPositions<T>(opts: seq<Option<T>>)
    ensures var vs := Somes(opts);
            var ps := SomePositions(opts);
            && |ps| == |vs|
            && forall k :: 0 <= k < |ps| ==> opts[ps[k]] == Some(vs[k])
  {
    if |opts| > 0 {
      var last := |opts| - 1;
      var init := opts[..last];
      SomesAtPositions(init);
      var ps0 := SomePositions(init);
      assert forall k :: 0 <= k < |ps0| ==> opts[ps0[k]] == init[ps0[k]];
    }
  }

  /** The kept positions are strictly increasing. */
  lemma {:induction false} SomePositionsIncreasing<T>(opts: seq<Option<T>>)
    ensures forall a, b :: 0 <= a < b < |SomePositions(opts)| ==> SomePositions(opts)[a] < SomePositions(opts)[b]
  {
    if |opts| > 0 {
      var last := |opts| - 1;
      var init := opts[..last];
      SomePositionsIncreasing(init);
      var ps0 := SomePositions(init);
      var ps := SomePositions(opts);
      assert ps == ps0 + if opts[last].Some? then [last] else [];
      forall a, b | 0 <= a < b < |ps|
        ensures ps[a] < ps[b]
      {
        if b >= |ps0| {
          assert ps[a] == ps0[a] && ps[b] == last;
        }
      }
    }
  }

  /** A position is kept exactly when its entry is present. */
  lemma {:induction false} SomePositionsExact<T>(opts: seq<Option<T>>)
    ensures forall j :: 0 <= j < |opts| ==> (opts[j].Some? <==> j in SomePositions(opts))
  {
    if |opts| > 0 {
      var last := |opts| - 1;
      var init := opts[..last];
      SomePositionsExact(init);
      var ps := SomePositions(opts);
      var ps0 := SomePositions(init);
      forall j | 0 <= j < |opts|
        ensures opts[j].Some? <==> j in ps
      {
        if j < last {
          assert opts[j] == init[j];
          assert j in ps <==> j in ps0;
        }
      }
    }
  }

  /**
   Keeping the present entries preserves their order: the `k`-th kept value
   is the entry at the `k`-th kept position, and a position is kept exactly
   when its entry is present.
   */
  lemma SomesInOrder<T>(opts: seq<Option<T>>)
    ensures var vs := Somes(opts);
            var ps := SomePositions(opts);
            && |ps| == |vs|
            && (forall a, b :: 0 <= a < b < |ps| ==> ps[a] < ps[b])
            && (forall k :: 0 <= k < |ps| ==> opts[ps[k]] == Some(vs[k]))
            && (forall j :: 0 <= j < |opts| ==> (opts[j].Some? <==> j in ps))
  {
    SomesAtPositions(opts);
    SomePositionsIncreasing(opts);
    SomePositionsExact(opts);
  }

  /**
   The output is the located frames' records, in frame order, one per kept
   frame: record `k` belongs to the `k`-th kept frame, and a frame is kept
   exactly when it yields a record.
   */
  lemma ExtractFramesInOrder(root: Json, cfg: Config, frames: seq<Json>)
    requires PathsPresent(cfg)
    ensures var out := ExtractFrames(root, cfg, frames);
            var ps := SomePositions(FrameRecords(root, cfg, frames));
            && |ps| == |out|
            && (forall a, b :: 0 <= a < b < |ps| ==> ps[a] < ps[b])
            && (forall k :: 0 <= k < |ps| ==> ps[k] < |frames| && FrameRecord(root, cfg, frames[ps[k]]) == Some(out[k]))
            && (forall j :: 0 <= j < |frames| ==> (FrameRecord(root, cfg, frames[j]).Some? <==> j in ps))
  {
    SomesInOrder(FrameRecords(root, cfg, frames));
  }

  /** Nothing is kept exactly when no entry is present. */
  lemma {:induction false} SomesEmptyIff<T>(opts: seq<Option<T>>)
    ensures |Somes(opts)| == 0 <==> forall j :: 0 <= j < |opts| ==> opts[j].None?
  {
    if |opts| > 0 {
      var last := |opts| - 1;
      var init := opts[..last];
      SomesEmptyIff(init);
      assert forall j :: 0 <= j < last ==> opts[j] == init[j];
    }
  }

  /** The output is empty, not an error, when frames exist but none is kept. */
  lemma EmptyOutputIff(root: Json, cfg: Config)
    requires PathsPresent(cfg)
    ensures ExtractPhotoMetadata(root, cfg) == Success([]) <==>
            FindFrames(root).Some? &&
            forall j :: 0 <= j < |FindFrames(root).value| ==> FrameRecord(root, cfg, FindFrames(root).value[j]).None?
  {
    if FindFrames(root).Some? {
      var frames := FindFrames(root).value;
      SomesEmptyIff(FrameRecords(root, cfg, frames));
    }
  }

  /**
   Every output record starts with `iso`: the document-level value when the
   configured path resolves there, else the value in its own frame, else
   null; the records are those of the kept frames, in order.
   */
  lemma OutputRecordsFromFrames(root: Json, cfg: Config)
    requires PathsPresent(cfg)
    requires ExtractPhotoMetadata(root, cfg).Success?
    ensures var out := ExtractPhotoMetadata(root, cfg).value;
            var frames := FindFrames(root).value;
            var ps := SomePositions(FrameRecords(root, cfg, frames));
            && |ps| == |out| <= |frames|
            && forall k :: 0 <= k < |out| ==>
                 && FrameRecord(root, cfg, frames[ps[k]]) == Some(out[k])
                 && out[k][0] == ("iso", IsoValue(root, frames[ps[k]], IsoPath(cfg)))
  {
    ExtractFramesInOrder(root, cfg, FindFrames(root).value);
  }
}
