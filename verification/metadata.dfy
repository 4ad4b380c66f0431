/**
 Turning the located frames into output records (`extract_photo_metadata`
 in json_processor.py).

 The field-mapping configuration arrives already normalised. Each entry of
 `config_fields` is either a bare path string or a dict; it becomes a
 `FieldSpec` whose `path` is the string itself or the dict's `"path"`
 entry, and whose `subfields` is the dict's `"fields"` entry when there is
 one (each sub-entry normalised to its path the same way). An entry is a
 composite exactly when it has `subfields`.
 */
module PhotoMetadata {
  import opened Wrappers
  import opened JsonValue
  import opened PathLookup
  import opened FrameSearch

  datatype FieldSpec = FieldSpec(path: Option<string>, subfields: Option<seq<(string, Option<string>)>>)

  /** `config_fields`, in dict iteration order. */
  type Config = seq<(string, FieldSpec)>

  /** One output record: the `frame_data` dict, in insertion order. */
  type Record = seq<(string, Json)>

  /** The `ValueError` raised when no frame list is found. */
  datatype Error = NoFramesFound

  /**
   The path of the `iso` entry: `config_fields.get("iso", {})` followed by
   `.get("path")`, so a missing entry has no path, and a dict entry
   contributes its `"path"` even when it also has `"fields"`.
   */
  function IsoPath(cfg: Config): (p: Option<string>)
    ensures !HasKey(cfg, "iso") ==> p.None?
    ensures HasKey(cfg, "iso") ==>
              exists i :: 0 <= i < |cfg| && cfg[i].0 == "iso" && cfg[i].1.path == p
                          && forall j :: 0 <= j < i ==> cfg[j].0 != "iso"
  {
    match Get(cfg, "iso")
    case None => None
    case Some(spec) => spec.path
  }

  /**
   Every path the extractor hands to `get_by_path` is a string. A composite
   needs each sub-entry's path; a simple field needs its own. A missing one
   would reach `None.split` and crash.
   */
  predicate SpecPathsPresent(spec: FieldSpec) {
    match spec.subfields
    case None => spec.path.Some?
    case Some(subs) => forall j :: 0 <= j < |subs| ==> subs[j].1.Some?
  }

  predicate PathsPresent(cfg: Config) {
    forall i :: 0 <= i < |cfg| && cfg[i].0 != "iso" ==> SpecPathsPresent(cfg[i].1)
  }

  /** Look a path up in the whole document first and in the frame only when that is absent. */
  function RootFirst(root: Json, frame: Json, path: string): (r: Option<Json>)
    ensures r.None? <==> GetByPath(root, path).None? && GetByPath(frame, path).None?
    ensures GetByPath(root, path).Some? ==> r == GetByPath(root, path)
    ensures GetByPath(root, path).None? ==> r == GetByPath(frame, path)
    ensures r != Some(JNull)
  {
    match GetByPath(root, path)
    case Some(v) => Some(v)
    case None => GetByPath(frame, path)
  }

  /**
   The `iso` value of a frame's record: JSON null when the path is missing
   or empty; otherwise the document-level value wins over the frame's.
   */
  function IsoValue(root: Json, frame: Json, isoPath: Option<string>): (iso: Json)
    ensures isoPath.None? || isoPath == Some("") ==> iso == JNull
    ensures isoPath.Some? && isoPath.value != "" ==>
              && (GetByPath(root, isoPath.value).Some? ==> iso == GetByPath(root, isoPath.value).value)
              && (GetByPath(root, isoPath.value).None? && GetByPath(frame, isoPath.value).Some? ==>
                    iso == GetByPath(frame, isoPath.value).value)
              && (iso == JNull <==> GetByPath(root, isoPath.value).None? && GetByPath(frame, isoPath.value).None?)
  {
    if isoPath.None? || isoPath.value == "" then JNull
    else
      match RootFirst(root, frame, isoPath.value)
      case Some(v) => v
      case None => JNull
  }

  /**
   Where a composite's sub-entries are looked up first: the whole document
   for `camera`, nowhere but the frame for every other composite.
   */
  function Scope(root: Json, name: string): (scope: Option<Json>)
    ensures scope.Some? <==> name == "camera"
    ensures scope.Some? ==> scope.value == root
  {
    if name == "camera" then Some(root) else None
  }

  /** One sub-entry of a composite: document first when there is a scope, frame only otherwise. */
  function ResolveSubfield(scope: Option<Json>, frame: Json, path: string): (r: Option<Json>)
    ensures r != Some(JNull)
    ensures scope.Some? && GetByPath(scope.value, path).Some? ==> r == GetByPath(scope.value, path)
    ensures scope.None? || GetByPath(scope.value, path).None? ==> r == GetByPath(frame, path)
  {
    match scope
    case Some(doc) => RootFirst(doc, frame, path)
    case None => GetByPath(frame, path)
  }

  /**
   The dict-building loop shared by composites and records: keep, in order,
   each entry whose resolution is not `None`, under the entry's name.
   */
  function Collect<S>(entries: seq<(string, S)>, resolve: (string, S) --> Option<Json>): (obj: Record)
    requires forall j :: 0 <= j < |entries| ==> resolve.requires(entries[j].0, entries[j].1)
    ensures |obj| <= |entries|
    ensures forall kv :: kv in obj ==>
              exists j :: 0 <= j < |entries| && entries[j].0 == kv.0
                          && resolve(entries[j].0, entries[j].1) == Some(kv.1)
    ensures forall j :: 0 <= j < |entries| && resolve(entries[j].0, entries[j].1).Some? ==>
              (entries[j].0, resolve(entries[j].0, entries[j].1).value) in obj
  {
    if |entries| == 0 then []
    else
      var first := resolve(entries[0].0, entries[0].1);
      var head: Record := if first.Some? then [(entries[0].0, first.value)] else [];
      var tail := entries[1..];
      assert forall j :: 0 < j < |entries| ==> entries[j] == tail[j - 1];
      var rest := Collect(tail, resolve);
      assert forall kv :: kv in rest ==>
               exists j :: 0 <= j < |entries| && entries[j].0 == kv.0
                           && resolve(entries[j].0, entries[j].1) == Some(kv.1) by {
        forall kv | kv in rest
          ensures exists j :: 0 <= j < |entries| && entries[j].0 == kv.0
                              && resolve(entries[j].0, entries[j].1) == Some(kv.1)
        {
          var j :| 0 <= j < |tail| && tail[j].0 == kv.0 && resolve(tail[j].0, tail[j].1) == Some(kv.1);
          assert entries[j + 1] == tail[j];
        }
      }
      head + rest
  }

  /** Entries with distinct names give a dict with distinct keys. */
  lemma {:induction false} CollectKeysUnique<S>(entries: seq<(string, S)>, resolve: (string, S) --> Option<Json>)
    requires forall j :: 0 <= j < |entries| ==> resolve.requires(entries[j].0, entries[j].1)
    requires UniqueKeys(entries)
    ensures UniqueKeys(Collect(entries, resolve))
  {
    if |entries| > 0 {
      var tail := entries[1..];
      assert UniqueKeys(tail) by {
        assert forall j :: 0 <= j < |tail| ==> tail[j] == entries[j + 1];
      }
      var rest := Collect(tail, resolve);
      CollectKeysUnique(tail, resolve);
      var first := resolve(entries[0].0, entries[0].1);
      var obj := Collect(entries, resolve);
      if first.Some? {
        assert obj == [(entries[0].0, first.value)] + rest;
        forall kv | kv in rest
          ensures kv.0 != entries[0].0
        {
          var j :| 0 <= j < |tail| && tail[j].0 == kv.0 && resolve(tail[j].0, tail[j].1) == Some(kv.1);
          assert tail[j] == entries[j + 1];
        }
        forall a, b | 0 <= a < b < |obj|
          ensures obj[a].0 != obj[b].0
        {
          assert obj[b] == rest[b - 1] && obj[b] in rest;
          if a > 0 {
            assert obj[a] == rest[a - 1];
          }
        }
      } else {
        assert obj == rest;
      }
    }
  }

  /** How a composite resolves one sub-entry's path; a sub-entry always has a path. */
  function SubfieldResolver(scope: Option<Json>, frame: Json): (string, Option<string>) --> Option<Json>
  {
    (name: string, path: Option<string>) requires path.Some? =>
      ResolveSubfield(scope, frame, path.value)
  }

  /** The `obj` dict of a composite: the sub-entries that resolved, in order. */
  function ResolveSubfields(scope: Option<Json>, frame: Json, subs: seq<(string, Option<string>)>): (obj: Record)
    requires forall j :: 0 <= j < |subs| ==> subs[j].1.Some?
    ensures |obj| <= |subs|
    ensures forall kv :: kv in obj ==> exists j :: 0 <= j < |subs| && subs[j].0 == kv.0
  {
    Collect(subs, SubfieldResolver(scope, frame))
  }

  /**
   The value a configured field contributes to a frame's record, or `None`
   when nothing is attached. A composite is attached only when some sub-entry
   resolved; `camera` composites look at the document first.
   */
  function ResolveField(root: Json, frame: Json, name: string, spec: FieldSpec): (r: Option<Json>)
    requires SpecPathsPresent(spec)
    ensures r != Some(JNull)
    ensures spec.subfields.Some? && r.Some? ==> r.value.JObj? && |r.value.fields| > 0
    ensures spec.subfields.None? ==> r == GetByPath(frame, spec.path.value)
  {
    match spec.subfields
    case Some(subs) =>
      var obj := ResolveSubfields(Scope(root, name), frame, subs);
      if |obj| > 0 then Some(JObj(obj)) else None
    case None => GetByPath(frame, spec.path.value)
  }

  /** How the record-building loop resolves one configuration entry; `iso` is handled apart. */
  function EntryResolver(root: Json, frame: Json): (string, FieldSpec) --> Option<Json>
  {
    (name: string, spec: FieldSpec) requires name != "iso" ==> SpecPathsPresent(spec) =>
      if name == "iso" then None else ResolveField(root, frame, name, spec)
  }

  /** The fields other than `iso` that a frame's record receives, in configuration order. */
  function ResolveEntries(root: Json, frame: Json, cfg: Config): (fields: Record)
    requires PathsPresent(cfg)
    ensures |fields| <= |cfg|
    ensures forall kv :: kv in fields ==> kv.0 != "iso" && HasKey(cfg, kv.0)
  {
    Collect(cfg, EntryResolver(root, frame))
  }

  /**
   The record of one frame, or `None` when the frame is dropped: it is not a
   dict, or no field besides `iso` was attached (`has_any` stayed false).
   A kept record starts with `iso`, possibly null, followed by the attached
   fields, whose names are configured names other than `iso`.
   */
  function FrameRecord(root: Json, cfg: Config, frame: Json): (rec: Option<Record>)
    requires PathsPresent(cfg)
    ensures rec.Some? ==> frame.JObj? && |rec.value| >= 2
    ensures rec.Some? ==> rec.value[0] == ("iso", IsoValue(root, frame, IsoPath(cfg)))
    ensures rec.Some? ==> rec.value[1..] == ResolveEntries(root, frame, cfg)
    ensures rec.Some? ==> forall kv :: kv in rec.value[1..] ==> kv.0 != "iso" && HasKey(cfg, kv.0)
  {
    if !frame.JObj? then None
    else
      var fields := ResolveEntries(root, frame, cfg);
      if |fields| == 0 then None
      else
        var rec := [("iso", IsoValue(root, frame, IsoPath(cfg)))] + fields;
        assert rec[1..] == fields;
        Some(rec)
  }

  /** The values of the present entries, in order: a loop that appends only when it has something. */
  function Somes<T>(opts: seq<Option<T>>): (vs: seq<T>)
    ensures |vs| <= |opts|
  {
    if |opts| == 0 then []
    else
      var last := |opts| - 1;
      Somes(opts[..last]) + if opts[last].Some? then [opts[last].value] else []
  }

  /** The positions of the present entries, in increasing order. */
  function SomePositions<T>(opts: seq<Option<T>>): (ps: seq<nat>)
    ensures forall k :: 0 <= k < |ps| ==> ps[k] < |opts|
  {
    if |opts| == 0 then []
    else
      var last := |opts| - 1;
      SomePositions(opts[..last]) + if opts[last].Some? then [last] else []
  }

  /** The record, or the drop, of every located frame, position by position. */
  function FrameRecords(root: Json, cfg: Config, frames: seq<Json>): (recs: seq<Option<Record>>)
    requires PathsPresent(cfg)
    ensures |recs| == |frames|
    ensures forall j :: 0 <= j < |frames| ==> recs[j] == FrameRecord(root, cfg, frames[j])
  {
    seq(|frames|, j requires 0 <= j < |frames| => FrameRecord(root, cfg, frames[j]))
  }

  /** The loop over the frames: one record per kept frame, in frame order. */
  function ExtractFrames(root: Json, cfg: Config, frames: seq<Json>): (out: seq<Record>)
    requires PathsPresent(cfg)
    ensures |out| <= |frames|
  {
    Somes(FrameRecords(root, cfg, frames))
  }

  /**
   `extract_photo_metadata(json_data, config_fields)`: fails exactly when no
   frame list is found; otherwise one record per kept frame.
   */
  function ExtractPhotoMetadata(root: Json, cfg: Config): (r: Result<seq<Record>, Error>)
    requires PathsPresent(cfg)
    ensures r.Failure? <==> FindFrames(root).None?
    ensures r.Success? ==> |r.value| <= |FindFrames(root).value|
  {
    match FindFrames(root)
    case None => Failure(NoFramesFound)
    case Some(frames) => Success(ExtractFrames(root, cfg, frames))
  }
}
