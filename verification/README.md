# Photo metadata extraction from film-camera logs, in Dafny

This project models the pure core of `json_processor.py`. That core turns a
parsed JSON export of a film-camera logbook into one metadata record per
exposure ("frame"). The records are later written into scanned images as
EXIF. The core has three parts:

- `get_by_path` (module `PathLookup`, file `paths.dfy`). It resolves a
  dot-separated key path such as `location.latitude` against nested dicts.
  The path is split exactly like Python's `str.split(".")`. The walk gives up
  at the first step that meets a non-dict, a missing key or a JSON null.
- `find_frames` (module `FrameSearch`, file `frames.dfy`). It is a
  depth-first, first-match search for the frame list. That is a list whose
  elements are all dicts and at least one of which has a `shutter`,
  `aperture` or `lens` key.
- `extract_photo_metadata` (module `PhotoMetadata`, file `metadata.dfy`). It
  applies a field-mapping configuration to every located frame:
  - `iso` is looked up in the whole document first and in the frame second.
  - A `camera` composite looks each of its sub-paths up in the document
    first.
  - Every other field (simple, or a composite such as `lens` or `location`)
    is looked up in the frame only.
  - A frame is kept only when some field other than `iso` resolved.

JSON values are the datatype `JsonValue.Json`. A dict is an association
list, so its iteration order is explicit, and lookup takes the first
matching key. The mapping configuration arrives already normalised, one
`FieldSpec` per entry, in dict order:

- A bare string becomes a path.
- A dict contributes its `"path"` entry and, when present, its `"fields"`
  entry. An entry with `"fields"` is a composite.
- Each sub-entry of a composite is normalised the same way.
- The `iso` path is the `"path"` of the `iso` entry, even when that entry
  also has `"fields"`. A missing or empty `iso` path gives a null `iso`.

The generic `PhotoMetadata.Collect` models both dict-building loops: the
sub-entries of a composite and the entries of a record. The generic
`PhotoMetadata.Somes` models the loop that appends a record only for kept
frames. The module `ExtractionProperties` (file `properties.dfy`) relates
several calls: precedence, which frames are kept, and order.

When a frame list is found but no frame yields a field,
`extract_photo_metadata` returns an empty list rather than raising
(json_processor.py:104-107). `EmptyOutputIff` states this.

## Model

| member | source | states |
|---|---|---|
| JsonValue.Get | json_processor.py:12 | `dict.get(key)`, on data dicts and on the configuration alike: absent exactly when no entry has the key; otherwise the value of the first entry with that key |
| JsonValue.GetUnique | json_processor.py:12 | in a dict with distinct keys (as `json.load` builds them), looking up any entry's key gives that entry's value |
| PathLookup.Split | json_processor.py:8 | `path.split(".")` always yields at least one segment; no segment contains a dot; joining the segments with dots gives back the path |
| PathLookup.SplitDotFree | json_processor.py:8 | a path without a dot is a single segment |
| PathLookup.SplitAtFirstDot | json_processor.py:8 | splitting `a.b`, where `a` has no dot, yields `a` followed by the segments of `b` |
| PathLookup.SplitJoin | json_processor.py:8 | joining dot-free segments and splitting the result gives the same segments back |
| PathLookup.Step | json_processor.py:11-16 | one loop step succeeds exactly when the current value is a dict holding the key with a non-null value, and then yields that value |
| PathLookup.Walk | json_processor.py:9-17 | the loop over the keys: no keys give back the starting value; a first step that fails gives absent; over at least one key the result is never null |
| PathLookup.GetByPath | json_processor.py:6-17 | never yields JSON null as a value (null means absent), and data that is not a dict yields absent |
| PathLookup.GetByPathSomeIff | json_processor.py:6-17 | `get_by_path` returns `v` exactly when the path's segments lead from the data to `v` through dict lookups, none missing or null; falsy non-null values are returned |
| PathLookup.GetByPathNoneIff | json_processor.py:6-17 | `get_by_path` returns `None` exactly when, after some resolved prefix of the segments, the next one meets a non-dict, a missing key or a null |
| PathLookup.WalkNeverNull | json_processor.py:15-17 | a walk over at least one key never ends on a null value |
| PathLookup.WalkSomeIffChain | json_processor.py:6-17 | a walk yields `v` exactly when a chain of dict lookups, none missing or null, consumes every key and ends at `v`; falsy non-null values are results like any other |
| PathLookup.ChainCons | json_processor.py:10-16 | one successful dict lookup in front of a chain is again a chain, one key longer |
| PathLookup.TraceIsChain | json_processor.py:9-17 | the values a successful walk visits form such a chain, ending at the result |
| PathLookup.ChainWalks | json_processor.py:9-17 | any such chain is followed by the walk to its last value |
| PathLookup.ChainWalksFrom | json_processor.py:9-17 | any suffix of such a chain is followed by the walk over the remaining keys |
| PathLookup.WalkNoneIffSomeStepFails | json_processor.py:10-16 | a walk is absent exactly when, after some successful prefix of the keys, the next step meets a non-dict, a missing key or a null |
| PathLookup.WalkAppend | json_processor.py:10-17 | walking a concatenation of key lists walks the first part, then the second from where the first ended |
| PathLookup.AbsentPrefixStaysAbsent | json_processor.py:13-16 | once a prefix of the keys is absent, every longer key list is absent |
| PathLookup.SingleKeyResolves | json_processor.py:8-17 | a dot-free path returns whatever non-null value the dict holds under that key, including `0`, `false` and `""`; null or missing gives absent |
| PathLookup.GetByPathJoin | json_processor.py:6-17 | looking up a dotted path is walking its dot-free segments in order |
| FrameSearch.FindFrames | json_processor.py:20-39 | a found list is non-empty, has only dict elements, has an element with a marker key, and occurs inside the input |
| FrameSearch.HasMarker | json_processor.py:24-27 | a frame carries metadata exactly when it is a dict holding one of the marker keys `shutter`, `aperture` or `lens`; the value under the key does not matter |
| FrameSearch.Qualifies | json_processor.py:23-28 | a list that qualifies is non-empty, so it is truthy for the `if result:` test of the parent loops |
| FrameSearch.FindInItems | json_processor.py:30-33 | a list found among the items qualifies and occurs inside one of the items |
| FrameSearch.FindInValues | json_processor.py:34-38 | a list found among the dict values qualifies and occurs inside one of the values |
| FrameSearch.FindInItemsFirstChild | json_processor.py:30-33 | the item loop finds nothing exactly when every item's search finds nothing; otherwise its result is the result of the first item whose search succeeds |
| FrameSearch.FindInValuesFirstChild | json_processor.py:34-38 | the dict-value loop finds nothing exactly when every value's search finds nothing; otherwise the first value in iteration order whose search succeeds decides |
| FrameSearch.QualifyingSubValueFound | json_processor.py:20-39 | if any list inside the input qualifies, the search finds something |
| FrameSearch.FindFramesNoneIff | json_processor.py:20-39 | the search is absent exactly when no list anywhere in the input qualifies |
| FrameSearch.FirstFrameList | json_processor.py:22-29 | the first qualifying list in a sequence of values: absent exactly when none qualifies, otherwise the items of the earliest one that does |
| FrameSearch.FirstFrameListAppend | json_processor.py:30-38 | the first qualifying list of a concatenation comes from the first part when it has one, else from the second part |
| FrameSearch.FindFramesIsFirstInPreorder | json_processor.py:20-39 | the search returns exactly the first qualifying list in depth-first pre-order, so a list is judged before its own items are searched |
| FrameSearch.FindInItemsIsFirstInPreorder | json_processor.py:30-33 | the item loop returns the first qualifying list in the items' pre-order |
| FrameSearch.FindInValuesIsFirstInPreorder | json_processor.py:34-38 | the dict-value loop returns the first qualifying list in the values' pre-order |
| PhotoMetadata.IsoPath | json_processor.py:47-48 | without an `iso` entry there is no `iso` path; otherwise the path is that of the first `iso` entry |
| PhotoMetadata.RootFirst | json_processor.py:75-78 | document-first lookup: the document's value when it has one, otherwise the frame's; absent exactly when both are absent, and never null |
| PhotoMetadata.IsoValue | json_processor.py:59-62 | `iso` is null when the path is missing or empty; the document's value wins when it exists; otherwise the frame's value; null exactly when both are absent |
| PhotoMetadata.Scope | json_processor.py:68 | a composite gets the document as a first place to look exactly when its name is `camera` |
| PhotoMetadata.ResolveSubfield | json_processor.py:71-93 | a sub-entry's value is never null; with the document as scope, the document's value when it has one; otherwise (no scope, or nothing in the document) `get_by_path(frame, path)` |
| PhotoMetadata.Collect | json_processor.py:69-80 | the dict-building loop keeps no more entries than it is given; every kept pair is an entry's name with its resolved value, and every resolved entry is kept |
| PhotoMetadata.CollectKeysUnique | json_processor.py:69-80 | entries with distinct names give a dict with distinct keys |
| PhotoMetadata.ResolveSubfields | json_processor.py:69-80 | a composite's dict has at most one entry per sub-entry, and every key is the name of a sub-entry |
| PhotoMetadata.ResolveField | json_processor.py:64-103 | a field's value is never null; a simple field gets `get_by_path(frame, path)`; an attached composite is a non-empty dict |
| PhotoMetadata.ResolveEntries | json_processor.py:64-103 | a record's non-`iso` fields are at most one per configured entry, each under a configured name other than `iso` |
| PhotoMetadata.FrameRecord | json_processor.py:55-105 | a kept record belongs to a dict frame; it starts with `iso` (document first, then frame, else null), followed by exactly the frame's resolved entries, at least one, each under a configured name other than `iso` |
| PhotoMetadata.Somes | json_processor.py:104-105 | appending only the present records yields no more records than there were frames |
| PhotoMetadata.FrameRecords | json_processor.py:55-105 | one outcome per located frame, position by position, each the record or the drop of that frame |
| PhotoMetadata.ExtractFrames | json_processor.py:54-107 | the loop over the frames yields at most one record per frame |
| PhotoMetadata.ExtractPhotoMetadata | json_processor.py:49-52 | fails (the `ValueError`) exactly when no frame list is found; otherwise it has at most as many records as frames |
| ExtractionProperties.CollectContents | json_processor.py:69-82 | the dict-building loop yields an empty dict exactly when no entry resolves, and holds a pair exactly when an entry of that name resolved to that value |
| ExtractionProperties.CompositeSound | json_processor.py:84-96 | every entry of an attached composite comes from a sub-entry of that name that resolved to that value |
| ExtractionProperties.CompositeComplete | json_processor.py:84-96 | every sub-entry that resolves is in the composite under its name, so the composite is attached |
| ExtractionProperties.CompositeContents | json_processor.py:67-96 | a composite is absent exactly when no sub-entry resolves; when attached it holds exactly the resolved sub-entries |
| ExtractionProperties.CompositeKeysUnique | json_processor.py:84-96 | with distinct sub-entry names, an attached composite never repeats a key |
| ExtractionProperties.CameraSubfieldRootFirst | json_processor.py:68-83 | a `camera` sub-entry found in the document is recorded with the document's value, whatever the frame holds; otherwise the frame's value is recorded |
| ExtractionProperties.FrameOnlyIgnoresRoot | json_processor.py:84-103 | every field other than a `camera` composite resolves the same whatever the document holds, so the frame alone decides it |
| ExtractionProperties.SimpleFieldFromFrame | json_processor.py:97-103 | a simple field records the frame's value at its path, and nothing when that lookup is absent |
| ExtractionProperties.FrameOnlyCompositeFromFrame | json_processor.py:84-96 | a composite other than `camera` is absent exactly when no sub-entry's path resolves in the frame; when attached it holds exactly the sub-entries that resolve in the frame, each with the frame's value |
| ExtractionProperties.ResolveEntriesSound | json_processor.py:64-103 | every field a record receives comes from a configured entry of that name, other than `iso`, that resolved to that value |
| ExtractionProperties.ResolveEntriesComplete | json_processor.py:64-103 | every configured entry other than `iso` that resolves is in the record under its name |
| ExtractionProperties.ResolveEntriesContents | json_processor.py:64-103 | a record's non-`iso` fields are exactly the resolved configured entries other than `iso` |
| ExtractionProperties.ResolveEntriesUnique | json_processor.py:64-103 | with distinct configured names, the attached fields never repeat a key |
| ExtractionProperties.FrameKeptIff | json_processor.py:56-105 | a frame is kept exactly when it is a dict and some field other than `iso` resolved; a resolved `iso` alone does not keep it |
| ExtractionProperties.RecordKeysUnique | json_processor.py:62-103 | with distinct configured names, a record never repeats a key |
| ExtractionProperties.SomesAtPositions | json_processor.py:104-105 | the `k`-th output record is the record of the `k`-th kept frame |
| ExtractionProperties.SomePositionsIncreasing | json_processor.py:55 | kept frames appear in frame order |
| ExtractionProperties.SomePositionsExact | json_processor.py:104-105 | a frame position is kept exactly when that frame yields a record |
| ExtractionProperties.SomesInOrder | json_processor.py:54-105 | the output is an order-preserving selection of the records, one per kept frame |
| ExtractionProperties.ExtractFramesInOrder | json_processor.py:54-105 | record `k` of the output is the record of the `k`-th kept frame, kept frames are in increasing order, and a frame is kept exactly when it yields a record |
| ExtractionProperties.SomesEmptyIff | json_processor.py:104-107 | nothing is appended exactly when no frame yields a record |
| ExtractionProperties.EmptyOutputIff | json_processor.py:49-107 | the output is an empty list (not an error) exactly when a frame list is found and none of its frames yields a record |
| ExtractionProperties.OutputRecordsFromFrames | json_processor.py:54-107 | each output record is the record of the matching kept frame and starts with that frame's `iso` value |

## Left out

- `get_metadata` (json_processor.py:110-124) is not modelled. It reads `config.json` and the input file, and it prints and swallows exceptions. Those are file I/O and logging.
- `main.py` and `utils.py` are not part of this model. They cover image listing, EXIF writing through a foreign library, regular-expression date rewriting and floating-point APEX and GPS conversions.
- JSON parsing is not modelled. The core receives already-parsed values.
- Numbers are carried as `real` and are only passed through. The core never interprets them, so no float semantics are modelled.
- Configuration normalisation is described above and taken as already done. A configuration whose paths are not strings is outside the model.
- A missing path for a field other than `iso` is a precondition (`PathsPresent`), not a modelled crash. In the source it would reach `None.split` and raise `AttributeError`.
- Dicts with duplicate keys cannot come out of `json.load`. The model's lookup takes the first match, and the lemmas that need distinct keys state it as `UniqueKeys`.
- The `isinstance(frame, dict)` skip (json_processor.py:56-57) is modelled as a drop in `FrameRecord`. It never fires on a located frame list, because every element of such a list is a dict.
- Python dict insertion order is modelled as sequence order. Re-assigning a key already present cannot happen, because configuration names are distinct and `iso` is skipped.
