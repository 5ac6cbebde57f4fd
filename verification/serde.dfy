/** Persisting runs. A run is stored as a directory holding `erm_metadata.json`
    (everything but the artifact payloads) and `artifacts/<filename>` per
    artifact; saving into a registry first drops the marker files listing
    relies on. The file system is a map from path to bytes; JSON text is
    produced and read by a codec the caller supplies, and text is stored as
    its UTF-8 encoding. */
module Serde {
  import opened Outcomes
  import opened Bytes
  import opened Strings
  import opened Paths
  import opened StringOrder
  import opened Timestamps
  import opened Artifacts
  import opened ExperimentRuns
  import opened Registry

  /** `ExperimentRunMetadata`: the run without artifact payloads. */
  datatype Metadata = Metadata(
    timestampUtc: Timestamp,
    experimentId: string,
    variantId: string,
    runId: string,
    params: map<string, Value>,
    metrics: map<string, Value>,
    dicts: map<string, map<string, Value>>,
    artifacts: map<string, ArtifactBase>)

  /** The contents of the three marker files, each stamped with the clock
      reading taken when it was created. */
  datatype Marker =
    | RegistryMarker(created: Timestamp)
    | ExperimentMarker(experimentId: string, created: Timestamp)
    | VariantMarker(variantId: string, created: Timestamp)

  /** JSON serialisation and validation: `toJson` is pydantic's `.json()`,
      `fromJson` is `json.loads` followed by model validation, `markerJson`
      is `json.dumps` of a marker's fields. */
  datatype Codec = Codec(
    toJson: Metadata -> string,
    fromJson: string -> Option<Metadata>,
    markerJson: Marker -> string)

  /** Reading back what was written gives the same metadata. */
  ghost predicate Lossless(c: Codec)
  {
    forall m :: c.fromJson(c.toJson(m)) == Some(m)
  }

  type Store = map<string, seq<byte>>

  /** The file system after a call, and what the call returned or raised.
      Writes made before a raise persist, so both are always present. */
  datatype Saved<T> = Saved(store: Store, result: Result<T>)

  datatype Unit = Unit

  const ArtifactsDirName: string := "artifacts"

  function ArtifactsDir(runPath: string): string
  {
    Join(runPath, ArtifactsDirName)
  }

  function ArtifactFilePath(runPath: string, filename: string): string
  {
    Join(ArtifactsDir(runPath), filename)
  }

  /** The metadata record `save_run_to_path` builds from a run. */
  function MetadataOf(run: Run): (m: Metadata)
    ensures m.artifacts.Keys == run.artifacts.Keys
    ensures forall k :: k in run.artifacts ==> m.artifacts[k] == Base(run.artifacts[k])
  {
    Metadata(run.timestampUtc, run.experimentId, run.variantId, run.runId,
             run.params, run.metrics, run.dicts,
             map k | k in run.artifacts :: Base(run.artifacts[k]))
  }

  /** The run `load_run_from_path` rebuilds from metadata and the artifacts
      it read. */
  function RunOf(m: Metadata, artifacts: map<string, Artifact>): (run: Run)
    ensures MetadataOf(run).artifacts == (map k | k in artifacts :: Base(artifacts[k]))
  {
    Run(m.timestampUtc, m.experimentId, m.variantId, m.runId,
        m.params, m.metrics, m.dicts, artifacts)
  }

  /** Projecting a run to metadata and rebuilding it with its own artifacts
      is the identity. */
  lemma RunOfMetadataOf(run: Run)
    ensures RunOf(MetadataOf(run), run.artifacts) == run
  {
  }

  /** Among `order[i..]`, no later artifact writes to the path of `order[i]`. */
  ghost predicate LastWriter(dir: string, arts: map<string, Artifact>, order: seq<string>, i: nat)
    requires i < |order| && forall j :: 0 <= j < |order| ==> order[j] in arts
  {
    forall j :: i < j < |order| ==> Join(dir, arts[order[j]].filename) != Join(dir, arts[order[i]].filename)
  }

  /** The artifact loop of `save_run_to_path`: each artifact's bytes are
      written to `<dir>/<filename>` in the order given. */
  function WriteArtifacts(store: Store, dir: string, arts: map<string, Artifact>, order: seq<string>): (r: Store)
    requires forall i :: 0 <= i < |order| ==> order[i] in arts
    ensures store.Keys <= r.Keys
    decreases |order|
  {
    if order == [] then store
    else
      var a := arts[order[0]];
      WriteArtifacts(store[Join(dir, a.filename) := a.bytes], dir, arts, order[1..])
  }

  /** A path no artifact is written to keeps whatever it held, or stays
      absent. */
  lemma {:induction false} WriteArtifactsFrame(store: Store, dir: string, arts: map<string, Artifact>, order: seq<string>, p: string)
    requires forall i :: 0 <= i < |order| ==> order[i] in arts
    requires forall i :: 0 <= i < |order| ==> Join(dir, arts[order[i]].filename) != p
    ensures p in WriteArtifacts(store, dir, arts, order) <==> p in store
    ensures p in store ==> WriteArtifacts(store, dir, arts, order)[p] == store[p]
    decreases |order|
  {
    if order != [] {
      var a := arts[order[0]];
      assert Join(dir, a.filename) != p;
      assert forall i :: 1 <= i < |order| ==> order[1..][i - 1] == order[i];
      WriteArtifactsFrame(store[Join(dir, a.filename) := a.bytes], dir, arts, order[1..], p);
    }
  }

  /** When two artifacts share a path the later one's bytes remain: the
      bytes of the last artifact written to a path are what it holds. */
  lemma {:induction false} WriteArtifactsLastWins(store: Store, dir: string, arts: map<string, Artifact>, order: seq<string>, i: nat)
    requires forall j :: 0 <= j < |order| ==> order[j] in arts
    requires i < |order| && LastWriter(dir, arts, order, i)
    ensures Join(dir, arts[order[i]].filename) in WriteArtifacts(store, dir, arts, order)
    ensures WriteArtifacts(store, dir, arts, order)[Join(dir, arts[order[i]].filename)] == arts[order[i]].bytes
    decreases |order|
  {
    var a := arts[order[0]];
    var target := Join(dir, a.filename);
    var next := store[target := a.bytes];
    var rest := order[1..];
    assert forall j :: 0 <= j < |rest| ==> rest[j] == order[j + 1];
    assert WriteArtifacts(store, dir, arts, order) == WriteArtifacts(next, dir, arts, rest);
    if i == 0 {
      forall j | 0 <= j < |rest|
        ensures Join(dir, arts[rest[j]].filename) != target
      {
        assert rest[j] == order[j + 1];
      }
      WriteArtifactsFrame(next, dir, arts, rest, target);
    } else {
      assert order[i] == rest[i - 1];
      forall j | i - 1 < j < |rest|
        ensures Join(dir, arts[rest[j]].filename) != Join(dir, arts[rest[i - 1]].filename)
      {
        assert rest[j] == order[j + 1];
      }
      assert LastWriter(dir, arts, rest, i - 1);
      WriteArtifactsLastWins(next, dir, arts, rest, i - 1);
    }
  }

  /** `save_run_to_path(er, path, fs, overwrite)`. `order` is the iteration
      order of the run's artifacts. An existing metadata file without
      `overwrite` raises before anything is written; otherwise the metadata
      file and then each artifact's payload are written. */
  function SaveRunToPath(store: Store, codec: Codec, run: Run, path: string, overwrite: bool,
                         order: seq<string>): (r: Saved<Unit>)
    requires Enumerates(order, run.artifacts.Keys)
    ensures r.result.Err? <==> RunMetadataPath(path) in store && !overwrite
    ensures r.result.Err? ==> r.store == store && r.result.error == AlreadyExists(path)
    ensures r.result.Ok? ==> store.Keys + {RunMetadataPath(path)} <= r.store.Keys
  {
    var metaPath := RunMetadataPath(path);
    if metaPath in store && !overwrite then Saved(store, Err(AlreadyExists(path)))
    else
      var withMeta := store[metaPath := Utf8Encode(codec.toJson(MetadataOf(run)))];
      Saved(WriteArtifacts(withMeta, ArtifactsDir(path), run.artifacts, order), Ok(Unit))
  }

  /** `p` is a file `save_run_to_path` writes: the metadata file or one
      artifact's file. */
  ghost predicate WrittenBySave(run: Run, path: string, p: string)
  {
    p == RunMetadataPath(path) || exists k :: k in run.artifacts && ArtifactFilePath(path, run.artifacts[k].filename) == p
  }

  /** Saving touches nothing but the run's own files. */
  lemma SaveRunToPathFrame(store: Store, codec: Codec, run: Run, path: string, overwrite: bool, order: seq<string>, p: string)
    requires Enumerates(order, run.artifacts.Keys)
    requires !WrittenBySave(run, path, p)
    ensures var r := SaveRunToPath(store, codec, run, path, overwrite, order).store;
            (p in r <==> p in store) && (p in store ==> r[p] == store[p])
  {
    if !(RunMetadataPath(path) in store && !overwrite) {
      var withMeta := store[RunMetadataPath(path) := Utf8Encode(codec.toJson(MetadataOf(run)))];
      forall i | 0 <= i < |order|
        ensures Join(ArtifactsDir(path), run.artifacts[order[i]].filename) != p
      {
        assert order[i] in run.artifacts;
      }
      WriteArtifactsFrame(withMeta, ArtifactsDir(path), run.artifacts, order, p);
    }
  }

  /** After a successful save the metadata file holds the UTF-8 JSON of the
      run's metadata, provided no artifact file name is absolute. */
  lemma SaveRunToPathWritesMetadata(store: Store, codec: Codec, run: Run, path: string, overwrite: bool, order: seq<string>)
    requires Enumerates(order, run.artifacts.Keys)
    requires RelativeFilenames(run.artifacts)
    requires !(RunMetadataPath(path) in store && !overwrite)
    ensures var r := SaveRunToPath(store, codec, run, path, overwrite, order).store;
            RunMetadataPath(path) in r && r[RunMetadataPath(path)] == Utf8Encode(codec.toJson(MetadataOf(run)))
  {
    var metaPath := RunMetadataPath(path);
    var withMeta := store[metaPath := Utf8Encode(codec.toJson(MetadataOf(run)))];
    forall i | 0 <= i < |order|
      ensures Join(ArtifactsDir(path), run.artifacts[order[i]].filename) != metaPath
    {
      assert order[i] in run.artifacts;
      ArtifactPathIsNotMetadata(path, run.artifacts[order[i]].filename);
    }
    WriteArtifactsFrame(withMeta, ArtifactsDir(path), run.artifacts, order, metaPath);
  }

  /** After a successful save every artifact's file holds its payload,
      provided artifact file names are relative and distinct. */
  lemma SaveRunToPathWritesArtifacts(store: Store, codec: Codec, run: Run, path: string, overwrite: bool, order: seq<string>, k: string)
    requires Enumerates(order, run.artifacts.Keys)
    requires DistinctFilenames(run.artifacts)
    requires !(RunMetadataPath(path) in store && !overwrite)
    requires k in run.artifacts
    ensures var r := SaveRunToPath(store, codec, run, path, overwrite, order).store;
            var p := ArtifactFilePath(path, run.artifacts[k].filename);
            p in r && r[p] == run.artifacts[k].bytes
  {
    var withMeta := store[RunMetadataPath(path) := Utf8Encode(codec.toJson(MetadataOf(run)))];
    assert k in order;
    var i :| 0 <= i < |order| && order[i] == k;
    forall j | i < j < |order|
      ensures Join(ArtifactsDir(path), run.artifacts[order[j]].filename) != Join(ArtifactsDir(path), run.artifacts[order[i]].filename)
    {
      assert order[j] in run.artifacts && order[j] != order[i];
      ArtifactPathsDistinct(path, run.artifacts[order[i]].filename, run.artifacts[order[j]].filename);
    }
    WriteArtifactsLastWins(withMeta, ArtifactsDir(path), run.artifacts, order, i);
  }

  /** No artifact file name is absolute, so `join` keeps every artifact's
      path string under the run's `artifacts/` prefix (the store does not
      resolve `.` or `..` in it). */
  ghost predicate RelativeFilenames(arts: map<string, Artifact>)
  {
    forall k :: k in arts ==> !StartsWithSlash(arts[k].filename)
  }

  /** Relative and pairwise distinct artifact file names: no two artifacts
      are written under the same store key, nor under the metadata file's.
      Keys are compared as strings, as the store compares them. */
  ghost predicate DistinctFilenames(arts: map<string, Artifact>)
  {
    && RelativeFilenames(arts)
    && forall k1, k2 :: k1 in arts && k2 in arts && k1 != k2 ==> arts[k1].filename != arts[k2].filename
  }

  /** A relative artifact file's path string is never the metadata file's. */
  lemma ArtifactPathIsNotMetadata(path: string, filename: string)
    requires !StartsWithSlash(filename)
    ensures ArtifactFilePath(path, filename) != RunMetadataPath(path)
  {
    var d := Dir(path);
    assert ArtifactsDir(path) == d + ArtifactsDirName;
    assert Dir(ArtifactsDir(path)) == d + ArtifactsDirName + "/";
    assert ArtifactFilePath(path, filename)[|d|] == 'a';
    assert RunMetadataPath(path)[|d|] == 'e';
  }

  /** Distinct relative file names give distinct artifact paths. */
  lemma ArtifactPathsDistinct(path: string, f1: string, f2: string)
    requires !StartsWithSlash(f1) && !StartsWithSlash(f2) && f1 != f2
    ensures ArtifactFilePath(path, f1) != ArtifactFilePath(path, f2)
  {
    var d := Dir(ArtifactsDir(path));
    assert ArtifactFilePath(path, f1) == d + f1 && ArtifactFilePath(path, f2) == d + f2;
    assert (d + f1)[|d|..] == f1 && (d + f2)[|d|..] == f2;
  }

  /** The artifact loop of `load_run_from_path`, over the metadata's artifact
      keys in `keys`: each file `<dir>/<filename>` is read back into a full
      artifact; a missing file raises. */
  function ReadArtifacts(store: Store, dir: string, bases: map<string, ArtifactBase>, keys: seq<string>): (r: Result<map<string, Artifact>>)
    requires forall i :: 0 <= i < |keys| ==> keys[i] in bases
    ensures r.Ok? <==> forall i :: 0 <= i < |keys| ==> Join(dir, bases[keys[i]].filename) in store
    ensures r.Err? ==> r.error.NotFound? && r.error.path !in store
    ensures r.Ok? ==> forall k :: k in r.value <==> k in keys
    ensures r.Ok? ==> forall k :: k in r.value ==>
              k in bases && Join(dir, bases[k].filename) in store
              && r.value[k] == WithBytes(bases[k], store[Join(dir, bases[k].filename)])
    decreases |keys|
  {
    if keys == [] then Ok(map[])
    else
      var b := bases[keys[0]];
      var p := Join(dir, b.filename);
      assert forall i :: 1 <= i < |keys| ==> keys[1..][i - 1] == keys[i];
      if p !in store then Err(NotFound(p))
      else
        match ReadArtifacts(store, dir, bases, keys[1..])
        case Err(e) => Err(e)
        case Ok(rest) =>
          assert forall k :: k in keys <==> k == keys[0] || k in keys[1..];
          Ok(rest[keys[0] := WithBytes(b, store[p])])
  }

  /** `load_run_from_path(run_path)`. A missing metadata file or artifact
      file raises not-found; bytes that are not UTF-8, or text the codec
      rejects, raise a parse error. Artifact files are read in key order. */
  function LoadRunFromPath(store: Store, codec: Codec, runPath: string): (r: Result<Run>)
    ensures RunMetadataPath(runPath) !in store ==> r == Err(NotFound(RunMetadataPath(runPath)))
    ensures RunMetadataPath(runPath) in store && Utf8Decode(store[RunMetadataPath(runPath)]).None? ==>
              r == Err(Malformed(RunMetadataPath(runPath)))
    ensures r.Ok? ==> && RunMetadataPath(runPath) in store
                      && Utf8Decode(store[RunMetadataPath(runPath)]).Some?
                      && codec.fromJson(Utf8Decode(store[RunMetadataPath(runPath)]).value).Some?
                      && LoadedFrom(store, runPath, codec.fromJson(Utf8Decode(store[RunMetadataPath(runPath)]).value).value, r.value)
  {
    var metaPath := RunMetadataPath(runPath);
    if metaPath !in store then Err(NotFound(metaPath))
    else
      match Utf8Decode(store[metaPath])
      case None => Err(Malformed(metaPath))
      case Some(text) =>
        match codec.fromJson(text)
        case None => Err(Malformed(metaPath))
        case Some(m) =>
          match ReadArtifacts(store, ArtifactsDir(runPath), m.artifacts, SortedSet(m.artifacts.Keys))
          case Err(e) => Err(e)
          case Ok(arts) => Ok(RunOf(m, arts))
  }

  /** `run` is the run rebuilt from metadata `m` with every artifact's payload
      read from its file under `runPath`. */
  ghost predicate LoadedFrom(store: Store, runPath: string, m: Metadata, run: Run)
  {
    && run.timestampUtc == m.timestampUtc && run.experimentId == m.experimentId
    && run.variantId == m.variantId && run.runId == m.runId
    && run.params == m.params && run.metrics == m.metrics && run.dicts == m.dicts
    && run.artifacts.Keys == m.artifacts.Keys
    && forall k :: k in run.artifacts ==>
         && Base(run.artifacts[k]) == m.artifacts[k]
         && ArtifactFilePath(runPath, m.artifacts[k].filename) in store
         && run.artifacts[k].bytes == store[ArtifactFilePath(runPath, m.artifacts[k].filename)]
  }

  /** The successful path through `load_run_from_path`, step by step. */
  lemma LoadRunFromPathSteps(store: Store, codec: Codec, runPath: string, text: string, m: Metadata, arts: map<string, Artifact>)
    requires RunMetadataPath(runPath) in store
    requires Utf8Decode(store[RunMetadataPath(runPath)]) == Some(text)
    requires codec.fromJson(text) == Some(m)
    requires ReadArtifacts(store, ArtifactsDir(runPath), m.artifacts, SortedSet(m.artifacts.Keys)) == Ok(arts)
    ensures LoadRunFromPath(store, codec, runPath) == Ok(RunOf(m, arts))
  {
  }

  /** When every listed artifact's file is present and rebuilds the expected
      artifact, reading them all gives exactly the expected map. */
  lemma ReadArtifactsAll(store: Store, dir: string, bases: map<string, ArtifactBase>, keys: seq<string>, arts: map<string, Artifact>)
    requires forall k :: k in keys <==> k in bases
    requires arts.Keys == bases.Keys
    requires forall k :: k in bases ==>
               && Join(dir, bases[k].filename) in store
               && WithBytes(bases[k], store[Join(dir, bases[k].filename)]) == arts[k]
    ensures ReadArtifacts(store, dir, bases, keys) == Ok(arts)
  {
    var read := ReadArtifacts(store, dir, bases, keys);
    assert read.Ok? by {
      forall i | 0 <= i < |keys|
        ensures Join(dir, bases[keys[i]].filename) in store
      {
        assert keys[i] in keys;
      }
    }
    var v := read.value;
    forall k | k in arts
      ensures k in v && v[k] == arts[k]
    {
      assert k in keys;
    }
    assert forall k :: k in v ==> k in arts;
    assert v == arts;
  }

  /** Reading back the artifacts a save wrote gives the run's artifacts. */
  lemma ReadBackArtifacts(store: Store, codec: Codec, run: Run, path: string, overwrite: bool, order: seq<string>)
    requires Enumerates(order, run.artifacts.Keys)
    requires DistinctFilenames(run.artifacts)
    requires !(RunMetadataPath(path) in store && !overwrite)
    ensures var saved := SaveRunToPath(store, codec, run, path, overwrite, order).store;
            var m := MetadataOf(run);
            ReadArtifacts(saved, ArtifactsDir(path), m.artifacts, SortedSet(m.artifacts.Keys)) == Ok(run.artifacts)
  {
    var saved := SaveRunToPath(store, codec, run, path, overwrite, order).store;
    var m := MetadataOf(run);
    forall k | k in m.artifacts
      ensures Join(ArtifactsDir(path), m.artifacts[k].filename) in saved
      ensures WithBytes(m.artifacts[k], saved[Join(ArtifactsDir(path), m.artifacts[k].filename)]) == run.artifacts[k]
    {
      SaveRunToPathWritesArtifacts(store, codec, run, path, overwrite, order, k);
      BaseWithBytes(run.artifacts[k], m.artifacts[k], run.artifacts[k].bytes);
    }
    ReadArtifactsAll(saved, ArtifactsDir(path), m.artifacts, SortedSet(m.artifacts.Keys), run.artifacts);
  }

  /** Saving a run and loading it from the same path gives the run back, when
      the codec is lossless and artifact file names are relative and
      distinct. */
  lemma SaveLoadRoundTrip(store: Store, codec: Codec, run: Run, path: string, overwrite: bool, order: seq<string>)
    requires Lossless(codec)
    requires Enumerates(order, run.artifacts.Keys)
    requires DistinctFilenames(run.artifacts)
    requires !(RunMetadataPath(path) in store && !overwrite)
    ensures SaveRunToPath(store, codec, run, path, overwrite, order).result.Ok?
    ensures LoadRunFromPath(SaveRunToPath(store, codec, run, path, overwrite, order).store, codec, path) == Ok(run)
  {
    var saved := SaveRunToPath(store, codec, run, path, overwrite, order).store;
    var m := MetadataOf(run);
    SaveRunToPathWritesMetadata(store, codec, run, path, overwrite, order);
    Utf8RoundTrip(codec.toJson(m));
    assert codec.fromJson(codec.toJson(m)) == Some(m);
    ReadBackArtifacts(store, codec, run, path, overwrite, order);
    LoadRunFromPathSteps(saved, codec, path, codec.toJson(m), m, run.artifacts);
    RunOfMetadataOf(run);
  }

  /** The marker files `save_run_to_registry` creates, each only if absent;
      `now` is the clock reading stamped into new markers. Nothing already in
      the store changes. */
  function WriteMarkers(store: Store, codec: Codec, root: string, experimentId: string, variantId: string,
                        now: Timestamp): (r: Store)
    ensures r.Keys == store.Keys + {RegistryMarkerPath(root), ExperimentMarkerPath(root, experimentId),
                                    VariantMarkerPath(root, experimentId, variantId)}
    ensures forall p :: p in store ==> r[p] == store[p]
    ensures RegistryMarkerPath(root) !in store ==>
              r[RegistryMarkerPath(root)] == Utf8Encode(codec.markerJson(RegistryMarker(now)))
    ensures ExperimentMarkerPath(root, experimentId) !in store ==>
              r[ExperimentMarkerPath(root, experimentId)] == Utf8Encode(codec.markerJson(ExperimentMarker(experimentId, now)))
    ensures VariantMarkerPath(root, experimentId, variantId) !in store ==>
              r[VariantMarkerPath(root, experimentId, variantId)] == Utf8Encode(codec.markerJson(VariantMarker(variantId, now)))
  {
    var regPath := RegistryMarkerPath(root);
    var expPath := ExperimentMarkerPath(root, experimentId);
    var varPath := VariantMarkerPath(root, experimentId, variantId);
    var regData := Utf8Encode(codec.markerJson(RegistryMarker(now)));
    var expData := Utf8Encode(codec.markerJson(ExperimentMarker(experimentId, now)));
    var varData := Utf8Encode(codec.markerJson(VariantMarker(variantId, now)));
    MarkerPathsDistinct(root, experimentId, variantId);
    PutThreeIfAbsent(store, regPath, regData, expPath, expData, varPath, varData);
    PutIfAbsent(PutIfAbsent(PutIfAbsent(store, regPath, regData), expPath, expData), varPath, varData)
  }

  /** Three files at distinct paths, each written only if absent. */
  lemma PutThreeIfAbsent(store: Store, p1: string, d1: seq<byte>, p2: string, d2: seq<byte>, p3: string, d3: seq<byte>)
    requires p1 != p2 && p1 != p3 && p2 != p3
    ensures var r := PutIfAbsent(PutIfAbsent(PutIfAbsent(store, p1, d1), p2, d2), p3, d3);
            && r.Keys == store.Keys + {p1, p2, p3}
            && (forall p :: p in store ==> r[p] == store[p])
            && (p1 !in store ==> r[p1] == d1)
            && (p2 !in store ==> r[p2] == d2)
            && (p3 !in store ==> r[p3] == d3)
  {
  }

  /** A file written only if absent: `if not exists(p): write(p, data)`. */
  function PutIfAbsent(store: Store, p: string, data: seq<byte>): (r: Store)
    ensures r.Keys == store.Keys + {p}
    ensures forall q :: q in store ==> r[q] == store[q]
    ensures p !in store ==> r[p] == data
  {
    if p in store then store else store[p := data]
  }

  /** `join(a, b)` ends with `b`. */
  lemma JoinEndsWith(a: string, b: string)
    ensures |b| <= |Join(a, b)| && Join(a, b)[|Join(a, b)| - |b|..] == b
  {
    if !StartsWithSlash(b) {
      assert (Dir(a) + b)[|Dir(a)|..] == b;
    }
  }

  /** Joins ending in names whose last eight characters differ are different
      paths. */
  lemma LeafNamesDiffer(a: string, x: string, b: string, y: string)
    requires |x| >= 8 && |y| >= 8 && x[|x| - 8..] != y[|y| - 8..]
    ensures Join(a, x) != Join(b, y)
  {
    JoinEndsWith(a, x);
    JoinEndsWith(b, y);
    var p, q := Join(a, x), Join(b, y);
    assert p[|p| - 8..] == x[|x| - 8..];
    assert q[|q| - 8..] == y[|y| - 8..];
  }

  /** The three marker files have different names, so they are three
      different paths whatever the ids are. */
  lemma MarkerPathsDistinct(root: string, experimentId: string, variantId: string)
    ensures RegistryMarkerPath(root) != ExperimentMarkerPath(root, experimentId)
    ensures RegistryMarkerPath(root) != VariantMarkerPath(root, experimentId, variantId)
    ensures ExperimentMarkerPath(root, experimentId) != VariantMarkerPath(root, experimentId, variantId)
  {
    MarkerNameEndings();
    LeafNamesDiffer(root, RegistryFileName, ExperimentPath(root, experimentId), ExperimentFileName);
    LeafNamesDiffer(root, RegistryFileName, VariantPath(root, experimentId, variantId), VariantFileName);
    LeafNamesDiffer(ExperimentPath(root, experimentId), ExperimentFileName, VariantPath(root, experimentId, variantId), VariantFileName);
  }

  /** Nor can a run's metadata file be one of the markers. */
  lemma MetadataIsNotMarker(runPath: string, root: string, experimentId: string, variantId: string)
    ensures RunMetadataPath(runPath) != RegistryMarkerPath(root)
    ensures RunMetadataPath(runPath) != ExperimentMarkerPath(root, experimentId)
    ensures RunMetadataPath(runPath) != VariantMarkerPath(root, experimentId, variantId)
  {
    MarkerNameEndings();
    LeafNamesDiffer(runPath, RunMetadataFileName, root, RegistryFileName);
    LeafNamesDiffer(runPath, RunMetadataFileName, ExperimentPath(root, experimentId), ExperimentFileName);
    LeafNamesDiffer(runPath, RunMetadataFileName, VariantPath(root, experimentId, variantId), VariantFileName);
  }

  lemma MarkerNameEndings()
    ensures RegistryFileName[|RegistryFileName| - 8..] == "try.json"
    ensures ExperimentFileName[|ExperimentFileName| - 8..] == "ent.json"
    ensures VariantFileName[|VariantFileName| - 8..] == "ant.json"
    ensures RunMetadataFileName[|RunMetadataFileName| - 8..] == "ata.json"
  {
  }

  /** Marker files are written once: writing them again, at any later clock
      reading, changes nothing. */
  lemma WriteMarkersIdempotent(store: Store, codec: Codec, root: string, experimentId: string, variantId: string,
                               now: Timestamp, later: Timestamp)
    ensures var s := WriteMarkers(store, codec, root, experimentId, variantId, now);
            WriteMarkers(s, codec, root, experimentId, variantId, later) == s
  {
  }

  /** `save_run_to_registry(er, registry_path, fs, overwrite)`: creates the
      marker files that are missing, then saves the run under
      `<registry>/<experiment>/<variant>/<run>` and returns that path. The
      markers stay even when the save raises. */
  function SaveRunToRegistry(store: Store, codec: Codec, run: Run, root: string, overwrite: bool,
                             order: seq<string>, now: Timestamp): (r: Saved<string>)
    requires Enumerates(order, run.artifacts.Keys)
    ensures r.result.Err? <==> RunMetadataPath(RunPath(root, run.experimentId, run.variantId, run.runId)) in store && !overwrite
    ensures r.result.Err? ==> r.result.error == AlreadyExists(RunPath(root, run.experimentId, run.variantId, run.runId))
    ensures r.result.Ok? ==> r.result.value == RunPath(root, run.experimentId, run.variantId, run.runId)
    ensures RegistryMarkerPath(root) in r.store && ExperimentMarkerPath(root, run.experimentId) in r.store
            && VariantMarkerPath(root, run.experimentId, run.variantId) in r.store
    ensures r.result.Err? ==> r.store == WriteMarkers(store, codec, root, run.experimentId, run.variantId, now)
    ensures r.result.Ok? ==>
              r.store == SaveRunToPath(WriteMarkers(store, codec, root, run.experimentId, run.variantId, now),
                                       codec, run, r.result.value, overwrite, order).store
  {
    var marked := WriteMarkers(store, codec, root, run.experimentId, run.variantId, now);
    var runPath := RunPath(root, run.experimentId, run.variantId, run.runId);
    MetadataIsNotMarker(runPath, root, run.experimentId, run.variantId);
    assert RunMetadataPath(runPath) in marked <==> RunMetadataPath(runPath) in store;
    var saved := SaveRunToPath(marked, codec, run, runPath, overwrite, order);
    match saved.result
    case Err(e) => Saved(saved.store, Err(e))
    case Ok(_) => Saved(saved.store, Ok(runPath))
  }

  /** `load_run_from_registry(registry_path, experiment_id, variant_id="main",
      run_id=None)`: with no run id, the latest listed run (`listed` holds the
      glob's matches for the variant's metadata files). */
  function LoadRunFromRegistry(store: Store, codec: Codec, root: string, experimentId: string,
                               variantId: string := DefaultVariantId, runId: Option<string> := None,
                               listed: seq<string>): (r: Result<Run>)
    ensures runId.None? && listed == [] ==> r == Err(NoRuns)
    ensures runId.Some? ==> r == LoadRunFromPath(store, codec, RunPath(root, experimentId, variantId, runId.value))
    ensures runId.None? && listed != [] ==>
              exists id :: id in ListRuns(root, experimentId, variantId, listed)
                && (forall x :: x in ListRuns(root, experimentId, variantId, listed) ==> Le(x, id))
                && r == LoadRunFromPath(store, codec, RunPath(root, experimentId, variantId, id))
  {
    var id :- if runId.Some? then Ok(runId.value) else GetLatestRunForVariant(root, experimentId, variantId, listed);
    LoadRunFromPath(store, codec, RunPath(root, experimentId, variantId, id))
  }

  /** Given only an experiment id, `load_run_from_registry` loads the latest
      listed run of variant `main`, and fails when none is listed. */
  lemma LoadRunFromRegistryDefaults(store: Store, codec: Codec, root: string, experimentId: string,
                                    listed: seq<string>)
    ensures listed == [] ==> LoadRunFromRegistry(store, codec, root, experimentId, listed := listed) == Err(NoRuns)
    ensures listed != [] ==>
              exists id :: id in ListRuns(root, experimentId, "main", listed)
                && (forall x :: x in ListRuns(root, experimentId, "main", listed) ==> Le(x, id))
                && LoadRunFromRegistry(store, codec, root, experimentId, listed := listed)
                   == LoadRunFromPath(store, codec, RunPath(root, experimentId, "main", id))
  {
    assert DefaultVariantId == "main";
    if listed != [] {
      var id := GetLatestRunForVariant(root, experimentId, "main", listed).value;
      assert id in ListRuns(root, experimentId, "main", listed);
    }
  }

  /** A run saved to a registry loads back from it under its own ids. */
  lemma RegistryRoundTrip(store: Store, codec: Codec, run: Run, root: string, overwrite: bool,
                          order: seq<string>, now: Timestamp, listed: seq<string>)
    requires Lossless(codec)
    requires Enumerates(order, run.artifacts.Keys)
    requires DistinctFilenames(run.artifacts)
    requires !(RunMetadataPath(RunPath(root, run.experimentId, run.variantId, run.runId)) in store && !overwrite)
    ensures SaveRunToRegistry(store, codec, run, root, overwrite, order, now).result.Ok?
    ensures LoadRunFromRegistry(SaveRunToRegistry(store, codec, run, root, overwrite, order, now).store, codec,
                                root, run.experimentId, run.variantId, Some(run.runId), listed) == Ok(run)
  {
    var marked := WriteMarkers(store, codec, root, run.experimentId, run.variantId, now);
    var runPath := RunPath(root, run.experimentId, run.variantId, run.runId);
    MetadataIsNotMarker(runPath, root, run.experimentId, run.variantId);
    SaveLoadRoundTrip(marked, codec, run, runPath, overwrite, order);
  }
}
