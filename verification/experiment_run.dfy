/** An experiment run: identity, timestamp and the four containers the logging
    calls fill. Every logging call is a pure transition from the run before the
    call to the run after it; a call that raises returns `Err` and the caller
    keeps the run it had. */
module ExperimentRuns {
  import opened Outcomes
  import opened Bytes
  import opened Paths
  import opened Timestamps
  import opened Artifacts

  datatype Run = Run(
    timestampUtc: Timestamp,
    experimentId: string,
    variantId: string,
    runId: string,
    params: map<string, Value>,
    metrics: map<string, Value>,
    dicts: map<string, map<string, Value>>,
    artifacts: map<string, Artifact>)

  /** The variant a run belongs to when the caller names none. */
  const DefaultVariantId: string := "main"

  /** `r` is `m` updated with `upd`, as `dict.update` does: every key of either,
      the new value winning, the old value kept for keys `upd` lacks. */
  ghost predicate Overrides<V>(m: map<string, V>, upd: map<string, V>, r: map<string, V>)
  {
    && r.Keys == m.Keys + upd.Keys
    && (forall k :: k in upd ==> r[k] == upd[k])
    && (forall k :: k in m && k !in upd ==> r[k] == m[k])
  }

  /** `ExperimentRun(experiment_id, variant_id="main", run_id=None,
      timestamp_utc=None)`; `now` is the clock reading used when no timestamp
      is given. */
  function NewRun(experimentId: string, variantId: string := DefaultVariantId, runId: Option<string> := None,
                  timestampUtc: Option<Timestamp> := None, now: Timestamp): (r: Run)
    ensures r.experimentId == experimentId && r.variantId == variantId
    ensures timestampUtc.Some? ==> r.timestampUtc == timestampUtc.value
    ensures timestampUtc.None? ==> r.timestampUtc == now
    ensures runId.Some? ==> r.runId == runId.value
    ensures runId.None? ==> r.runId == RunIdOf(r.timestampUtc)
    ensures r.params == map[] && r.metrics == map[] && r.dicts == map[] && r.artifacts == map[]
  {
    var ts := if timestampUtc.Some? then timestampUtc.value else now;
    var id := if runId.Some? then runId.value else RunIdOf(ts);
    Run(ts, experimentId, variantId, id, map[], map[], map[], map[])
  }

  /** A run created from an experiment id alone is an empty run of variant
      `main`, stamped with the clock reading and named after it. */
  lemma NewRunDefaults(experimentId: string, now: Timestamp)
    ensures NewRun(experimentId, now := now)
            == Run(now, experimentId, "main", RunIdOf(now), map[], map[], map[], map[])
  {
  }

  /** Two runs created without explicit ids get the same id exactly when their
      timestamps fall in the same second, and otherwise the later one sorts
      last. */
  lemma DefaultRunIds(e: string, v: string, t1: Timestamp, t2: Timestamp, now: Timestamp)
    requires Valid(t1) && Valid(t2)
    ensures NewRun(e, v, None, Some(t1), now).runId == NewRun(e, v, None, Some(t2), now).runId
            <==> t1.(microsecond := 0) == t2.(microsecond := 0)
    ensures StringOrder.Le(NewRun(e, v, None, Some(t1), now).runId, NewRun(e, v, None, Some(t2), now).runId)
            <==> SameOrEarlierSecond(t1, t2)
  {
    RunIdCollision(t1, t2);
    RunIdOrderIsChronological(t1, t2);
  }

  function LogParam(run: Run, key: string, value: Value): (r: Run)
    ensures Overrides(run.params, map[key := value], r.params)
    ensures r == run.(params := r.params)
  {
    run.(params := run.params[key := value])
  }

  function LogMetric(run: Run, key: string, value: Value): (r: Run)
    ensures Overrides(run.metrics, map[key := value], r.metrics)
    ensures r == run.(metrics := r.metrics)
  {
    run.(metrics := run.metrics[key := value])
  }

  function LogParams(run: Run, data: map<string, Value>): (r: Run)
    ensures Overrides(run.params, data, r.params)
    ensures r == run.(params := r.params)
  {
    run.(params := run.params + data)
  }

  function LogMetrics(run: Run, data: map<string, Value>): (r: Run)
    ensures Overrides(run.metrics, data, r.metrics)
    ensures r == run.(metrics := r.metrics)
  {
    run.(metrics := run.metrics + data)
  }

  /** Bulk logging of one key is single logging, and two bulk calls are one
      call with the later map winning. */
  lemma LogParamsAgreesWithLogParam(run: Run, key: string, value: Value, a: map<string, Value>, b: map<string, Value>)
    ensures LogParams(run, map[key := value]) == LogParam(run, key, value)
    ensures LogParams(LogParams(run, a), b) == LogParams(run, a + b)
  {
    UpdateSingle(run.params, key, value);
    UpdateAssociative(run.params, a, b);
  }

  /** The same two facts for metrics. */
  lemma LogMetricsAgreesWithLogMetric(run: Run, key: string, value: Value, a: map<string, Value>, b: map<string, Value>)
    ensures LogMetrics(run, map[key := value]) == LogMetric(run, key, value)
    ensures LogMetrics(LogMetrics(run, a), b) == LogMetrics(run, a + b)
  {
    UpdateSingle(run.metrics, key, value);
    UpdateAssociative(run.metrics, a, b);
  }

  /** `log_dict(name, data)`: the named dict is created empty on first use,
      then updated with `data`; every other named dict is left alone. */
  function LogDict(run: Run, name: string, data: map<string, Value>): (r: Run)
    ensures name in r.dicts
    ensures Overrides(if name in run.dicts then run.dicts[name] else map[], data, r.dicts[name])
    ensures r.dicts.Keys == run.dicts.Keys + {name}
    ensures forall n :: n in run.dicts && n != name ==> r.dicts[n] == run.dicts[n]
    ensures r == run.(dicts := r.dicts)
  {
    var current := if name in run.dicts then run.dicts[name] else map[];
    run.(dicts := run.dicts[name := current + data])
  }

  /** Logging into the same dict twice merges: keys from the first call that
      the second does not repeat survive (`{"a":1}` then `{"b":2}` gives
      `{"a":1, "b":2}`), and logging the same data again changes nothing. */
  lemma LogDictMerges(run: Run, name: string, d1: map<string, Value>, d2: map<string, Value>)
    ensures LogDict(LogDict(run, name, d1), name, d2) == LogDict(run, name, d1 + d2)
    ensures LogDict(LogDict(run, name, d1), name, d1) == LogDict(run, name, d1)
  {
    var current := if name in run.dicts then run.dicts[name] else map[];
    var r1 := run.(dicts := run.dicts[name := current + d1]);
    assert LogDict(run, name, d1) == r1;
    UpdateAssociative(current, d1, d2);
    UpdateAssociative(current, d1, d1);
    assert d1 + d1 == d1;
    assert r1.dicts[name := current + d1 + d2] == run.dicts[name := current + (d1 + d2)];
    assert r1.dicts[name := current + d1 + d1] == r1.dicts;
  }

  lemma UpdateSingle<V>(m: map<string, V>, k: string, v: V)
    ensures m + map[k := v] == m[k := v]
  {
  }

  lemma UpdateAssociative<V>(a: map<string, V>, b: map<string, V>, c: map<string, V>)
    ensures a + b + c == a + (b + c)
  {
  }

  /** What `log_artifact` is given: a byte string, or a path on the local file
      system to read. */
  datatype Source = RawBytes(data: seq<byte>) | LocalFile(path: string)

  /** `log_artifact(src, artifact_id, filename, artifact_type)`. `localFiles`
      is the local file system the path is read from. Raw bytes need a
      filename; a path's own basename replaces any filename given. */
  function LogArtifact(run: Run, src: Source, artifactId: string, filename: Option<string> := None,
                       artifactType: ArtifactType := Binary, localFiles: map<string, seq<byte>>): (r: Result<Run>)
    ensures r.Err? <==> (src.RawBytes? && filename.None?) || (src.LocalFile? && src.path !in localFiles)
    ensures r.Err? && src.RawBytes? ==> r.error == MissingFilename
    ensures r.Err? && src.LocalFile? ==> r.error == NotFound(src.path)
    ensures r.Ok? ==> StoredUnder(run, r.value, artifactId)
    ensures r.Ok? ==> var a := r.value.artifacts[artifactId];
              && a.id == artifactId && a.artifactType == artifactType
              && (src.RawBytes? ==> a.filename == filename.value && a.bytes == src.data)
              && (src.LocalFile? ==> a.filename == Basename(src.path) && a.bytes == localFiles[src.path])
  {
    match src
    case RawBytes(data) =>
      if filename.None? then Err(MissingFilename)
      else Ok(run.(artifacts := run.artifacts[artifactId := Artifact(artifactId, filename.value, artifactType, data)]))
    case LocalFile(path) =>
      if path !in localFiles then Err(NotFound(path))
      else Ok(run.(artifacts := run.artifacts[artifactId := Artifact(artifactId, Basename(path), artifactType, localFiles[path])]))
  }

  /** `after` holds an artifact under `id` and otherwise equals `before`:
      other artifacts and every other container are unchanged. */
  ghost predicate StoredUnder(before: Run, after: Run, id: string)
  {
    && id in after.artifacts
    && after.artifacts.Keys == before.artifacts.Keys + {id}
    && (forall k :: k in before.artifacts && k != id ==> after.artifacts[k] == before.artifacts[k])
    && after == before.(artifacts := after.artifacts)
  }

  /** Without a type, `log_artifact` stores BINARY: bytes with a filename are
      stored as given, and a local file under its basename with its contents. */
  lemma LogArtifactDefaultsToBinary(run: Run, id: string, f: string, data: seq<byte>, path: string,
                                    files: map<string, seq<byte>>)
    requires path in files
    ensures LogArtifact(run, RawBytes(data), id, Some(f), localFiles := files)
            == Ok(run.(artifacts := run.artifacts[id := Artifact(id, f, Binary, data)]))
    ensures LogArtifact(run, LocalFile(path), id, localFiles := files)
            == Ok(run.(artifacts := run.artifacts[id := Artifact(id, Basename(path), Binary, files[path])]))
  {
  }

  /** A later `log_artifact` under the same id replaces the earlier artifact,
      whatever its bytes, filename and type were. */
  lemma LogArtifactReplaces(run: Run, id: string, f1: string, f2: string, d1: seq<byte>, d2: seq<byte>,
                            t1: ArtifactType, t2: ArtifactType, files: map<string, seq<byte>>)
    ensures LogArtifact(run, RawBytes(d1), id, Some(f1), t1, files).Ok?
    ensures LogArtifact(LogArtifact(run, RawBytes(d1), id, Some(f1), t1, files).value, RawBytes(d2), id, Some(f2), t2, files)
            == LogArtifact(run, RawBytes(d2), id, Some(f2), t2, files)
  {
    var r1 := LogArtifact(run, RawBytes(d1), id, Some(f1), t1, files).value;
    assert r1.artifacts[id := Artifact(id, f2, t2, d2)] == run.artifacts[id := Artifact(id, f2, t2, d2)];
  }

  /** `log_image(src, artifact_id, filename=None)`: `log_artifact` with the
      filename defaulting to the id and the type forced to PNG. */
  function LogImage(run: Run, src: Source, artifactId: string, filename: Option<string> := None,
                    localFiles: map<string, seq<byte>>): (r: Result<Run>)
    ensures src.RawBytes? ==> r.Ok?
    ensures r.Err? <==> src.LocalFile? && src.path !in localFiles
    ensures r.Ok? ==> StoredUnder(run, r.value, artifactId)
    ensures r.Ok? ==> var a := r.value.artifacts[artifactId];
              && a.id == artifactId && a.artifactType == Png
              && (src.RawBytes? ==> a.filename == (if filename.Some? then filename.value else artifactId))
              && (src.LocalFile? ==> a.filename == Basename(src.path))
              && (src.RawBytes? ==> a.bytes == src.data)
              && (src.LocalFile? ==> a.bytes == localFiles[src.path])
  {
    var name := if filename.Some? then filename.value else artifactId;
    LogArtifact(run, src, artifactId, Some(name), Png, localFiles)
  }

  /** The figure objects `log_figure` inspects, each carrying what its
      library's export produces: the text of `to_json()` for plotly, and the
      PNG bytes `savefig` writes for a matplotlib figure or an axes' figure. */
  datatype Figure =
    | PlotlyFigure(json: string)
    | MatplotlibFigure(png: seq<byte>)
    | MatplotlibAxes(figurePng: seq<byte>)
    | OtherObject

  /** `log_figure(fig, artifact_id)`: plotly figures become `<id>.plotly.json`
      holding the UTF-8 JSON, matplotlib figures and axes become `<id>.png`;
      anything else is rejected. */
  function LogFigure(run: Run, fig: Figure, artifactId: string): (r: Result<Run>)
    ensures r.Err? <==> fig.OtherObject?
    ensures r.Err? ==> r.error == UnsupportedFigure
    ensures r.Ok? ==> StoredUnder(run, r.value, artifactId)
    ensures r.Ok? ==> var a := r.value.artifacts[artifactId];
              && a.id == artifactId
              && (fig.PlotlyFigure? ==>
                    a.filename == artifactId + ".plotly.json" && a.artifactType == PlotlyJson
                    && Utf8Decode(a.bytes) == Some(fig.json))
              && (fig.MatplotlibFigure? ==>
                    a.filename == artifactId + ".png" && a.artifactType == Png && a.bytes == fig.png)
              && (fig.MatplotlibAxes? ==>
                    a.filename == artifactId + ".png" && a.artifactType == Png && a.bytes == fig.figurePng)
  {
    match fig
    case PlotlyFigure(json) =>
      Utf8RoundTrip(json);
      LogArtifact(run, RawBytes(Utf8Encode(json)), artifactId, Some(artifactId + ".plotly.json"), PlotlyJson, map[])
    case MatplotlibFigure(png) =>
      LogArtifact(run, RawBytes(png), artifactId, Some(artifactId + ".png"), Png, map[])
    case MatplotlibAxes(png) =>
      LogArtifact(run, RawBytes(png), artifactId, Some(artifactId + ".png"), Png, map[])
    case OtherObject =>
      Err(UnsupportedFigure)
  }

  /** The argument of `log_text`. */
  datatype TextInput = Chars(s: string) | Octets(data: seq<byte>)

  /** `log_text(text, artifact_id)` as written: a string is stored as its UTF-8
      bytes with filename = artifact_id and type BINARY; a bytes argument
      reaches the final call with `data` never assigned, because the second
      branch tests `isinstance(bytes, str)`, which is always false. */
  function LogText(run: Run, text: TextInput, artifactId: string): (r: Result<Run>)
    ensures r.Err? <==> text.Octets?
    ensures r.Err? ==> r.error == UnboundData
    ensures r.Ok? ==> StoredUnder(run, r.value, artifactId)
    ensures r.Ok? ==> var a := r.value.artifacts[artifactId];
              && a == Artifact(artifactId, artifactId, Binary, a.bytes)
              && Utf8Decode(a.bytes) == Some(text.s)
  {
    match text
    case Chars(s) =>
      Utf8RoundTrip(s);
      LogArtifact(run, RawBytes(Utf8Encode(s)), artifactId, Some(artifactId), Binary, map[])
    case Octets(_) =>
      Err(UnboundData)
  }

  /** A bytes argument to `log_text` always fails, whatever the run and id. */
  lemma LogTextRejectsBytes(run: Run, data: seq<byte>, artifactId: string)
    ensures LogText(run, Octets(data), artifactId) == Err(UnboundData)
  {
  }

  /** `log_text` with the type test the code evidently means,
      `isinstance(text, bytes)`: bytes are stored as they are. */
  function LogTextIntended(run: Run, text: TextInput, artifactId: string): (r: Result<Run>)
    ensures r.Ok?
    ensures StoredUnder(run, r.value, artifactId)
    ensures var a := r.value.artifacts[artifactId];
              && a.id == artifactId && a.filename == artifactId && a.artifactType == Binary
              && (text.Chars? ==> Utf8Decode(a.bytes) == Some(text.s))
              && (text.Octets? ==> a.bytes == text.data)
  {
    assert text.Chars? ==> Utf8Decode(Utf8Encode(text.s)) == Some(text.s) by {
      if text.Chars? {
        Utf8RoundTrip(text.s);
      }
    }
    var data := if text.Chars? then Utf8Encode(text.s) else text.data;
    LogArtifact(run, RawBytes(data), artifactId, Some(artifactId), Binary, map[])
  }

  /** On text the corrected `log_text` and the written one agree. */
  lemma LogTextIntendedAgreesOnText(run: Run, s: string, artifactId: string)
    ensures LogTextIntended(run, Chars(s), artifactId) == LogText(run, Chars(s), artifactId)
  {
  }
}
