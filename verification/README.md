# experiment-results-manager in Dafny

A model of the core of `experiment_results_manager`, a small library for
tracking machine-learning experiments. Its parts:

- **Runs.** An *experiment run* is identified by an experiment id, a variant
  id (default `main`) and a run id. The run id defaults to the run's UTC
  timestamp written `YYYY_MM_DD__HH_MM_SS`. A run collects params, metrics,
  named dicts and artifacts through its `log_*` calls.
- **Registry.** Runs are saved to a *registry*, a directory tree
  `<registry>/<experiment>/<variant>/<run>/`. Marker files
  (`.erm_registry.json`, `.erm_experiment.json`, `.erm_variant.json`) let the
  listing functions find experiments, variants and runs again. A run directory
  holds `erm_metadata.json` (everything but artifact payloads) and one file per
  artifact under `artifacts/`.
- **Comparison page.** `compare_runs` lays several runs side by side on one
  HTML page: the run table, params and metrics tables, and per artifact key a
  section showing plotly figures, inlined PNG/JPG images, or nothing.

Modules, one per source file plus the library facilities the source relies
on:

| module | file | models |
|---|---|---|
| `ExperimentRuns` | experiment_run.dfy | `ExperimentRun` and its logging calls, as pure transitions `Run -> Run` or `Run -> Result<Run>` |
| `Registry` | registry.dfy | marker names, `remove_scheme_if_exists`, the three listing functions, `get_latest_run_for_variant` |
| `Serde` | serde.dfy | metadata, save/load to a path, save/load through a registry; the file system is a `map<string, seq<byte>>` |
| `HtmlUtil` | html_util.dfy | `dicts_to_html_table` and `timestamps_to_html_table` as rendered tables, with a parser that reads them back |
| `RenderHtml` | render_html.dfy | the loop-by-loop `dicts_to_html_table` of render_html.py, as a method proved equal to the table model |
| `CompareRuns` | compare_runs.dfy | `compare_runs` |
| `Artifacts` | artifact.dfy | `Artifact`, its metadata-only projection, the artifact type enum, param/metric values |
| `Paths`, `Strings`, `StringOrder`, `Decimal`, `Timestamps`, `Bytes`, `Base64`, `Outcomes` | | `posixpath.join`/`basename`, Python slicing and `split`, Python string order and `sorted`, `str(int)`, `str(datetime)` and `strftime`, UTF-8, base64 per section 4 of RFC 4648, Option/Result and the exceptions raised |

Exceptions become `Err` values of `Outcomes.Result`. A call that raises after
writing files (saving into a registry writes the markers before the overwrite
check) returns both the file system after the writes and the error
(`Serde.Saved`).

Python dict and set iteration order is not fixed by the language. So every
loop over a dict or set takes the order as a parameter, and the precondition
`Enumerates` says the order lists each element exactly once. `compare_runs`
sorts artifact keys explicitly, so the model computes that order
(`StringOrder.SortedSet`).

## Model

| member | source | states |
|---|---|---|
| ExperimentRuns.NewRun | experiment_results_manager/experiment_run.py:23-45 | the timestamp is the given one, else the clock reading; the run id is the given one, else the timestamp formatted `%Y_%m_%d__%H_%M_%S`; the experiment and variant ids are kept, the variant defaulting to `main`; params, metrics, dicts and artifacts start empty |
| ExperimentRuns.NewRunDefaults | experiment_results_manager/experiment_run.py:23-45 | a run created from an experiment id alone belongs to variant `main`, carries the clock reading as timestamp and that reading's formatted id, and is empty |
| ExperimentRuns.DefaultRunIds | experiment_results_manager/experiment_run.py:35-36 | two runs given no run id get the same id exactly when their timestamps agree to the second, and their ids sort in the order of their timestamps truncated to seconds |
| ExperimentRuns.LogParam | experiment_results_manager/experiment_run.py:47-48 | params become the old params with `key` mapped to `value`, every other key kept; nothing else in the run changes |
| ExperimentRuns.LogMetric | experiment_results_manager/experiment_run.py:50-51 | the same for metrics |
| ExperimentRuns.LogParams | experiment_results_manager/experiment_run.py:124-125 | params are updated as `dict.update` does: keys of either, new values win, old values kept for keys not given; the rest of the run is unchanged |
| ExperimentRuns.LogMetrics | experiment_results_manager/experiment_run.py:121-122 | the same for metrics |
| ExperimentRuns.LogParamsAgreesWithLogParam | experiment_results_manager/experiment_run.py:47-48 | logging a one-entry dict equals `log_param`; two `log_params` calls equal one call with the merged dict |
| ExperimentRuns.LogMetricsAgreesWithLogMetric | experiment_results_manager/experiment_run.py:50-51 | logging a one-entry dict equals `log_metric`; two `log_metrics` calls equal one call with the merged dict |
| ExperimentRuns.LogDict | experiment_results_manager/experiment_run.py:76-79 | the named dict exists afterwards and is the previous one (or empty) updated with the data; other named dicts and the rest of the run are unchanged |
| ExperimentRuns.LogDictMerges | experiment_results_manager/experiment_run.py:76-79 | two calls on one name equal one call with the merged data, and repeating a call changes nothing |
| ExperimentRuns.LogArtifact | experiment_results_manager/experiment_run.py:53-74 | with the filename defaulting to none and the type to BINARY: fails exactly when raw bytes come without a filename (missing-filename error) or the local file is absent (not found); otherwise stores under the id an artifact with that id and type, holding the given bytes and filename or the file's contents and base name; other artifacts and containers unchanged |
| ExperimentRuns.LogArtifactDefaultsToBinary | experiment_results_manager/experiment_run.py:53-74 | given no type, bytes with a filename are stored as a BINARY artifact with that filename and those bytes, and a local file as a BINARY artifact with its base name and contents |
| ExperimentRuns.LogArtifactReplaces | experiment_results_manager/experiment_run.py:60-74 | bytes with a filename are always accepted, and a later call under the same id replaces the earlier artifact entirely |
| ExperimentRuns.LogImage | experiment_results_manager/experiment_run.py:106-119 | raw bytes never fail (the filename defaults to the id); a missing local file is the only failure; the stored artifact is PNG with the given or default filename and the given bytes, or the file's base name and contents |
| ExperimentRuns.LogFigure | experiment_results_manager/experiment_run.py:81-104 | fails exactly for an object that is neither a plotly figure, a matplotlib figure nor axes; a plotly figure becomes `<id>.plotly.json` holding its JSON as UTF-8; a matplotlib figure or axes becomes the PNG `<id>.png` holding the rendered bytes |
| ExperimentRuns.LogText | experiment_results_manager/experiment_run.py:127-133 | as written: text is stored as its UTF-8 bytes under filename = id with BINARY type; bytes input always fails |
| ExperimentRuns.LogTextRejectsBytes | experiment_results_manager/experiment_run.py:130-133 | as written, passing bytes raises for every input |
| ExperimentRuns.LogTextIntended | experiment_results_manager/experiment_run.py:127-133 | corrected: never fails; text is stored as UTF-8 and bytes are stored as given, BINARY, filename = id |
| ExperimentRuns.LogTextIntendedAgreesOnText | experiment_results_manager/experiment_run.py:128-129 | on text input the corrected and as-written versions give the same run |
| Registry.RemoveSchemeIfExists | experiment_results_manager/registry.py:13-22 | a URI without `://` is returned unchanged; otherwise the result is what follows the first `://` |
| Registry.RemoveSchemeBelow | experiment_results_manager/registry.py:13-18 | stripping the scheme from a path below a prefix strips it from the prefix and keeps the tail |
| Registry.ExtractId | experiment_results_manager/registry.py:49-51 | for a path of the form `<prefix>/<id>/<marker>` the slice recovers `id` |
| Registry.ListIds | experiment_results_manager/registry.py:47-52 | one id per globbed path, in glob order; each path of the expected shape yields the segment between prefix and marker |
| Registry.ListExperiments | experiment_results_manager/registry.py:25-53 | the same, for experiment marker files under the registry |
| Registry.ListVariants | experiment_results_manager/registry.py:56-91 | the same, for variant marker files under `<registry>/<experiment>` |
| Registry.ListRuns | experiment_results_manager/registry.py:94-134 | the same, for run metadata files under `<registry>/<experiment>/<variant>` |
| Registry.ListedExperimentIsFound | experiment_results_manager/registry.py:43-53 | for a registry URI that is not empty and does not end in a slash, a globbed path that is the marker file of experiment `e` (scheme aside) lists as `e` |
| Registry.ListedExperimentLosesFirstLetter | experiment_results_manager/registry.py:43-53 | for an empty registry URI or one ending in a slash, the marker file of experiment `e` lists as `e` without its first letter |
| Registry.TrailingSlashListsXp | experiment_results_manager/registry.py:43-53 | the registry `s3://bucket/reg/` writes experiment `exp`'s marker at `s3://bucket/reg/exp/.erm_experiment.json`; given the glob's scheme-less match `bucket/reg/exp/.erm_experiment.json`, the listing is `["xp"]` |
| Registry.ListedExperimentIsFoundIntended | experiment_results_manager/registry.py:43-53 | with each id cut right after the registry directory `join` writes, the marker file of experiment `e` lists as `e` for every registry URI |
| Registry.ListExperimentsIntendedAgrees | experiment_results_manager/registry.py:43-53 | for a registry URI that is not empty and does not end in a slash, the corrected listing equals the written one |
| Registry.RemoveSchemeDir | experiment_results_manager/registry.py:13-22 | stripping the scheme and adding `join`'s directory slash can be done in either order |
| Registry.ListedVariantIsFound | experiment_results_manager/registry.py:77-91 | a globbed path that is the marker file of variant `v` lists as `v` |
| Registry.ListedRunIsFound | experiment_results_manager/registry.py:118-134 | a globbed path that is the metadata file of run `r`, where a save writes it, lists as `r` |
| Registry.GetLatestRunForVariant | experiment_results_manager/registry.py:137-161 | fails (IndexError) exactly when no run is listed; otherwise returns a listed run id that no other listed id sorts after |
| Registry.LatestRunIsNewest | experiment_results_manager/registry.py:159-161 | when every listed id is a default timestamp id, the latest run is the one with the newest timestamp, to the second |
| Serde.MetadataOf | experiment_results_manager/serde.py:120-141 | the metadata has the run's artifact keys, each mapped to the artifact without its bytes |
| Serde.RunOfMetadataOf | experiment_results_manager/serde.py:209-224 | rebuilding a run from its metadata and its artifacts gives the run back |
| Serde.WriteArtifacts | experiment_results_manager/serde.py:146-151 | writing artifact files only adds or overwrites paths |
| Serde.WriteArtifactsFrame | experiment_results_manager/serde.py:146-151 | a path no artifact's file lands on is present afterwards exactly when before, with the same contents |
| Serde.WriteArtifactsLastWins | experiment_results_manager/serde.py:147-151 | the file of an artifact that no later artifact overwrites holds that artifact's bytes |
| Serde.SaveRunToPath | experiment_results_manager/serde.py:90-152 | fails (already exists, nothing written) exactly when the metadata file exists and overwrite is off; otherwise every old path survives and the metadata file is present |
| Serde.SaveRunToPathFrame | experiment_results_manager/serde.py:114-151 | a save touches only the metadata file and the artifact files |
| Serde.SaveRunToPathWritesMetadata | experiment_results_manager/serde.py:143-144 | after a successful save, the metadata file holds the UTF-8 JSON of the run's metadata |
| Serde.SaveRunToPathWritesArtifacts | experiment_results_manager/serde.py:146-151 | after a successful save with distinct filenames, each artifact's file holds its bytes |
| Serde.ReadArtifacts | experiment_results_manager/serde.py:205-211 | succeeds exactly when every listed artifact's file exists (else not found, naming a missing path); the result has the listed keys, each the metadata entry with the file's bytes |
| Serde.LoadRunFromPath | experiment_results_manager/serde.py:191-224 | a missing metadata file is not found, undecodable bytes are malformed; a loaded run is the metadata with every artifact's bytes read from its file |
| Serde.LoadRunFromPathSteps | experiment_results_manager/serde.py:200-224 | when decoding, parsing and every artifact read succeed, loading returns the run rebuilt from them |
| Serde.SaveLoadRoundTrip | experiment_results_manager/serde.py:90-224 | with a lossless JSON codec and distinct artifact filenames, a save succeeds and loading from the same path returns the run unchanged |
| Serde.PutIfAbsent | experiment_results_manager/serde.py:55-59 | the path is present afterwards, existing files are untouched, and an absent path now holds the data |
| Serde.WriteMarkers | experiment_results_manager/serde.py:53-81 | adds exactly the three marker paths, never changes an existing file, and writes each missing marker's JSON |
| Serde.WriteMarkersIdempotent | experiment_results_manager/serde.py:53-81 | writing the markers again, at any later time, changes nothing |
| Serde.SaveRunToRegistry | experiment_results_manager/serde.py:30-87 | fails exactly when the run's metadata file exists and overwrite is off; the markers are present either way; on success returns `<registry>/<experiment>/<variant>/<run>` and the store is the markers followed by the path save |
| Serde.LoadRunFromRegistry | experiment_results_manager/serde.py:155-188 | with a run id, loads that run's path; without one, fails when nothing is listed, else loads the latest listed run id; the variant defaults to `main` |
| Serde.LoadRunFromRegistryDefaults | experiment_results_manager/serde.py:155-188 | given only an experiment id, fails when nothing is listed and otherwise loads the latest listed run of variant `main` |
| Serde.RegistryRoundTrip | experiment_results_manager/serde.py:30-188 | a run saved to a registry loads back unchanged under its own experiment, variant and run ids |
| HtmlUtil.UnionKeys | experiment_results_manager/html_util.py:11-13 | a key is in the union exactly when some dict has it |
| HtmlUtil.TableRoundTrip | experiment_results_manager/html_util.py:15-30 | the `<table>/<tr>/<th>/<td>` text the library writes parses back to the same header and rows when no cell contains `<` |
| HtmlUtil.RenderTableInjective | experiment_results_manager/html_util.py:15-30 | two such tables that render to the same text are the same table |
| HtmlUtil.DictsTableDescribes | experiment_results_manager/html_util.py:9-32 | the dicts table has a column `<model> <n>` per dict, one row per key of any dict (each once), and in each cell that dict's value for the key or nothing |
| HtmlUtil.DictsToHtmlTable | experiment_results_manager/html_util.py:9-32 | `dicts_to_html_table(data, model_name="")`: when keys, model name and values hold no `<`, the text reads back as a table with one `<model> <n>` column per dict, one row per key of any dict (each key once), and in each cell that dict's value for the key or empty text |
| HtmlUtil.DictsTableReadsBack | experiment_results_manager/html_util.py:9-32 | the HTML `dicts_to_html_table` writes parses back to such a table |
| HtmlUtil.TimestampsToHtmlTable | experiment_results_manager/html_util.py:35-51 | fails with IndexError exactly when a companion list is shorter than the experiment ids |
| HtmlUtil.TimestampsTableDescribes | experiment_results_manager/html_util.py:35-51 | the run table has the four fixed headings and, per experiment id `i`, the row `Run <i+1>` with that run's ids and timestamp text |
| HtmlUtil.TimestampsTableReadsBack | experiment_results_manager/html_util.py:35-51 | the HTML `timestamps_to_html_table` writes parses back to that table, timestamps included |
| RenderHtml.CollectKeys | experiment_results_manager/render_html.py:10-12 | the loop collects exactly the keys some dict has |
| RenderHtml.HeaderCells | experiment_results_manager/render_html.py:15-18 | the loop writes one `<th>` cell per dict, in order, headed `<model> <n>` |
| RenderHtml.DataRow | experiment_results_manager/render_html.py:22-26 | the loop writes the row of a key: its title cell and then each dict's value or empty text |
| RenderHtml.DataRows | experiment_results_manager/render_html.py:21-26 | the loop writes one such row per key, in iteration order |
| RenderHtml.DictsToHtmlTable | experiment_results_manager/render_html.py:8-31 | with `model_name` defaulting to empty text, the string-building loops write exactly the rendered dicts table (`HtmlUtil.DictsTableReadsBack` states its content) |
| CompareRuns.ArtifactKeys | experiment_results_manager/compare_runs.py:51-55 | the artifact keys of all runs, each once, in ascending order |
| CompareRuns.RunsWith | experiment_results_manager/compare_runs.py:60-61 | the indices of the runs having a key, in run order |
| CompareRuns.RenderArtifact | experiment_results_manager/compare_runs.py:63-79 | a plotly artifact fails exactly when its bytes are not UTF-8 or not a figure, and otherwise is the figure's fragment; PNG and JPG become `<img src="data:image/png;base64,...">` (or `jpg`) tags carrying the base64 of the artifact's bytes; HTML and BINARY add nothing |
| CompareRuns.ImageTagReadsBack | experiment_results_manager/compare_runs.py:70-79 | the data URI of an image tag decodes to the image's bytes |
| CompareRuns.Entries | experiment_results_manager/compare_runs.py:60-79 | the entries for one key fail exactly when some listed run's artifact is a bad figure, and report a figure exactly when some listed artifact is plotly; otherwise the text is, run by run in the listed order, `<h4>Run {i+1}</h4>` followed by what that run's artifact renders to |
| CompareRuns.Section | experiment_results_manager/compare_runs.py:58-79 | a key's section fails exactly when a run holds a bad figure under it, and reports a figure exactly when a run holds one; otherwise its text is `<h3>key</h3>` followed by the entries of exactly the runs holding the key, in run order |
| CompareRuns.Sections | experiment_results_manager/compare_runs.py:58-79 | the same over a list of keys; the text is the keys' section texts one after another, in the list's order |
| CompareRuns.SectionsCoverFigures | experiment_results_manager/compare_runs.py:57-66 | some run holds a plotly artifact exactly when some sorted key's section reports one |
| CompareRuns.SectionsCoverBadFigures | experiment_results_manager/compare_runs.py:57-66 | some run holds an undrawable figure exactly when some sorted key's section fails |
| CompareRuns.ArtifactSections | experiment_results_manager/compare_runs.py:51-79 | the artifacts part fails exactly when some run holds a bad figure, and otherwise reports whether any run holds a figure; its text is the sections of the sorted artifact keys one after another |
| CompareRuns.RunTable | experiment_results_manager/compare_runs.py:39-44 | the run table of the runs' own parallel lists never fails |
| CompareRuns.Page | experiment_results_manager/compare_runs.py:81-95 | the page is wrapped in `<html><body>`...`</body></html>`; the plotly loader comes first exactly when a figure was drawn, and the style sheet follows it exactly when CSS was requested |
| CompareRuns.CompareRuns | experiment_results_manager/compare_runs.py:15-95 | fails exactly when some run holds an undrawable plotly artifact; otherwise a framed page that starts with the plotly loader exactly when some run holds a plotly figure, with the style sheet next exactly when `inject_css` is set |
| CompareRuns.CompareRunsLayout | experiment_results_manager/compare_runs.py:30-95 | when no figure is undrawable, the page is, in order: the plotly loader exactly when some run holds a figure, the style sheet exactly when requested, the run table, `<h2>Params</h2>` and the params table, `<h2>Metrics</h2>` and the metrics table, `<h2>Artifacts</h2>` and the section texts of the sorted artifact keys, all inside `<html><body>`...`</body></html>` |
| Base64.Base64RoundTrip | experiment_results_manager/compare_runs.py:71-73 | the base64 text of any bytes decodes back to them |
| Bytes.Utf8RoundTrip | experiment_results_manager/experiment_run.py:128-129 | the UTF-8 encoding of any string decodes back to it |
| Timestamps.TimestampStringRoundTrip | experiment_results_manager/html_util.py:47-48 | `str(datetime)` of a valid timestamp parses back to the timestamp, with or without microseconds |
| Timestamps.RunIdOrderIsChronological | experiment_results_manager/experiment_run.py:35-36 | default run ids sort as their timestamps do, to the second |
| Timestamps.RunIdCollision | experiment_results_manager/experiment_run.py:35-36 | default run ids coincide exactly when the timestamps agree to the second |
| Decimal.IntToStringRoundTrip | experiment_results_manager/html_util.py:24-26 | the decimal text of an integer value parses back to it |
| Paths.Join | experiment_results_manager/serde.py:83-85 | `posixpath.join`: an absolute second part replaces the first; otherwise it is appended after a `/` unless the first is empty or ends in one |
| Paths.Basename | experiment_results_manager/experiment_run.py:71 | the base name contains no `/`, ends the path, and follows a `/` or is the whole path |
| Strings.SplitOnce | experiment_results_manager/registry.py:14-18 | `split(sep, 1)` gives two parts exactly when the separator occurs, joined by it and the first free of it, else the string itself |
| Strings.PySliceBetween | experiment_results_manager/registry.py:49-51 | slicing `[len(prefix) : -len(suffix)]` of `prefix + middle + suffix` gives `middle` |
| StringOrder.SortedSet | experiment_results_manager/compare_runs.py:54-55 | `sorted(set)`: the set's elements, each once, strictly ascending |
| StringOrder.Max | experiment_results_manager/registry.py:160-161 | the last element after sorting is a member that no member sorts after |

## Left out

- File I/O goes through a map from path to bytes, which is passed in and returned. Directory creation (`makedirs`) and fsspec's choice of file system from the URI scheme are not modelled. Existence checks and writes use the same map, even where the source builds a second file-system object.
- Clock readings (`datetime.utcnow()`) are a `now` parameter. A registry save uses one reading for all three marker files, while the source reads the clock once per marker.
- The three glob calls of the listing functions are not modelled. Their matches are an input sequence in glob order.
- JSON serialisation, pydantic validation and `json.dumps` of markers are a caller-supplied `Serde.Codec`. The round-trip lemmas assume the codec is lossless for metadata (`Serde.Lossless`). They do not prove it: that depends on pydantic and on timestamp precision.
- Float formatting (`str(float)`) is a caller-supplied function on the IEEE-754 bit pattern. Floats are never computed with.
- Plotly's `from_json(...).to_html(...)` and `get_plotlyjs()` are the `CompareRuns.Plotly` parameter. matplotlib's `savefig` output is the byte payload carried by the `Figure` value.
- The success message printed at the end of `save_run_to_path` is not modelled.
- Loading reads artifact files in sorted key order, while the source follows the metadata dict's order. A successful result does not depend on the order. When several files are missing, the path named in the NotFound error may differ.
- HTML escaping: the source inserts keys and values verbatim. The read-back lemmas therefore require text without `<`.
- `artifact.py` disagrees with its call sites. The dataclass declares `bytes` before `artifact_type`, and its enum has no `PNG`/`JPG` members. The model follows the call sites and uses one enum with every member the library names, with `IMAGE_PNG` as `Png`. As written, `compare_runs` would raise an AttributeError on any non-plotly artifact, because it refers to `ArtifactType.PNG`.
- `compare_runs` has nothing further to model for the following, because the code does none of it:
  - it adds no size summary for BINARY artifacts; they add nothing to the page;
  - it does not sort param and metric rows; they follow set iteration order;
  - it does not skip empty tables;
  - it does not render named dicts.
- `Registry.RemoveSchemeIfExists`: the ValueError branch is not modelled. `split("://", 1)` never yields more than two parts, so that branch cannot be reached.
- Registry.ListedExperimentIsFound: requires a registry URI that is not empty and does not end in a slash. For the other URIs the listing as written drops the first letter of each id (see Findings); `Registry.ListedExperimentIsFoundIntended` covers every URI for the corrected listing.
- CompareRuns.RenderArtifact: a plotly figure's fragment is a function of its JSON alone. `to_html` is called without `div_id`, so plotly writes a fresh random `uuid4` into each fragment's `<div id=...>`. Two equal figures therefore render to different text in the source, and the same text in the model.
- CompareRuns.CompareRunsLayout: the page is stated as a function of the runs. Because of the random div ids above, the source's page is not: it differs from call to call wherever a plotly figure is drawn.
- Bytes.Utf8RoundTrip: a Dafny `char` cannot be a lone surrogate, while a Python `str` can. `text.encode("utf-8")` raises UnicodeEncodeError on one. The round trip, and the claim that `ExperimentRuns.LogTextIntended` never fails, cover only strings without lone surrogates.
- CompareRuns.CompareRuns: the contract states the error cases, the frame, and where the plotly loader and style sheet go. The order of the page's parts is stated by `CompareRuns.CompareRunsLayout`. The content of the run, params and metrics tables is stated by `HtmlUtil.TimestampsTableReadsBack` and `HtmlUtil.DictsTableReadsBack` about the functions the page is built from.
- Serde.SaveLoadRoundTrip: holds for a store keyed by path strings, which is what `Serde.Store` is. A real file system resolves `.` and `..`, cannot hold both a file `a` and a file `a/b`, and rejects an empty name. So there the round trip also needs every artifact filename to be a plain segment other than `.` and `..`. Distinct filenames such as `a` and `./a` would name one file, and `../erm_metadata.json` would overwrite the metadata.
- Serde.RegistryRoundTrip: the same store-key limitation.
- Timestamps.RunIdOrderIsChronological: the run id writes `%Y` as four zero-padded digits. Some C libraries that CPython hands `%Y` to, glibc among them, write years below 1000 without padding. For such years the real run id differs and does not sort chronologically, so the lemma is not claimed for them. It is also claimed only for naive timestamps (see the `Timestamps.Timestamp` line).
- Timestamps.RunIdCollision: the same for years below 1000.
- Timestamps.Timestamp: only naive timestamps are modelled; the record has no time zone. `ExperimentRun` stores whatever `datetime` its caller passes. For an aware one, `str()` ends in an offset such as `+00:00`, which `Timestamps.TimestampToString` never writes, so `Timestamps.TimestampStringRoundTrip` and `HtmlUtil.TimestampsTableDescribes` do not cover it. `strftime` also formats the local fields, so for aware timestamps with different offsets the run ids follow local time, not UTC. `Timestamps.RunIdOrderIsChronological`, `ExperimentRuns.DefaultRunIds` and `Registry.LatestRunIsNewest` are claimed only for naive timestamps, or ones that share one offset.
- ExperimentRuns.DefaultRunIds: the same for years below 1000, and claimed only for naive timestamps (see the `Timestamps.Timestamp` line).
- Registry.LatestRunIsNewest: the same for years below 1000, and claimed only for naive timestamps (see the `Timestamps.Timestamp` line).

## Findings

| source | as written | input that shows it | evidently intended | confidence | as-written member | corrected member |
|---|---|---|---|---|---|---|
| experiment_results_manager/experiment_run.py:127-133 | the bytes branch tests `isinstance(bytes, str)` (the type object, always false), so `data` is never bound and `log_artifact` raises UnboundLocalError | `log_text(b"abc", "notes")` | bytes are stored as given, BINARY, filename = artifact id | high; not executed | ExperimentRuns.LogTextRejectsBytes | ExperimentRuns.LogTextIntended |
| experiment_results_manager/registry.py:43-53 | each experiment id is cut from index `len(registry_uri_without_scheme) + 1`, but for a registry URI that is empty or ends in `/`, `posixpath.join` adds no slash, so the cut falls one character into the id | `list_experiments("s3://bucket/reg/")` over the experiment `exp`: the glob matches `bucket/reg/exp/.erm_experiment.json`, the cut starts at index 12 instead of 11, and the result is `["xp"]` | ids are cut right after the registry directory as `join` writes it, as `list_variants` and `list_runs` do by measuring the joined prefix | medium; not executed | Registry.TrailingSlashListsXp | Registry.ListedExperimentIsFoundIntended |
