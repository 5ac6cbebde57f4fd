/** The registry's path scheme and discovery. A registry is a directory tree
    `<root>/<experiment>/<variant>/<run>` on a blob store, with a marker file
    at each level; listing globs for the markers one kind at a time and cuts
    the ids back out of the matched paths. The glob itself belongs to the
    store, so each listing takes the paths it returned. */
module Registry {
  import opened Outcomes
  import opened Strings
  import opened StringOrder
  import opened Paths
  import opened Timestamps

  const RegistryFileName: string := ".erm_registry.json"
  const ExperimentFileName: string := ".erm_experiment.json"
  const VariantFileName: string := ".erm_variant.json"
  const RunMetadataFileName: string := "erm_metadata.json"

  const SchemeSeparator: string := "://"

  /** `remove_scheme_if_exists(uri)`: the text after the first `://`, or the
      URI itself. The ValueError branch for more than two parts cannot be
      taken: a split with at most one cut yields one or two parts. */
  function RemoveSchemeIfExists(uri: string): (r: string)
    ensures !Contains(uri, SchemeSeparator) ==> r == uri
    ensures Contains(uri, SchemeSeparator) ==>
              exists scheme :: uri == scheme + SchemeSeparator + r && !Contains(scheme, SchemeSeparator)
  {
    var parts := SplitOnce(uri, SchemeSeparator);
    if |parts| == 2 then parts[1]
    else
      assert |parts| == 1;
      uri
  }

  /** The directories of each level, as `posixpath.join` spells them. */
  function ExperimentPath(root: string, experimentId: string): string
  {
    Join(root, experimentId)
  }

  function VariantPath(root: string, experimentId: string, variantId: string): string
  {
    Join(ExperimentPath(root, experimentId), variantId)
  }

  function RunPath(root: string, experimentId: string, variantId: string, runId: string): string
  {
    Join(VariantPath(root, experimentId, variantId), runId)
  }

  function RegistryMarkerPath(root: string): string
  {
    Join(root, RegistryFileName)
  }

  function ExperimentMarkerPath(root: string, experimentId: string): string
  {
    Join(ExperimentPath(root, experimentId), ExperimentFileName)
  }

  function VariantMarkerPath(root: string, experimentId: string, variantId: string): string
  {
    Join(VariantPath(root, experimentId, variantId), VariantFileName)
  }

  function RunMetadataPath(runPath: string): string
  {
    Join(runPath, RunMetadataFileName)
  }

  /** A listed path has the shape `<prefix>/<id>/<marker>` once schemes are
      stripped from both. */
  predicate MarkerPathUnder(prefixNoScheme: string, marker: string, path: string)
  {
    var p := RemoveSchemeIfExists(path);
    && |p| >= |prefixNoScheme| + |marker| + 2
    && p[..|prefixNoScheme| + 1] == prefixNoScheme + "/"
    && p[|p| - |marker| - 1..] == "/" + marker
  }

  /** The id cut out of one listed path:
      `path[len(prefix) + 1 : -len(marker) - 1]` after stripping the scheme. */
  function ExtractId(prefixNoScheme: string, marker: string, path: string): (id: string)
    ensures MarkerPathUnder(prefixNoScheme, marker, path) ==>
              RemoveSchemeIfExists(path) == prefixNoScheme + "/" + id + "/" + marker
  {
    var p := RemoveSchemeIfExists(path);
    var id := PySlice(p, |prefixNoScheme| + 1, -|marker| - 1);
    assert MarkerPathUnder(prefixNoScheme, marker, path) ==> p == prefixNoScheme + "/" + id + "/" + marker by {
      if MarkerPathUnder(prefixNoScheme, marker, path) {
        var mid := p[|prefixNoScheme| + 1..|p| - |marker| - 1];
        assert p == (prefixNoScheme + "/") + mid + ("/" + marker);
        PySliceBetween(prefixNoScheme + "/", mid, "/" + marker);
      }
    }
    id
  }

  /** `ids` holds one entry per listed path, and the entry of each path of the
      shape `<prefix>/<id>/<marker>` is that `id`. */
  predicate CutsIds(prefixUri: string, marker: string, paths: seq<string>, ids: seq<string>)
  {
    && |ids| == |paths|
    && forall i :: 0 <= i < |paths| && MarkerPathUnder(RemoveSchemeIfExists(prefixUri), marker, paths[i]) ==>
         RemoveSchemeIfExists(paths[i]) == RemoveSchemeIfExists(prefixUri) + "/" + ids[i] + "/" + marker
  }

  /** One id per listed path, in the order the glob returned them. */
  function ListIds(prefixUri: string, marker: string, paths: seq<string>): (ids: seq<string>)
    ensures CutsIds(prefixUri, marker, paths, ids)
  {
    var prefix := RemoveSchemeIfExists(prefixUri);
    seq(|paths|, i requires 0 <= i < |paths| => ExtractId(prefix, marker, paths[i]))
  }

  /** `list_experiments(registry_uri)` given the paths the glob
      `<root>/**/.erm_experiment.json` matched. */
  function ListExperiments(root: string, paths: seq<string>): (ids: seq<string>)
    ensures CutsIds(root, ExperimentFileName, paths, ids)
  {
    ListIds(root, ExperimentFileName, paths)
  }

  /** `list_variants(registry_uri, experiment_id)` given the paths the glob
      `<root>/<experiment>/**/.erm_variant.json` matched. */
  function ListVariants(root: string, experimentId: string, paths: seq<string>): (ids: seq<string>)
    ensures CutsIds(ExperimentPath(root, experimentId), VariantFileName, paths, ids)
  {
    ListIds(ExperimentPath(root, experimentId), VariantFileName, paths)
  }

  /** `list_runs(registry_uri, experiment_id, variant_id)` given the paths the
      glob `<root>/<experiment>/<variant>/**/erm_metadata.json` matched. */
  function ListRuns(root: string, experimentId: string, variantId: string, paths: seq<string>): (ids: seq<string>)
    ensures CutsIds(VariantPath(root, experimentId, variantId), RunMetadataFileName, paths, ids)
  {
    ListIds(VariantPath(root, experimentId, variantId), RunMetadataFileName, paths)
  }

  /** `get_latest_run_for_variant`: the last of the sorted run ids, that is a
      listed id no other listed id exceeds; IndexError when there is none. */
  function GetLatestRunForVariant(root: string, experimentId: string, variantId: string, paths: seq<string>): (r: Result<string>)
    ensures r.Err? <==> paths == []
    ensures r.Err? ==> r.error == NoRuns
    ensures r.Ok? ==> var runs := ListRuns(root, experimentId, variantId, paths);
              r.value in runs && forall x :: x in runs ==> Le(x, r.value)
  {
    var runs := ListRuns(root, experimentId, variantId, paths);
    if runs == [] then Err(NoRuns) else Ok(Max(runs))
  }

  /** No two adjacent slashes from the last character of `u` on, when `u`
      does not end in a slash and plain text follows it. */
  lemma NoDoubleSlashAfter(u: string, id: string, name: string)
    requires !EndsWithSlash(u) && PlainSegment(id) && '/' !in name
    ensures forall k :: 0 <= k && |u| - 1 <= k && k + 1 < |u + ("/" + id + "/" + name)| ==>
              (u + ("/" + id + "/" + name))[k] != '/' || (u + ("/" + id + "/" + name))[k + 1] != '/'
  {
    var s := u + ("/" + id + "/" + name);
    forall k | 0 <= k && |u| - 1 <= k && k + 1 < |s|
      ensures s[k] != '/' || s[k + 1] != '/'
    {
      if k == |u| - 1 {
        assert s[k] == u[|u| - 1];
      } else if k == |u| {
        assert s[k + 1] == id[0];
      } else if k <= |u| + |id| {
        assert s[k] == id[k - |u| - 1];
      } else if k == |u| + |id| + 1 {
        assert s[k + 1] == name[0];
      } else {
        assert s[k] == name[k - |u| - |id| - 2];
      }
    }
  }

  /** Stripping the scheme of a path below `u` strips it from `u` alone. */
  lemma RemoveSchemeBelow(u: string, id: string, name: string)
    requires !EndsWithSlash(u) && PlainSegment(id) && '/' !in name
    ensures RemoveSchemeIfExists(u + ("/" + id + "/" + name)) == RemoveSchemeIfExists(u) + ("/" + id + "/" + name)
  {
    var rest := "/" + id + "/" + name;
    var s := u + rest;
    forall j | OccursAt(s, SchemeSeparator, j)
      ensures s[j + 1] == '/' && s[j + 2] == '/'
    {
      assert s[j + 1] == s[j..j + 3][1] && s[j + 2] == s[j..j + 3][2];
    }
    NoDoubleSlashAfter(u, id, name);
    IndexOfAppend(u, rest, SchemeSeparator);
    match IndexOf(u, SchemeSeparator)
    case None =>
    case Some(i) =>
      assert s[i + 3..] == u[i + 3..] + rest;
  }

  /** The cut the listings make, one past the prefix and one before the
      marker, on `<prefix>/<id>/<marker>`: the id. */
  lemma CutAfterSlash(prefix: string, id: string, marker: string)
    ensures PySlice(prefix + ("/" + id + "/" + marker), |prefix| + 1, -|marker| - 1) == id
  {
    var p := prefix + ("/" + id + "/" + marker);
    PySliceInner(p, |prefix| + 1, |id|, |marker| + 1);
    assert p[|prefix| + 1..|prefix| + 1 + |id|] == id;
  }

  /** The same cut on `<prefix><id>/<marker>`: the id without its first
      letter. */
  lemma CutOneTooFar(prefix: string, id: string, marker: string)
    requires id != ""
    ensures PySlice(prefix + (id + ("/" + marker)), |prefix| + 1, -|marker| - 1) == id[1..]
  {
    var p := prefix + (id + ("/" + marker));
    PySliceInner(p, |prefix| + 1, |id| - 1, |marker| + 1);
    assert p[|prefix| + 1..|prefix| + |id|] == id[1..];
  }

  /** The id a listing cuts out of the marker path `<prefix>/<id>/<marker>`,
      for a prefix that does not end in a slash, is `id`. */
  lemma ListedIdIsFound(prefixUri: string, id: string, marker: string, paths: seq<string>, i: nat)
    requires !EndsWithSlash(prefixUri) && PlainSegment(id) && '/' !in marker
    requires i < |paths|
    requires RemoveSchemeIfExists(paths[i]) == RemoveSchemeIfExists(prefixUri + ("/" + id + "/" + marker))
    ensures ListIds(prefixUri, marker, paths)[i] == id
  {
    RemoveSchemeBelow(prefixUri, id, marker);
    var prefix := RemoveSchemeIfExists(prefixUri);
    var p := RemoveSchemeIfExists(paths[i]);
    assert ListIds(prefixUri, marker, paths)[i] == PySlice(p, |prefix| + 1, -|marker| - 1);
    CutAfterSlash(prefix, id, marker);
  }

  /** The marker file names are single path components. */
  lemma MarkerNamesPlain()
    ensures PlainSegment(ExperimentFileName)
    ensures PlainSegment(VariantFileName)
    ensures PlainSegment(RunMetadataFileName)
  {
  }

  /** The metadata path of a run is its variant's path, a slash, the run id,
      a slash and the metadata file name. */
  lemma RunMetadataPathShape(root: string, experimentId: string, variantId: string, runId: string)
    requires PlainSegment(experimentId) && PlainSegment(variantId) && PlainSegment(runId)
    ensures !EndsWithSlash(VariantPath(root, experimentId, variantId))
    ensures RunMetadataPath(RunPath(root, experimentId, variantId, runId))
            == VariantPath(root, experimentId, variantId) + ("/" + runId + "/" + RunMetadataFileName)
  {
    var vp := VariantPath(root, experimentId, variantId);
    JoinPlain(ExperimentPath(root, experimentId), variantId);
    MarkerNamesPlain();
    JoinTwice(vp, runId, RunMetadataFileName);
  }

  /** A run stored under `<root>/<experiment>/<variant>/<run>` is found again:
      when the glob reports its metadata file, `list_runs` yields its id at
      that position. */
  lemma ListedRunIsFound(root: string, experimentId: string, variantId: string, runId: string, paths: seq<string>, i: nat)
    requires PlainSegment(experimentId) && PlainSegment(variantId) && PlainSegment(runId)
    requires i < |paths|
    requires RemoveSchemeIfExists(paths[i]) == RemoveSchemeIfExists(RunMetadataPath(RunPath(root, experimentId, variantId, runId)))
    ensures ListRuns(root, experimentId, variantId, paths)[i] == runId
  {
    var vp := VariantPath(root, experimentId, variantId);
    RunMetadataPathShape(root, experimentId, variantId, runId);
    MarkerNamesPlain();
    ListedIdIsFound(vp, runId, RunMetadataFileName, paths, i);
  }

  lemma ExperimentMarkerPathShape(root: string, experimentId: string)
    requires PlainSegment(experimentId) && !EndsWithSlash(root) && root != ""
    ensures ExperimentMarkerPath(root, experimentId) == root + ("/" + experimentId + "/" + ExperimentFileName)
  {
    MarkerNamesPlain();
    JoinTwice(root, experimentId, ExperimentFileName);
  }

  /** Likewise an experiment whose marker the glob reports is listed, for a
      registry URI that does not end in a slash. */
  lemma ListedExperimentIsFound(root: string, experimentId: string, paths: seq<string>, i: nat)
    requires PlainSegment(experimentId) && !EndsWithSlash(root) && root != ""
    requires i < |paths|
    requires RemoveSchemeIfExists(paths[i]) == RemoveSchemeIfExists(ExperimentMarkerPath(root, experimentId))
    ensures ListExperiments(root, paths)[i] == experimentId
  {
    ExperimentMarkerPathShape(root, experimentId);
    MarkerNamesPlain();
    ListedIdIsFound(root, experimentId, ExperimentFileName, paths, i);
  }

  /** What `remove_scheme_if_exists` leaves is a tail of the URI: empty only
      when the URI is empty or ends in a slash, and otherwise ending in a
      slash exactly when the URI does. */
  lemma RemoveSchemeIsTail(uri: string)
    ensures var r := RemoveSchemeIfExists(uri);
            && (r == "" ==> uri == "" || EndsWithSlash(uri))
            && (r != "" ==> (EndsWithSlash(r) <==> EndsWithSlash(uri)))
  {
    var r := RemoveSchemeIfExists(uri);
    if Contains(uri, SchemeSeparator) {
      var scheme :| uri == scheme + SchemeSeparator + r;
      if r == "" {
        assert uri[|uri| - 1] == SchemeSeparator[2];
      } else {
        assert uri[|uri| - 1] == r[|r| - 1];
      }
    }
  }

  /** A URI without a colon holds no scheme. */
  lemma NoColonKeeps(s: string)
    requires ':' !in s
    ensures RemoveSchemeIfExists(s) == s
  {
  }

  /** A `://` at `i` with no colon on either side of it: the scheme ends there. */
  lemma StripsAtOnlyColon(u: string, i: nat)
    requires OccursAt(u, SchemeSeparator, i)
    requires ':' !in u[..i] && ':' !in u[i + 3..]
    ensures RemoveSchemeIfExists(u) == u[i + 3..]
  {
    var r := RemoveSchemeIfExists(u);
    var s :| u == s + SchemeSeparator + r && !Contains(s, SchemeSeparator);
    assert u[|s|] == ':';
  }

  /** No `://` straddles a slash appended to a URI that does not end in one. */
  lemma NoSchemeAcrossSlash(u: string)
    requires !EndsWithSlash(u)
    ensures forall j :: |u| - |SchemeSeparator| < j ==> !OccursAt(u + "/", SchemeSeparator, j)
  {
    forall j | |u| - 3 < j && OccursAt(u + "/", SchemeSeparator, j)
      ensures false
    {
      SchemeSeparatorSlashes(u + "/", j);
    }
  }

  /** Appending text that no `://` can reach into strips the scheme of the
      head alone. */
  lemma RemoveSchemeAppend(u: string, t: string)
    requires forall j :: |u| - |SchemeSeparator| < j ==> !OccursAt(u + t, SchemeSeparator, j)
    ensures RemoveSchemeIfExists(u + t) == RemoveSchemeIfExists(u) + t
  {
    IndexOfAppend(u, t, SchemeSeparator);
    match IndexOf(u, SchemeSeparator)
    case None =>
    case Some(i) =>
      assert (u + t)[i + 3..] == u[i + 3..] + t;
  }

  /** A `://` occurrence ends in two slashes. */
  lemma SchemeSeparatorSlashes(s: string, j: int)
    requires OccursAt(s, SchemeSeparator, j)
    ensures s[j + 1] == '/' && s[j + 2] == '/'
  {
    assert s[j + 1] == s[j..j + 3][1] && s[j + 2] == s[j..j + 3][2];
  }

  /** Stripping the scheme commutes with `join`'s directory prefix. */
  lemma RemoveSchemeDir(root: string)
    ensures RemoveSchemeIfExists(Dir(root)) == Dir(RemoveSchemeIfExists(root))
  {
    RemoveSchemeIsTail(root);
    if !(root == "" || EndsWithSlash(root)) {
      NoSchemeAcrossSlash(root);
      RemoveSchemeAppend(root, "/");
    }
  }

  /** No `://` reaches into plain components appended after a directory. */
  lemma NoSchemeInPlainTail(d: string, id: string, name: string)
    requires PlainSegment(id) && PlainSegment(name)
    ensures forall j :: |d| - |SchemeSeparator| < j ==> !OccursAt(d + (id + ("/" + name)), SchemeSeparator, j)
  {
    var t := id + ("/" + name);
    forall j | |d| - 3 < j && OccursAt(d + t, SchemeSeparator, j)
      ensures false
    {
      SchemeSeparatorSlashes(d + t, j);
    }
  }

  /** Text no `://` reaches into, appended after the directory of `root`:
      stripping the scheme strips it from `root` alone. */
  lemma RemoveSchemeDirAppend(root: string, t: string)
    requires forall j :: |Dir(root)| - |SchemeSeparator| < j ==> !OccursAt(Dir(root) + t, SchemeSeparator, j)
    ensures RemoveSchemeIfExists(Dir(root) + t) == Dir(RemoveSchemeIfExists(root)) + t
  {
    RemoveSchemeAppend(Dir(root), t);
    RemoveSchemeDir(root);
  }

  /** A path `join` builds from plain components below `root`, scheme
      stripped, is the stripped directory of `root` followed by the components. */
  lemma RemoveSchemeUnderDir(root: string, id: string, name: string)
    requires PlainSegment(id) && PlainSegment(name)
    ensures RemoveSchemeIfExists(Join(Join(root, id), name)) == Dir(RemoveSchemeIfExists(root)) + (id + ("/" + name))
  {
    JoinTwiceDir(root, id, name);
    NoSchemeInPlainTail(Dir(root), id, name);
    RemoveSchemeDirAppend(root, id + ("/" + name));
  }

  /** The marker path of an experiment, scheme stripped, is the stripped
      registry directory, the id, a slash and the marker name. */
  lemma ExperimentMarkerUnderDir(root: string, experimentId: string)
    requires PlainSegment(experimentId)
    ensures RemoveSchemeIfExists(ExperimentMarkerPath(root, experimentId))
            == Dir(RemoveSchemeIfExists(root)) + (experimentId + ("/" + ExperimentFileName))
  {
    MarkerNamesPlain();
    RemoveSchemeUnderDir(root, experimentId, ExperimentFileName);
  }

  /** A listing whose stripped prefix is empty or ends in a slash cuts one
      character too far: the id of `<prefix><id>/<marker>` loses its first
      letter. */
  lemma ListedIdLosesFirstLetter(prefixUri: string, id: string, marker: string, paths: seq<string>, i: nat)
    requires PlainSegment(id)
    requires var prefix := RemoveSchemeIfExists(prefixUri); prefix == "" || EndsWithSlash(prefix)
    requires i < |paths|
    requires RemoveSchemeIfExists(paths[i]) == RemoveSchemeIfExists(prefixUri) + (id + ("/" + marker))
    ensures ListIds(prefixUri, marker, paths)[i] == id[1..]
  {
    var prefix := RemoveSchemeIfExists(prefixUri);
    var p := RemoveSchemeIfExists(paths[i]);
    assert ListIds(prefixUri, marker, paths)[i] == PySlice(p, |prefix| + 1, -|marker| - 1);
    CutOneTooFar(prefix, id, marker);
  }

  /** As written, `list_experiments` cuts each id at one past the length of
      the stripped registry URI. When that URI is empty or ends in a slash,
      `join` adds no slash of its own, so the cut falls one character into the
      id: the experiment is listed without its first letter. */
  lemma ListedExperimentLosesFirstLetter(root: string, experimentId: string, paths: seq<string>, i: nat)
    requires PlainSegment(experimentId) && (root == "" || EndsWithSlash(root))
    requires i < |paths|
    requires RemoveSchemeIfExists(paths[i]) == RemoveSchemeIfExists(ExperimentMarkerPath(root, experimentId))
    ensures ListExperiments(root, paths)[i] == experimentId[1..]
  {
    ExperimentMarkerUnderDir(root, experimentId);
    RemoveSchemeDir(root);
    ListedIdLosesFirstLetter(root, experimentId, ExperimentFileName, paths, i);
  }

  /** The registry of the example below, and the marker the glob returns. */
  const ExampleRoot: string := "s3://bucket/reg/"
  const ExampleMarker: string := "bucket/reg/exp/" + ExperimentFileName

  lemma ExampleRootStrips()
    ensures RemoveSchemeIfExists(ExampleRoot) == "bucket/reg/"
  {
    var u := "s3://bucket/reg/";
    assert u[..2] == "s3" && u[5..] == "bucket/reg/";
    StripsAtOnlyColon(u, 2);
  }

  lemma ExampleMarkerKeeps()
    ensures RemoveSchemeIfExists(ExampleMarker) == "bucket/reg/" + ("exp" + ("/" + ExperimentFileName))
  {
    NoColonKeeps(ExampleMarker);
    assert ExampleMarker == "bucket/reg/" + ("exp" + ("/" + ExperimentFileName));
  }

  lemma ExampleMarkerPathSpelled()
    ensures ExperimentMarkerPath(ExampleRoot, "exp") == "s3://bucket/reg/exp/" + ExperimentFileName
  {
    MarkerNamesPlain();
    assert PlainSegment("exp") && Dir(ExampleRoot) == ExampleRoot;
    JoinTwiceDir(ExampleRoot, "exp", ExperimentFileName);
    assert ExampleRoot + ("exp" + ("/" + ExperimentFileName)) == "s3://bucket/reg/exp/" + ExperimentFileName;
  }

  lemma ExampleListedWithoutFirstLetter()
    ensures |ListExperiments(ExampleRoot, [ExampleMarker])| == 1
    ensures ListExperiments(ExampleRoot, [ExampleMarker])[0] == "exp"[1..]
  {
    assert PlainSegment("exp") && Dir("bucket/reg/") == "bucket/reg/";
    ExampleRootStrips();
    ExperimentMarkerUnderDir(ExampleRoot, "exp");
    ExampleMarkerKeeps();
    ListedExperimentLosesFirstLetter(ExampleRoot, "exp", [ExampleMarker], 0);
  }

  /** One input that shows it: the registry `s3://bucket/reg/` holding
      experiment `exp`. The store's glob returns its marker without the
      scheme, and the listing names the experiment `xp`. */
  lemma TrailingSlashListsXp()
    ensures ExperimentMarkerPath(ExampleRoot, "exp") == "s3://bucket/reg/exp/" + ExperimentFileName
    ensures ListExperiments(ExampleRoot, [ExampleMarker]) == ["xp"]
  {
    ExampleMarkerPathSpelled();
    ExampleListedWithoutFirstLetter();
    var ids := ListExperiments(ExampleRoot, [ExampleMarker]);
    assert ids == [ids[0]];
    assert "exp"[1..] == "xp";
  }

  /** `list_experiments` as evidently intended: each id starts right after the
      registry directory `join` wrote, slash or no slash. */
  function ListExperimentsIntended(root: string, paths: seq<string>): (ids: seq<string>)
    ensures |ids| == |paths|
  {
    var prefix := Dir(RemoveSchemeIfExists(root));
    seq(|paths|, i requires 0 <= i < |paths| =>
      PySlice(RemoveSchemeIfExists(paths[i]), |prefix|, -|ExperimentFileName| - 1))
  }

  /** The intended listing finds every experiment whose marker the glob
      reports, whatever the registry URI looks like. */
  lemma ListedExperimentIsFoundIntended(root: string, experimentId: string, paths: seq<string>, i: nat)
    requires PlainSegment(experimentId)
    requires i < |paths|
    requires RemoveSchemeIfExists(paths[i]) == RemoveSchemeIfExists(ExperimentMarkerPath(root, experimentId))
    ensures ListExperimentsIntended(root, paths)[i] == experimentId
  {
    ExperimentMarkerUnderDir(root, experimentId);
    var prefix := Dir(RemoveSchemeIfExists(root));
    assert ListExperimentsIntended(root, paths)[i]
           == PySlice(RemoveSchemeIfExists(paths[i]), |prefix|, -|ExperimentFileName| - 1);
    PySliceBetweenGrouped(prefix, experimentId, "/" + ExperimentFileName);
  }

  /** For a registry URI that is not empty and does not end in a slash, the
      intended listing is the one written. */
  lemma ListExperimentsIntendedAgrees(root: string, paths: seq<string>)
    requires root != "" && !EndsWithSlash(root)
    ensures ListExperimentsIntended(root, paths) == ListExperiments(root, paths)
  {
    RemoveSchemeIsTail(root);
    assert |Dir(RemoveSchemeIfExists(root))| == |RemoveSchemeIfExists(root)| + 1;
  }

  lemma VariantMarkerPathShape(root: string, experimentId: string, variantId: string)
    requires PlainSegment(experimentId) && PlainSegment(variantId)
    ensures !EndsWithSlash(ExperimentPath(root, experimentId))
    ensures VariantMarkerPath(root, experimentId, variantId)
            == ExperimentPath(root, experimentId) + ("/" + variantId + "/" + VariantFileName)
  {
    var ep := ExperimentPath(root, experimentId);
    JoinPlain(root, experimentId);
    MarkerNamesPlain();
    JoinTwice(ep, variantId, VariantFileName);
  }

  /** Likewise a variant whose marker the glob reports is listed. */
  lemma ListedVariantIsFound(root: string, experimentId: string, variantId: string, paths: seq<string>, i: nat)
    requires PlainSegment(experimentId) && PlainSegment(variantId)
    requires i < |paths|
    requires RemoveSchemeIfExists(paths[i]) == RemoveSchemeIfExists(VariantMarkerPath(root, experimentId, variantId))
    ensures ListVariants(root, experimentId, paths)[i] == variantId
  {
    VariantMarkerPathShape(root, experimentId, variantId);
    MarkerNamesPlain();
    ListedIdIsFound(ExperimentPath(root, experimentId), variantId, VariantFileName, paths, i);
  }

  /** When every listed run carries a default (timestamp-derived) id, the run
      `get_latest_run_for_variant` picks is one whose timestamp no other
      listed run's exceeds, to the second. */
  lemma LatestRunIsNewest(root: string, experimentId: string, variantId: string, paths: seq<string>, stamps: seq<Timestamp>)
    requires paths != [] && |stamps| == |paths|
    requires forall i :: 0 <= i < |stamps| ==> Valid(stamps[i])
    requires forall i :: 0 <= i < |paths| ==> ListRuns(root, experimentId, variantId, paths)[i] == RunIdOf(stamps[i])
    ensures GetLatestRunForVariant(root, experimentId, variantId, paths).Ok?
    ensures exists k :: 0 <= k < |stamps|
              && GetLatestRunForVariant(root, experimentId, variantId, paths).value == RunIdOf(stamps[k])
              && forall j :: 0 <= j < |stamps| ==> SameOrEarlierSecond(stamps[j], stamps[k])
  {
    var runs := ListRuns(root, experimentId, variantId, paths);
    var latest := GetLatestRunForVariant(root, experimentId, variantId, paths).value;
    var k :| 0 <= k < |runs| && runs[k] == latest;
    forall j | 0 <= j < |stamps|
      ensures SameOrEarlierSecond(stamps[j], stamps[k])
    {
      assert runs[j] in runs;
      RunIdOrderIsChronological(stamps[j], stamps[k]);
    }
  }
}
