/** `compare_runs(*runs, inject_css=...)`: one HTML page laying runs side by
    side — the run table, the params and metrics tables, and under
    "Artifacts" one section per artifact key in sorted order, with an entry
    for each run that has that key. */
module CompareRuns {
  import opened Outcomes
  import opened Bytes
  import opened Strings
  import opened StringOrder
  import opened Decimal
  import opened Artifacts
  import opened ExperimentRuns
  import opened HtmlUtil
  import opened Base64
  import opened Timestamps

  /** What plotly contributes: turning a figure's JSON text into its HTML
      fragment (`plotly.io.from_json(...).to_html(full_html=False,
      include_plotlyjs=False)`, None when the text is not a figure), and the
      library's own JavaScript (`get_plotlyjs()`). Plotly writes a fresh random
      div id into each fragment; here the fragment depends on the JSON alone. */
  datatype Plotly = Plotly(figureHtml: string -> Option<string>, plotlyJs: string)

  const PageStart: string := "<html><body>"
  const PageEnd: string := "</body></html>"

  /** `page` is a whole document: `<html><body>` ... `</body></html>`. */
  predicate Framed(page: string)
  {
    && |PageStart| + |PageEnd| <= |page|
    && PageStart <= page
    && page[|page| - |PageEnd|..] == PageEnd
  }

  lemma FramedPage(middle: string)
    ensures Framed(PageStart + middle + PageEnd)
  {
    var page := PageStart + middle + PageEnd;
    assert page[|page| - |PageEnd|..] == PageEnd;
  }

  /** The style sheet written first when `inject_css` is set. */
  const Css: string :=
    "<style>" + "table{text-align:center}th{background-color:#ddd;color:#000}"
    + "tr:nth-child(odd){background-color:#e7e6e6;color:#000}tr:nth-child(2n)"
    + "{background-color:#fff;color:#000}tr:hover{background-color:#d1eaff}tbo"
    + "dy{font-family:monospace;font-weight:400}</style>"

  const Indent: string := "            "

  /** The window configuration script; the source's line continuations keep
      the indentation of each following line inside the string. */
  const WindowPlotlyConfig: string :=
    Indent + "<script type=\"text/javascript\">"
    + Indent + "window.PlotlyConfig = {MathJaxConfig: 'local'};"
    + Indent + "</script>"

  /** The scripts put in front of the page when some figure was drawn. */
  function PlotlyLoader(plotlyJs: string): (s: string)
    ensures |s| >= 2 && s[..2] == "  "
  {
    Indent + WindowPlotlyConfig + "\n"
    + Indent + "<script type=\"text/javascript\">" + plotlyJs + "</script>" + Indent
  }

  /** A plotly artifact whose bytes are not UTF-8 or whose text is not a
      figure: drawing it raises. */
  predicate FigureFails(a: Artifact, plotly: Plotly)
  {
    && a.artifactType == PlotlyJson
    && (Utf8Decode(a.bytes).None? || plotly.figureHtml(Utf8Decode(a.bytes).value).None?)
  }

  function ImageStart(mime: string): string
  {
    "<img src=\"data:image/" + mime + ";base64,"
  }

  /** An image inlined as a base64 data URI. */
  function ImageTag(mime: string, bytes: seq<byte>): string
  {
    ImageStart(mime) + Base64Encode(bytes) + "\">"
  }

  /** The data URI of an image tag decodes to the image's bytes. */
  lemma ImageTagReadsBack(mime: string, bytes: seq<byte>)
    ensures var tag := ImageTag(mime, bytes);
            && |ImageStart(mime)| + 2 <= |tag|
            && Base64Decode(tag[|ImageStart(mime)|..|tag| - 2]) == Some(bytes)
  {
    var tag := ImageTag(mime, bytes);
    assert tag[|ImageStart(mime)|..|tag| - 2] == Base64Encode(bytes);
    Base64RoundTrip(bytes);
  }

  /** What one run's artifact adds under its `<h4>` heading: a drawn figure,
      an inlined PNG or JPG, and nothing for any other type. */
  function RenderArtifact(key: string, a: Artifact, plotly: Plotly): (r: Result<string>)
    ensures r.Err? <==> FigureFails(a, plotly)
    ensures r.Err? ==> r.error == BadFigure(key)
    ensures a.artifactType == PlotlyJson && r.Ok? ==>
              Some(r.value) == plotly.figureHtml(Utf8Decode(a.bytes).value)
    ensures a.artifactType == Png ==> r == Ok(ImageTag("png", a.bytes)) && ImageStart("png") <= r.value
    ensures a.artifactType == Jpg ==> r == Ok(ImageTag("jpg", a.bytes)) && ImageStart("jpg") <= r.value
    ensures a.artifactType == Html || a.artifactType == Binary ==> r == Ok("")
  {
    match a.artifactType
    case PlotlyJson =>
      (match Utf8Decode(a.bytes)
       case None => Err(BadFigure(key))
       case Some(text) =>
         match plotly.figureHtml(text)
         case None => Err(BadFigure(key))
         case Some(fragment) => Ok(fragment))
    case Png => Ok(ImageTag("png", a.bytes))
    case Jpg => Ok(ImageTag("jpg", a.bytes))
    case Html => Ok("")
    case Binary => Ok("")
  }

  function ArtifactMaps(runs: seq<Run>): seq<map<string, Artifact>>
  {
    seq(|runs|, i requires 0 <= i < |runs| => runs[i].artifacts)
  }

  function Params(runs: seq<Run>): seq<map<string, Value>>
  {
    seq(|runs|, i requires 0 <= i < |runs| => runs[i].params)
  }

  function Metrics(runs: seq<Run>): seq<map<string, Value>>
  {
    seq(|runs|, i requires 0 <= i < |runs| => runs[i].metrics)
  }

  /** The artifact keys of all runs together, sorted. */
  function ArtifactKeys(runs: seq<Run>): (keys: seq<string>)
    ensures StrictlySorted(keys)
    ensures forall k :: k in keys <==> exists i :: 0 <= i < |runs| && k in runs[i].artifacts
  {
    var maps := ArtifactMaps(runs);
    assert forall i :: 0 <= i < |runs| ==> maps[i] == runs[i].artifacts;
    SortedSet(UnionKeys(maps))
  }

  /** The positions, from `from` on and in increasing order, of the runs that
      have an artifact under `key`. */
  function RunsWith(key: string, runs: seq<Run>, from: nat): (ixs: seq<nat>)
    requires from <= |runs|
    ensures forall j :: 0 <= j < |ixs| ==> from <= ixs[j] < |runs| && key in runs[ixs[j]].artifacts
    ensures forall i :: from <= i < |runs| && key in runs[i].artifacts ==> i in ixs
    ensures forall j1, j2 :: 0 <= j1 < j2 < |ixs| ==> ixs[j1] < ixs[j2]
    decreases |runs| - from
  {
    if from == |runs| then []
    else if key in runs[from].artifacts then [from] + RunsWith(key, runs, from + 1)
    else RunsWith(key, runs, from + 1)
  }

  /** `f"<h4>Run {i+1}</h4>"`. */
  function EntryHeading(i: nat): string
  {
    "<h4>Run " + NatToString(i + 1) + "</h4>"
  }

  /** The entry of run `i` under `key`: its heading, then what its artifact
      renders to (nothing, should drawing fail). */
  function EntryText(key: string, runs: seq<Run>, i: nat, plotly: Plotly): string
    requires i < |runs| && key in runs[i].artifacts
  {
    var html := RenderArtifact(key, runs[i].artifacts[key], plotly);
    EntryHeading(i) + (if html.Ok? then html.value else "")
  }

  /** The entries of the runs at `ixs`, one after another. */
  function EntriesText(key: string, runs: seq<Run>, ixs: seq<nat>, plotly: Plotly): string
    requires forall j :: 0 <= j < |ixs| ==> ixs[j] < |runs| && key in runs[ixs[j]].artifacts
  {
    ConcatMap(ixs, (i: nat) requires i < |runs| && key in runs[i].artifacts => EntryText(key, runs, i, plotly))
  }

  /** The entries of one artifact key, for the runs at `ixs`, and whether a
      figure was among them: the entries of those runs one after another. */
  function Entries(key: string, runs: seq<Run>, ixs: seq<nat>, plotly: Plotly): (r: Result<(string, bool)>)
    requires forall j :: 0 <= j < |ixs| ==> ixs[j] < |runs| && key in runs[ixs[j]].artifacts
    ensures r.Err? <==> exists j :: 0 <= j < |ixs| && FigureFails(runs[ixs[j]].artifacts[key], plotly)
    ensures r.Err? ==> r.error.BadFigure?
    ensures r.Ok? ==> (r.value.1 <==> exists j :: 0 <= j < |ixs| && runs[ixs[j]].artifacts[key].artifactType == PlotlyJson)
    ensures r.Ok? ==> r.value.0 == EntriesText(key, runs, ixs, plotly)
    decreases |ixs|
  {
    if ixs == [] then Ok(("", false))
    else
      var a := runs[ixs[0]].artifacts[key];
      var html :- RenderArtifact(key, a, plotly);
      var rest :- Entries(key, runs, ixs[1..], plotly);
      assert forall j :: 1 <= j < |ixs| ==> ixs[1..][j - 1] == ixs[j];
      Ok((EntryHeading(ixs[0]) + html + rest.0, a.artifactType == PlotlyJson || rest.1))
  }

  /** Every run holding `key` is one `RunsWith` lists. */
  lemma RunsWithCovers(key: string, runs: seq<Run>, i: nat)
    requires i < |runs| && key in runs[i].artifacts
    ensures exists j :: 0 <= j < |RunsWith(key, runs, 0)| && RunsWith(key, runs, 0)[j] == i
  {
    var ixs := RunsWith(key, runs, 0);
    assert i in ixs;
    var j :| 0 <= j < |ixs| && ixs[j] == i;
  }

  /** Some run holds a plotly figure under `key`. */
  ghost predicate KeyHasFigure(key: string, runs: seq<Run>)
  {
    exists i :: 0 <= i < |runs| && key in runs[i].artifacts && runs[i].artifacts[key].artifactType == PlotlyJson
  }

  /** Some run holds, under `key`, a plotly figure that cannot be drawn. */
  ghost predicate KeyHasBadFigure(key: string, runs: seq<Run>, plotly: Plotly)
  {
    exists i :: 0 <= i < |runs| && key in runs[i].artifacts && FigureFails(runs[i].artifacts[key], plotly)
  }

  /** The section of one key: its `<h3>` heading, then the entries of the
      runs holding the key, in run order. */
  function Section(key: string, runs: seq<Run>, plotly: Plotly): (r: Result<(string, bool)>)
    ensures r.Err? <==> KeyHasBadFigure(key, runs, plotly)
    ensures r.Err? ==> r.error.BadFigure?
    ensures r.Ok? ==> (r.value.1 <==> KeyHasFigure(key, runs))
    ensures r.Ok? ==> "<h3>" + key + "</h3>" <= r.value.0
    ensures r.Ok? ==> r.value.0 == "<h3>" + key + "</h3>" + EntriesText(key, runs, RunsWith(key, runs, 0), plotly)
  {
    var ixs := RunsWith(key, runs, 0);
    forall i | 0 <= i < |runs| && key in runs[i].artifacts
      ensures exists j :: 0 <= j < |ixs| && ixs[j] == i
    {
      RunsWithCovers(key, runs, i);
    }
    var entries :- Entries(key, runs, ixs, plotly);
    Ok(("<h3>" + key + "</h3>" + entries.0, entries.1))
  }

  /** Some key of `keys` has a figure under it. */
  ghost predicate AnyKeyHasFigure(keys: seq<string>, runs: seq<Run>)
  {
    exists j :: 0 <= j < |keys| && KeyHasFigure(keys[j], runs)
  }

  /** Some key of `keys` has a figure that cannot be drawn under it. */
  ghost predicate AnyKeyHasBadFigure(keys: seq<string>, runs: seq<Run>, plotly: Plotly)
  {
    exists j :: 0 <= j < |keys| && KeyHasBadFigure(keys[j], runs, plotly)
  }

  /** Either predicate holds of a list of keys exactly when it holds of the
      first key or of the others. */
  lemma AnyKeyCons(keys: seq<string>, runs: seq<Run>, plotly: Plotly)
    requires keys != []
    ensures AnyKeyHasFigure(keys, runs) <==> KeyHasFigure(keys[0], runs) || AnyKeyHasFigure(keys[1..], runs)
    ensures AnyKeyHasBadFigure(keys, runs, plotly)
            <==> KeyHasBadFigure(keys[0], runs, plotly) || AnyKeyHasBadFigure(keys[1..], runs, plotly)
  {
    assert forall j :: 1 <= j < |keys| ==> keys[1..][j - 1] == keys[j];
  }

  /** The text of `key`'s section (nothing, should it fail). */
  function SectionText(key: string, runs: seq<Run>, plotly: Plotly): string
  {
    var s := Section(key, runs, plotly);
    if s.Ok? then s.value.0 else ""
  }

  /** The sections of `keys`, one after another. */
  function SectionsText(keys: seq<string>, runs: seq<Run>, plotly: Plotly): string
  {
    ConcatMap(keys, key => SectionText(key, runs, plotly))
  }

  /** The sections of `keys`, in order, and whether a figure was drawn. */
  function Sections(keys: seq<string>, runs: seq<Run>, plotly: Plotly): (r: Result<(string, bool)>)
    ensures r.Err? <==> AnyKeyHasBadFigure(keys, runs, plotly)
    ensures r.Err? ==> r.error.BadFigure?
    ensures r.Ok? ==> (r.value.1 <==> AnyKeyHasFigure(keys, runs))
    ensures r.Ok? ==> r.value.0 == SectionsText(keys, runs, plotly)
    decreases |keys|
  {
    if keys == [] then Ok(("", false))
    else
      var first := Section(keys[0], runs, plotly);
      if first.Err? then Err(first.error)
      else
        var rest := Sections(keys[1..], runs, plotly);
        AnyKeyCons(keys, runs, plotly);
        if rest.Err? then Err(rest.error)
        else Ok((first.value.0 + rest.value.0, first.value.1 || rest.value.1))
  }

  /** Some run holds a plotly figure. */
  ghost predicate HasFigure(runs: seq<Run>)
  {
    exists i, k :: 0 <= i < |runs| && k in runs[i].artifacts && runs[i].artifacts[k].artifactType == PlotlyJson
  }

  /** Some run holds a plotly artifact that cannot be drawn. */
  ghost predicate HasBadFigure(runs: seq<Run>, plotly: Plotly)
  {
    exists i, k :: 0 <= i < |runs| && k in runs[i].artifacts && FigureFails(runs[i].artifacts[k], plotly)
  }

  /** A figure held by some run is held under one of the sorted keys. */
  lemma FigureUnderSomeKey(runs: seq<Run>)
    requires HasFigure(runs)
    ensures AnyKeyHasFigure(ArtifactKeys(runs), runs)
  {
    var keys := ArtifactKeys(runs);
    var i, k :| 0 <= i < |runs| && k in runs[i].artifacts && runs[i].artifacts[k].artifactType == PlotlyJson;
    assert k in keys;
    var j :| 0 <= j < |keys| && keys[j] == k;
    assert KeyHasFigure(keys[j], runs);
  }

  /** A figure under a key is a figure held by some run. */
  lemma KeyFigureIsFigure(key: string, runs: seq<Run>)
    requires KeyHasFigure(key, runs)
    ensures HasFigure(runs)
  {
    var i :| 0 <= i < |runs| && key in runs[i].artifacts && runs[i].artifacts[key].artifactType == PlotlyJson;
  }

  /** Every artifact of every run is visited: a figure among the runs is a
      figure under one of the sorted keys, and back. */
  lemma SectionsCoverFigures(runs: seq<Run>)
    ensures var keys := ArtifactKeys(runs);
            HasFigure(runs) <==> AnyKeyHasFigure(keys, runs)
  {
    var keys := ArtifactKeys(runs);
    if HasFigure(runs) {
      FigureUnderSomeKey(runs);
    }
    forall j | 0 <= j < |keys| && KeyHasFigure(keys[j], runs)
      ensures HasFigure(runs)
    {
      KeyFigureIsFigure(keys[j], runs);
    }
  }

  lemma BadFigureUnderSomeKey(runs: seq<Run>, plotly: Plotly)
    requires HasBadFigure(runs, plotly)
    ensures AnyKeyHasBadFigure(ArtifactKeys(runs), runs, plotly)
  {
    var keys := ArtifactKeys(runs);
    var i, k :| 0 <= i < |runs| && k in runs[i].artifacts && FigureFails(runs[i].artifacts[k], plotly);
    assert k in keys;
    var j :| 0 <= j < |keys| && keys[j] == k;
    assert KeyHasBadFigure(keys[j], runs, plotly);
  }

  lemma KeyBadFigureIsBadFigure(key: string, runs: seq<Run>, plotly: Plotly)
    requires KeyHasBadFigure(key, runs, plotly)
    ensures HasBadFigure(runs, plotly)
  {
    var i :| 0 <= i < |runs| && key in runs[i].artifacts && FigureFails(runs[i].artifacts[key], plotly);
  }

  /** The same for figures that cannot be drawn. */
  lemma SectionsCoverBadFigures(runs: seq<Run>, plotly: Plotly)
    ensures var keys := ArtifactKeys(runs);
            HasBadFigure(runs, plotly) <==> AnyKeyHasBadFigure(keys, runs, plotly)
  {
    var keys := ArtifactKeys(runs);
    if HasBadFigure(runs, plotly) {
      BadFigureUnderSomeKey(runs, plotly);
    }
    forall j | 0 <= j < |keys| && KeyHasBadFigure(keys[j], runs, plotly)
      ensures HasBadFigure(runs, plotly)
    {
      KeyBadFigureIsBadFigure(keys[j], runs, plotly);
    }
  }

  /** The sections of all artifact keys fail exactly when some run holds a
      figure that cannot be drawn, and otherwise report a figure exactly when
      some run holds one. */
  lemma SectionsOfAllKeys(runs: seq<Run>, plotly: Plotly)
    ensures var r := Sections(ArtifactKeys(runs), runs, plotly);
            && (r.Err? <==> HasBadFigure(runs, plotly))
            && (r.Ok? ==> (r.value.1 <==> HasFigure(runs)))
  {
    SectionsCoverFigures(runs);
    SectionsCoverBadFigures(runs, plotly);
  }

  /** A rendered table opens with `<table>`. */
  lemma TableStart(t: Table)
    ensures |RenderTable(t)| >= 7 && RenderTable(t)[..7] == "<table>"
  {
  }

  /** The run table of `compare_runs`: one row per run. */
  function RunTable(runs: seq<Run>): (r: Result<string>)
    ensures r.Ok?
  {
    TimestampsToHtmlTable(
      seq(|runs|, i requires 0 <= i < |runs| => runs[i].experimentId),
      seq(|runs|, i requires 0 <= i < |runs| => runs[i].variantId),
      seq(|runs|, i requires 0 <= i < |runs| => runs[i].runId),
      seq(|runs|, i requires 0 <= i < |runs| => runs[i].timestampUtc))
  }

  lemma RunTableStart(runs: seq<Run>)
    ensures |RunTable(runs).value| >= 7 && RunTable(runs).value[..7] == "<table>"
  {
    TableStart(TimestampsTable(
      seq(|runs|, i requires 0 <= i < |runs| => runs[i].experimentId),
      seq(|runs|, i requires 0 <= i < |runs| => runs[i].variantId),
      seq(|runs|, i requires 0 <= i < |runs| => runs[i].runId),
      seq(|runs|, i requires 0 <= i < |runs| => runs[i].timestampUtc)));
  }

  /** An optional piece `x` in front of `t` shows in the text exactly when it
      is there, provided the two open differently. */
  lemma {:induction false} OptionalPieceVisible(p: string, x: string, t: string, tail: string, on: bool)
    requires |x| >= 2 && |t| >= 2 && x[..2] != t[..2]
    ensures on <==> p + x <= p + ((if on then x else "") + t + tail)
  {
    var text := p + ((if on then x else "") + t + tail);
    if !on {
      assert text[|p|..|p| + 2] == t[..2];
      assert |p + x| > |text| || (p + x)[|p|..|p| + 2] == x[..2];
    }
  }

  /** Two optional pieces after a fixed start: each shows exactly when it is
      there, provided each opens differently from what would follow instead. */
  lemma TwoOptionalPieces(start: string, x: string, y: string, t: string, tail: string, onX: bool, onY: bool)
    requires |x| >= 2 && |y| >= 2 && |t| >= 2 && y[..2] != t[..2]
    requires x[..2] != y[..2] && x[..2] != t[..2]
    ensures var text := start + (if onX then x else "") + ((if onY then y else "") + t + tail);
            && (onX <==> start + x <= text)
            && (onY <==> start + (if onX then x else "") + y <= text)
  {
    var body := (if onY then y else "") + t + tail;
    assert |body| >= 2 && body[..2] == (if onY then y[..2] else t[..2]);
    OptionalPieceVisible(start, x, body, "", onX);
    assert start + ((if onX then x else "") + body + "") == start + (if onX then x else "") + body;
    OptionalPieceVisible(start + (if onX then x else ""), y, t, tail, onY);
  }

  lemma CssOpens()
    ensures |Css| >= 2 && Css[..2] == "<s"
  {
  }

  /** The page around its body, `style` being the style sheet: the loader is
      in front exactly when asked for, and the style sheet follows it exactly
      when asked for, since the loader opens with spaces and both the style
      sheet and the run table with `<`, and `<style>` and `<table>` differ in
      their second letter. */
  function Page(style: string, loader: string, runTable: string, rest: string, injectCss: bool, loaderOn: bool): (page: string)
    requires |style| >= 2 && style[..2] == "<s"
    requires |loader| >= 2 && loader[..2] == "  "
    requires |runTable| >= 7 && runTable[..7] == "<table>"
    ensures Framed(page)
    ensures loaderOn <==> PageStart + loader <= page
    ensures loaderOn ==> (injectCss <==> PageStart + loader + style <= page)
    ensures !loaderOn ==> (injectCss <==> PageStart + style <= page)
  {
    var middle := (if loaderOn then loader else "") + ((if injectCss then style else "") + runTable + rest);
    PageBody(PageStart, loader, style, runTable, rest, PageEnd, injectCss, loaderOn);
    FramedPage(middle);
    PageStart + middle + PageEnd
  }

  /** The facts `Page` states, for any start and end of the page. */
  lemma PageBody(start: string, loader: string, style: string, runTable: string, rest: string, end: string,
                 injectCss: bool, loaderOn: bool)
    requires |style| >= 2 && style[..2] == "<s"
    requires |loader| >= 2 && loader[..2] == "  "
    requires |runTable| >= 7 && runTable[..7] == "<table>"
    ensures var page := start + ((if loaderOn then loader else "") + ((if injectCss then style else "") + runTable + rest)) + end;
            && (loaderOn <==> start + loader <= page)
            && (loaderOn ==> (injectCss <==> start + loader + style <= page))
            && (!loaderOn ==> (injectCss <==> start + style <= page))
  {
    var x := if loaderOn then loader else "";
    var y := if injectCss then style else "";
    assert runTable[..2] == "<t" by {
      assert runTable[..2] == runTable[..7][..2];
    }
    TwoOptionalPieces(start, loader, style, runTable, rest + end, loaderOn, injectCss);
    assert start + (x + (y + runTable + rest)) + end == start + x + (y + runTable + (rest + end));
  }

  /** What follows the run table: the params and metrics tables and the
      artifact sections, each under its `<h2>` heading. */
  function Tables(runs: seq<Run>, paramKeys: seq<string>, metricKeys: seq<string>,
                  floatRepr: bv64 -> string, sections: string): string
    requires Enumerates(paramKeys, UnionKeys(Params(runs)))
    requires Enumerates(metricKeys, UnionKeys(Metrics(runs)))
  {
    "<h2>Params</h2>" + DictsToHtmlTable(Params(runs), "", paramKeys, floatRepr)
    + "<h2>Metrics</h2>" + DictsToHtmlTable(Metrics(runs), "", metricKeys, floatRepr)
    + "<h2>Artifacts</h2>" + sections
  }

  /** `compare_runs(*runs, inject_css=injectCss)`, with `paramKeys` and
      `metricKeys` the iteration orders of the sets of all param and metric
      keys, `floatRepr` Python's `str` of a float, and `plotly` the figure
      renderer. */
  function CompareRuns(runs: seq<Run>, injectCss: bool, paramKeys: seq<string>, metricKeys: seq<string>,
                       floatRepr: bv64 -> string, plotly: Plotly): (r: Result<string>)
    requires Enumerates(paramKeys, UnionKeys(Params(runs)))
    requires Enumerates(metricKeys, UnionKeys(Metrics(runs)))
    ensures r.Err? <==> HasBadFigure(runs, plotly)
    ensures r.Err? ==> r.error.BadFigure?
    ensures r.Ok? ==> Framed(r.value)
    ensures r.Ok? ==> (HasFigure(runs) <==> PageStart + PlotlyLoader(plotly.plotlyJs) <= r.value)
    ensures r.Ok? && HasFigure(runs) ==> (injectCss <==> PageStart + PlotlyLoader(plotly.plotlyJs) + Css <= r.value)
    ensures r.Ok? && !HasFigure(runs) ==> (injectCss <==> PageStart + Css <= r.value)
  {
    var sections := ArtifactSections(runs, plotly);
    if sections.Err? then Err(sections.error)
    else
      RunTableStart(runs);
      CssOpens();
      Ok(Page(Css, PlotlyLoader(plotly.plotlyJs), RunTable(runs).value,
              Tables(runs, paramKeys, metricKeys, floatRepr, sections.value.0), injectCss, sections.value.1))
  }

  /** The artifact sections of `compare_runs`: one per artifact key in sorted
      order, failing exactly when some run holds a figure that cannot be
      drawn, and otherwise reporting a figure exactly when some run holds one. */
  function ArtifactSections(runs: seq<Run>, plotly: Plotly): (r: Result<(string, bool)>)
    ensures r.Err? <==> HasBadFigure(runs, plotly)
    ensures r.Err? ==> r.error.BadFigure?
    ensures r.Ok? ==> (r.value.1 <==> HasFigure(runs))
    ensures r.Ok? ==> r.value.0 == SectionsText(ArtifactKeys(runs), runs, plotly)
  {
    SectionsOfAllKeys(runs, plotly);
    Sections(ArtifactKeys(runs), runs, plotly)
  }

  /** The page of runs without an undrawable figure, part by part: the plotly
      loader when some run holds a figure, the style sheet when requested,
      the run table, the params and metrics tables under their headings, and
      under "Artifacts" the sections of the sorted artifact keys. */
  lemma CompareRunsLayout(runs: seq<Run>, injectCss: bool, paramKeys: seq<string>, metricKeys: seq<string>,
                          floatRepr: bv64 -> string, plotly: Plotly)
    requires Enumerates(paramKeys, UnionKeys(Params(runs)))
    requires Enumerates(metricKeys, UnionKeys(Metrics(runs)))
    requires !HasBadFigure(runs, plotly)
    ensures Sections(ArtifactKeys(runs), runs, plotly).Ok?
    ensures CompareRuns(runs, injectCss, paramKeys, metricKeys, floatRepr, plotly)
            == Ok(PageStart
                  + ((if HasFigure(runs) then PlotlyLoader(plotly.plotlyJs) else "")
                     + ((if injectCss then Css else "") + RunTable(runs).value
                        + ("<h2>Params</h2>" + DictsToHtmlTable(Params(runs), "", paramKeys, floatRepr)
                           + "<h2>Metrics</h2>" + DictsToHtmlTable(Metrics(runs), "", metricKeys, floatRepr)
                           + "<h2>Artifacts</h2>" + SectionsText(ArtifactKeys(runs), runs, plotly))))
                  + PageEnd)
  {
    SectionsOfAllKeys(runs, plotly);
  }
}
