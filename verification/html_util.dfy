/** The two HTML tables of the comparison page. Both are a header row whose
    first cell is empty followed by one row per entry whose first cell is a
    title: the shape `Table` captures. `ParseTable` reads that markup back,
    which states what a rendered table says independently of how it is
    assembled. No text is escaped, so read-back needs cell text without `<`. */
module HtmlUtil {
  import opened Outcomes
  import opened Strings
  import opened Decimal
  import opened Timestamps
  import opened Artifacts

  datatype Row = Row(title: string, cells: seq<string>)

  /** Header texts after the empty corner cell, and the labelled rows. */
  datatype Table = Table(header: seq<string>, rows: seq<Row>)

  /** `<name>text</name>`. */
  function Tag(name: string, text: string): string
  {
    "<" + name + ">" + text + "</" + name + ">"
  }

  /** A tag written out character by character is the same tag. */
  lemma TagSpelled(name: string, text: string)
    requires name == "td" || name == "th"
    ensures name == "td" ==> "<td>" + text + "</td>" == Tag(name, text)
    ensures name == "th" ==> "<th>" + text + "</th>" == Tag(name, text)
  {
  }

  function Cells(name: string, texts: seq<string>): string
  {
    if texts == [] then "" else Tag(name, texts[0]) + Cells(name, texts[1..])
  }

  function RenderRow(r: Row): string
  {
    "<tr>" + Cells("td", [r.title] + r.cells) + "</tr>"
  }

  function RenderRows(rows: seq<Row>): string
  {
    if rows == [] then "" else RenderRow(rows[0]) + RenderRows(rows[1..])
  }

  function RenderTable(t: Table): string
  {
    "<table>" + "<tr>" + Cells("th", [""] + t.header) + "</tr>" + RenderRows(t.rows) + "</table>"
  }

  lemma {:induction false} CellsSnoc(name: string, texts: seq<string>, text: string)
    ensures Cells(name, texts + [text]) == Cells(name, texts) + Tag(name, text)
    decreases |texts|
  {
    if texts == [] {
      assert texts + [text] == [text];
    } else {
      assert (texts + [text])[1..] == texts[1..] + [text];
      CellsSnoc(name, texts[1..], text);
    }
  }

  lemma {:induction false} RenderRowsSnoc(rows: seq<Row>, row: Row)
    ensures RenderRows(rows + [row]) == RenderRows(rows) + RenderRow(row)
    decreases |rows|
  {
    if rows == [] {
      assert rows + [row] == [row];
    } else {
      assert (rows + [row])[1..] == rows[1..] + [row];
      RenderRowsSnoc(rows[1..], row);
    }
  }

  /** Text that cannot be mistaken for markup. */
  predicate Plain(s: string)
  {
    '<' !in s
  }

  predicate PlainRow(r: Row)
  {
    Plain(r.title) && forall i :: 0 <= i < |r.cells| ==> Plain(r.cells[i])
  }

  predicate PlainRows(rows: seq<Row>)
  {
    forall j :: 0 <= j < |rows| ==> PlainRow(rows[j])
  }

  predicate PlainTable(t: Table)
  {
    && (forall i :: 0 <= i < |t.header| ==> Plain(t.header[i]))
    && PlainRows(t.rows)
  }

  lemma PlainRowsTail(rows: seq<Row>)
    requires rows != [] && PlainRows(rows)
    ensures PlainRow(rows[0]) && PlainRows(rows[1..])
  {
    forall j | 0 <= j < |rows[1..]|
      ensures PlainRow(rows[1..][j])
    {
      assert rows[1..][j] == rows[j + 1];
    }
  }

  /** The text up to the next `<`, and what follows it. */
  function ParseText(s: string): (r: (string, string))
    ensures r.0 + r.1 == s && Plain(r.0)
    ensures r.1 == "" || r.1[0] == '<'
  {
    if s == "" || s[0] == '<' then ("", s)
    else
      var (t, rest) := ParseText(s[1..]);
      var text := [s[0]] + t;
      assert text + rest == s by {
        assert s == [s[0]] + s[1..];
      }
      assert Plain(text) by {
        forall i | 0 <= i < |text|
          ensures text[i] != '<'
        {
          if i > 0 {
            assert text[i] == t[i - 1];
          }
        }
      }
      (text, rest)
  }

  /** As many `<name>text</name>` cells as follow. */
  function ParseCells(name: string, s: string): (r: (seq<string>, string))
    ensures |r.1| <= |s|
    decreases |s|
  {
    var open, close := "<" + name + ">", "</" + name + ">";
    if open <= s then
      var (t, r1) := ParseText(s[|open|..]);
      if close <= r1 then
        var (ts, r2) := ParseCells(name, r1[|close|..]);
        ([t] + ts, r2)
      else ([], s)
    else ([], s)
  }

  /** As many `<tr>` rows of `<td>` cells as follow; a row's first cell is
      its title. */
  function ParseRows(s: string): (r: (seq<Row>, string))
    ensures |r.1| <= |s|
    decreases |s|
  {
    if "<tr>" <= s then
      var (cells, r1) := ParseCells("td", s[4..]);
      if cells != [] && "</tr>" <= r1 then
        var (rows, r2) := ParseRows(r1[5..]);
        ([Row(cells[0], cells[1..])] + rows, r2)
      else ([], s)
    else ([], s)
  }

  /** Reads back a whole table, or None if the text is not one. */
  function ParseTable(s: string): Option<Table>
  {
    if "<table><tr>" <= s then
      var (hs, r1) := ParseCells("th", s[11..]);
      if hs != [] && hs[0] == "" && "</tr>" <= r1 then
        var (rows, r2) := ParseRows(r1[5..]);
        if r2 == "</table>" then Some(Table(hs[1..], rows)) else None
      else None
    else None
  }

  lemma {:induction false} ParseTextPlain(t: string, rest: string)
    requires Plain(t) && (rest == "" || rest[0] == '<')
    ensures ParseText(t + rest) == (t, rest)
  {
    var s := t + rest;
    if t == "" {
      assert s == rest;
    } else {
      assert s[0] == t[0] && t[0] in t;
      assert s[1..] == t[1..] + rest;
      ParseTextPlain(t[1..], rest);
      assert ParseText(s[1..]) == (t[1..], rest);
      assert ParseText(s) == ([s[0]] + t[1..], rest);
      assert [t[0]] + t[1..] == t;
    }
  }

  /** `ParseCells` on one plain cell followed by more text. */
  lemma ParseCellsCons(name: string, t: string, tail: string)
    requires Plain(t)
    ensures ParseCells(name, Tag(name, t) + tail) == ([t] + ParseCells(name, tail).0, ParseCells(name, tail).1)
  {
    var open, close := "<" + name + ">", "</" + name + ">";
    var s := Tag(name, t) + tail;
    assert s == open + (t + (close + tail));
    assert open <= s;
    assert s[|open|..] == t + (close + tail);
    ParseTextPlain(t, close + tail);
    assert close <= close + tail;
    assert (close + tail)[|close|..] == tail;
  }

  lemma {:induction false} ParseCellsRoundTrip(name: string, texts: seq<string>, rest: string)
    requires forall i :: 0 <= i < |texts| ==> Plain(texts[i])
    requires !("<" + name + ">" <= rest)
    ensures ParseCells(name, Cells(name, texts) + rest) == (texts, rest)
    decreases |texts|
  {
    if texts == [] {
      assert Cells(name, texts) + rest == rest;
    } else {
      var tail := Cells(name, texts[1..]) + rest;
      assert Cells(name, texts) + rest == Tag(name, texts[0]) + tail;
      ParseCellsCons(name, texts[0], tail);
      ParseCellsRoundTrip(name, texts[1..], rest);
      assert [texts[0]] + texts[1..] == texts;
    }
  }

  /** Two texts that differ at some index neither ends before are not
      prefix and extension. */
  lemma NotPrefix(a: string, b: string, i: nat)
    requires i < |a| && i < |b| && a[i] != b[i]
    ensures !(a <= b)
  {
  }

  /** One row and whatever follows it. */
  lemma ParseRowStep(r: Row, tail: string)
    requires PlainRow(r)
    ensures ParseCells("td", Cells("td", [r.title] + r.cells) + ("</tr>" + tail)) == ([r.title] + r.cells, "</tr>" + tail)
  {
    var cells := [r.title] + r.cells;
    assert forall i :: 0 <= i < |cells| ==> Plain(cells[i]);
    NotPrefix("<td>", "</tr>" + tail, 1);
    ParseCellsRoundTrip("td", cells, "</tr>" + tail);
  }

  /** `ParseRows` on a row followed by more text. */
  lemma ParseRowsCons(x: string, cells: seq<string>, tail: string, more: seq<Row>, rest: string)
    requires ParseCells("td", x) == (cells, "</tr>" + tail) && cells != []
    requires ParseRows(tail) == (more, rest)
    ensures ParseRows("<tr>" + x) == ([Row(cells[0], cells[1..])] + more, rest)
  {
    var s := "<tr>" + x;
    assert "<tr>" <= s;
    assert s[4..] == x;
    assert "</tr>" <= "</tr>" + tail;
    assert ("</tr>" + tail)[5..] == tail;
  }

  /** A rendered row followed by more text, spelled out. */
  lemma RenderRowThen(r: Row, tail: string)
    ensures RenderRow(r) + tail == "<tr>" + (Cells("td", [r.title] + r.cells) + ("</tr>" + tail))
  {
  }

  lemma RenderRowsThen(rows: seq<Row>, rest: string)
    requires rows != []
    ensures RenderRows(rows) + rest == RenderRow(rows[0]) + (RenderRows(rows[1..]) + rest)
  {
    var head, tail := RenderRow(rows[0]), RenderRows(rows[1..]);
    assert RenderRows(rows) == head + tail;
    ConcatAssociative(head, tail, rest);
  }

  lemma ConcatAssociative(a: string, b: string, c: string)
    ensures (a + b) + c == a + (b + c)
  {
  }

  /** One more row in front of rows that read back. */
  lemma ParseRowsStep(r: Row, tail: string, more: seq<Row>, rest: string)
    requires PlainRow(r)
    requires ParseRows(tail) == (more, rest)
    ensures ParseRows(RenderRow(r) + tail) == ([r] + more, rest)
  {
    var cells := [r.title] + r.cells;
    var x := Cells("td", cells) + ("</tr>" + tail);
    RenderRowThen(r, tail);
    ParseRowStep(r, tail);
    ParseRowsCons(x, cells, tail, more, rest);
    assert Row(cells[0], cells[1..]) == r;
  }

  lemma {:induction false} ParseRowsRoundTrip(rows: seq<Row>, rest: string)
    requires PlainRows(rows)
    requires !("<tr>" <= rest)
    ensures ParseRows(RenderRows(rows) + rest) == (rows, rest)
    decreases |rows|
  {
    if rows == [] {
      NoRows(rest);
    } else {
      PlainRowsTail(rows);
      ParseRowsRoundTrip(rows[1..], rest);
      ParseRowsFirst(rows, rest);
    }
  }

  lemma NoRows(rest: string)
    requires !("<tr>" <= rest)
    ensures ParseRows(RenderRows([]) + rest) == ([], rest)
  {
    assert RenderRows([]) + rest == rest;
  }

  /** The first row, in front of the others that read back. */
  lemma ParseRowsFirst(rows: seq<Row>, rest: string)
    requires rows != [] && PlainRow(rows[0])
    requires ParseRows(RenderRows(rows[1..]) + rest) == (rows[1..], rest)
    ensures ParseRows(RenderRows(rows) + rest) == (rows, rest)
  {
    RenderRowsThen(rows, rest);
    ParseRowsStep(rows[0], RenderRows(rows[1..]) + rest, rows[1..], rest);
    assert [rows[0]] + rows[1..] == rows;
  }

  /** `ParseTable` on a header row and rows. */
  lemma ParseTableOf(x: string, hs: seq<string>, tail: string, rows: seq<Row>)
    requires ParseCells("th", x) == (hs, "</tr>" + tail) && hs != [] && hs[0] == ""
    requires ParseRows(tail) == (rows, "</table>")
    ensures ParseTable("<table><tr>" + x) == Some(Table(hs[1..], rows))
  {
    var s := "<table><tr>" + x;
    assert "<table><tr>" <= s;
    assert s[11..] == x;
    assert "</tr>" <= "</tr>" + tail;
    assert ("</tr>" + tail)[5..] == tail;
  }

  /** The text of a table as the source's loops assemble it. */
  lemma TableHead()
    ensures "<table>" + "<tr>" + Tag("th", "") == "<table><tr><th></th>"
  {
  }

  lemma RenderTableParts(t: Table)
    ensures RenderTable(t) == "<table><tr><th></th>" + Cells("th", t.header) + "</tr>" + RenderRows(t.rows) + "</table>"
  {
    var head := "<table>" + "<tr>";
    var hs := Cells("th", t.header);
    var rows := RenderRows(t.rows);
    assert Cells("th", [""] + t.header) == Tag("th", "") + hs by {
      assert ([""] + t.header)[1..] == t.header;
    }
    TableHead();
    assert RenderTable(t) == head + (Tag("th", "") + hs) + "</tr>" + rows + "</table>";
    assert head + (Tag("th", "") + hs) == (head + Tag("th", "")) + hs;
  }

  lemma RenderTableShape(t: Table)
    ensures RenderTable(t) == "<table><tr>" + (Cells("th", [""] + t.header) + ("</tr>" + (RenderRows(t.rows) + "</table>")))
  {
  }

  /** A rendered table whose text holds no `<` reads back as itself. */
  lemma TableRoundTrip(t: Table)
    requires PlainTable(t)
    ensures ParseTable(RenderTable(t)) == Some(t)
  {
    var rowsText := RenderRows(t.rows) + "</table>";
    var hs := [""] + t.header;
    RenderTableShape(t);
    assert forall i :: 0 <= i < |hs| ==> Plain(hs[i]);
    NotPrefix("<th>", "</tr>" + rowsText, 1);
    ParseCellsRoundTrip("th", hs, "</tr>" + rowsText);
    NotPrefix("<tr>", "</table>", 1);
    ParseRowsRoundTrip(t.rows, "</table>");
    ParseTableOf(Cells("th", hs) + ("</tr>" + rowsText), hs, rowsText, t.rows);
    assert hs[1..] == t.header;
  }

  /** Rendering loses nothing: different plain tables give different text. */
  lemma RenderTableInjective(t1: Table, t2: Table)
    requires PlainTable(t1) && PlainTable(t2) && RenderTable(t1) == RenderTable(t2)
    ensures t1 == t2
  {
    TableRoundTrip(t1);
    TableRoundTrip(t2);
  }

  /** `str(value)` of a param, metric or dict value; `floatRepr` is Python's
      shortest round-tripping float text. */
  function Show(v: Value, floatRepr: bv64 -> string): string
  {
    match v
    case Str(s) => s
    case Int(i) => IntToString(i)
    case Float(bits) => floatRepr(bits)
  }

  /** Every key of any of the maps. */
  function UnionKeys<V>(ms: seq<map<string, V>>): (r: set<string>)
    ensures forall k :: k in r <==> exists i :: 0 <= i < |ms| && k in ms[i]
  {
    if ms == [] then {}
    else
      var r := UnionKeys(ms[..|ms| - 1]) + ms[|ms| - 1].Keys;
      assert forall i :: 0 <= i < |ms| - 1 ==> ms[..|ms| - 1][i] == ms[i];
      r
  }

  /** `f"{model_name} {i+1}"`: the heading of the i-th column (from zero). */
  function ColumnHeading(modelName: string, i: nat): string
  {
    modelName + " " + NatToString(i + 1)
  }

  /** `d.get(key, "")` shown as text. */
  function CellText(d: map<string, Value>, key: string, floatRepr: bv64 -> string): string
  {
    if key in d then Show(d[key], floatRepr) else ""
  }

  /** The column headings of `dicts_to_html_table(data, model_name)`. */
  function DictsHeader(data: seq<map<string, Value>>, modelName: string): seq<string>
  {
    seq(|data|, i requires 0 <= i < |data| => ColumnHeading(modelName, i))
  }

  /** The row of one key: the key, then each dict's value or nothing. */
  function DictsRow(data: seq<map<string, Value>>, key: string, floatRepr: bv64 -> string): Row
  {
    Row(key, seq(|data|, i requires 0 <= i < |data| => CellText(data[i], key, floatRepr)))
  }

  function DictsRows(data: seq<map<string, Value>>, keys: seq<string>, floatRepr: bv64 -> string): seq<Row>
  {
    seq(|keys|, j requires 0 <= j < |keys| => DictsRow(data, keys[j], floatRepr))
  }

  /** The table `dicts_to_html_table(data, model_name)` draws, with `keys`
      the iteration order of the set of all keys. */
  function DictsTable(data: seq<map<string, Value>>, modelName: string, keys: seq<string>,
                      floatRepr: bv64 -> string): Table
  {
    Table(DictsHeader(data, modelName), DictsRows(data, keys, floatRepr))
  }

  /** Key names, the model name and every shown value are free of `<`. */
  predicate PlainDicts(data: seq<map<string, Value>>, modelName: string, keys: seq<string>,
                       floatRepr: bv64 -> string)
  {
    && Plain(modelName)
    && (forall j :: 0 <= j < |keys| ==> Plain(keys[j]))
    && (forall i, k :: 0 <= i < |data| && k in data[i] ==> Plain(Show(data[i][k], floatRepr)))
  }

  /** `dicts_to_html_table(data, model_name="")`: when nothing in it needs
      escaping, its text reads back as the table of the dicts. */
  function DictsToHtmlTable(data: seq<map<string, Value>>, modelName: string := "", keys: seq<string>,
                            floatRepr: bv64 -> string): (html: string)
    requires Enumerates(keys, UnionKeys(data))
    ensures PlainDicts(data, modelName, keys, floatRepr) ==>
              ParseTable(html).Some? && DescribesDicts(ParseTable(html).value, data, modelName, floatRepr)
  {
    var t := DictsTable(data, modelName, keys, floatRepr);
    assert PlainDicts(data, modelName, keys, floatRepr) ==> ParseTable(RenderTable(t)) == Some(t) by {
      if PlainDicts(data, modelName, keys, floatRepr) {
        DictsTablePlain(data, modelName, keys, floatRepr);
        TableRoundTrip(t);
      }
    }
    DictsTableDescribes(data, modelName, keys, floatRepr);
    RenderTable(t)
  }

  /** Digits are plain text. */
  lemma NatToStringPlain(n: nat)
    ensures Plain(NatToString(n)) && Plain(IntToString(n))
  {
    var s := NatToString(n);
    forall i | 0 <= i < |s|
      ensures s[i] != '<'
    {
      assert IsDigit(s[i]);
    }
  }

  /** `t` is the table of `data`: one column per dict headed `<model> <n>`,
      one row per key of any dict, each key once, and in row `key`, column
      `n`, the n-th dict's value for the key or nothing. */
  ghost predicate DescribesDicts(t: Table, data: seq<map<string, Value>>, modelName: string, floatRepr: bv64 -> string)
  {
    && |t.header| == |data|
    && (forall i :: 0 <= i < |data| ==> t.header[i] == ColumnHeading(modelName, i))
    && (forall k :: k in UnionKeys(data) <==> exists j :: 0 <= j < |t.rows| && t.rows[j].title == k)
    && (forall j1, j2 :: 0 <= j1 < j2 < |t.rows| ==> t.rows[j1].title != t.rows[j2].title)
    && (forall j :: 0 <= j < |t.rows| ==> |t.rows[j].cells| == |data|)
    && (forall j, i :: 0 <= j < |t.rows| && 0 <= i < |data| ==>
          t.rows[j].cells[i] == CellText(data[i], t.rows[j].title, floatRepr))
  }

  lemma DictsTableDescribes(data: seq<map<string, Value>>, modelName: string, keys: seq<string>,
                            floatRepr: bv64 -> string)
    requires Enumerates(keys, UnionKeys(data))
    ensures DescribesDicts(DictsTable(data, modelName, keys, floatRepr), data, modelName, floatRepr)
  {
    var t := DictsTable(data, modelName, keys, floatRepr);
    forall k
      ensures k in UnionKeys(data) <==> exists j :: 0 <= j < |t.rows| && t.rows[j].title == k
    {
      if k in keys {
        var j :| 0 <= j < |keys| && keys[j] == k;
        assert t.rows[j].title == k;
      }
    }
  }

  lemma DictsTablePlain(data: seq<map<string, Value>>, modelName: string, keys: seq<string>,
                        floatRepr: bv64 -> string)
    requires Plain(modelName)
    requires forall j :: 0 <= j < |keys| ==> Plain(keys[j])
    requires forall i, k :: 0 <= i < |data| && k in data[i] ==> Plain(Show(data[i][k], floatRepr))
    ensures PlainTable(DictsTable(data, modelName, keys, floatRepr))
  {
    var t := DictsTable(data, modelName, keys, floatRepr);
    forall i | 0 <= i < |data|
      ensures Plain(t.header[i])
    {
      NatToStringPlain(i + 1);
    }
    forall j | 0 <= j < |t.rows|
      ensures PlainRow(t.rows[j])
    {
      assert forall i :: 0 <= i < |data| ==> Plain(t.rows[j].cells[i]);
    }
  }

  /** Reading the rendered dicts table back gives the table of the dicts:
      every key of every dict is a row, once, holding each dict's value. */
  lemma DictsTableReadsBack(data: seq<map<string, Value>>, modelName: string, keys: seq<string>,
                            floatRepr: bv64 -> string)
    requires Enumerates(keys, UnionKeys(data))
    requires Plain(modelName)
    requires forall j :: 0 <= j < |keys| ==> Plain(keys[j])
    requires forall i, k :: 0 <= i < |data| && k in data[i] ==> Plain(Show(data[i][k], floatRepr))
    ensures ParseTable(DictsToHtmlTable(data, modelName, keys, floatRepr)).Some?
    ensures DescribesDicts(ParseTable(DictsToHtmlTable(data, modelName, keys, floatRepr)).value, data, modelName, floatRepr)
  {
    DictsTablePlain(data, modelName, keys, floatRepr);
    TableRoundTrip(DictsTable(data, modelName, keys, floatRepr));
    DictsTableDescribes(data, modelName, keys, floatRepr);
  }

  const TimestampHeader: seq<string> := ["Experiment id", "Variant id", "Run id", "Timestamp (UTC)"]

  /** `f"Run {i+1}"`: the title of the i-th run (from zero). */
  function RunLabel(i: nat): string
  {
    "Run " + NatToString(i + 1)
  }

  /** The table `timestamps_to_html_table` draws: a row per experiment id. */
  function TimestampsTable(experimentIds: seq<string>, variantIds: seq<string>, runIds: seq<string>,
                           timestamps: seq<Timestamp>): Table
    requires |variantIds| >= |experimentIds| && |runIds| >= |experimentIds| && |timestamps| >= |experimentIds|
  {
    Table(TimestampHeader,
      seq(|experimentIds|, i requires 0 <= i < |experimentIds| =>
        Row(RunLabel(i), [experimentIds[i], variantIds[i], runIds[i], TimestampToString(timestamps[i])])))
  }

  /** `timestamps_to_html_table(experiment_ids, variant_ids, run_ids,
      timestamps)`: one row per experiment id; a shorter companion list
      raises IndexError, and longer ones are cut to length. */
  function TimestampsToHtmlTable(experimentIds: seq<string>, variantIds: seq<string>, runIds: seq<string>,
                                 timestamps: seq<Timestamp>): (r: Result<string>)
    ensures r.Err? <==> |variantIds| < |experimentIds| || |runIds| < |experimentIds| || |timestamps| < |experimentIds|
    ensures r.Err? ==> r.error == IndexOutOfRange
  {
    if |variantIds| < |experimentIds| || |runIds| < |experimentIds| || |timestamps| < |experimentIds| then
      Err(IndexOutOfRange)
    else
      Ok(RenderTable(TimestampsTable(experimentIds, variantIds, runIds, timestamps)))
  }

  /** `str()` of a timestamp is plain text. */
  lemma TimestampTextPlain(t: Timestamp)
    ensures Plain(TimestampToString(t))
  {
    DigitsChars(t);
  }

  lemma DigitsChars(t: Timestamp)
    ensures forall i :: 0 <= i < |TimestampToString(t)| ==> TimestampToString(t)[i] != '<'
  {
    DigitsAreDigits(t.year, 4);
    DigitsAreDigits(t.month, 2);
    DigitsAreDigits(t.day, 2);
    DigitsAreDigits(t.hour, 2);
    DigitsAreDigits(t.minute, 2);
    DigitsAreDigits(t.second, 2);
    DigitsAreDigits(t.microsecond, 6);
  }

  lemma {:induction false} DigitsAreDigits(n: nat, width: nat)
    ensures forall i :: 0 <= i < |Digits(n, width)| ==> IsDigit(Digits(n, width)[i])
  {
    if width > 0 {
      DigitsAreDigits(n / 10, width - 1);
    }
  }

  /** What the run table says: the four fixed headings, and for the i-th
      run the title `Run <i+1>`, its ids, and its timestamp as `str()` writes
      it, which reads back as that timestamp. */
  ghost predicate DescribesRuns(t: Table, experimentIds: seq<string>, variantIds: seq<string>, runIds: seq<string>,
                                timestamps: seq<Timestamp>)
    requires |variantIds| >= |experimentIds| && |runIds| >= |experimentIds| && |timestamps| >= |experimentIds|
  {
    && t.header == ["Experiment id", "Variant id", "Run id", "Timestamp (UTC)"]
    && |t.rows| == |experimentIds|
    && forall i :: 0 <= i < |experimentIds| ==>
         && t.rows[i].title == "Run " + NatToString(i + 1)
         && |t.rows[i].cells| == 4
         && t.rows[i].cells[..3] == [experimentIds[i], variantIds[i], runIds[i]]
         && (Valid(timestamps[i]) ==> ParseTimestamp(t.rows[i].cells[3]) == Some(timestamps[i]))
  }

  lemma TimestampsTableDescribes(experimentIds: seq<string>, variantIds: seq<string>, runIds: seq<string>,
                                 timestamps: seq<Timestamp>)
    requires |variantIds| >= |experimentIds| && |runIds| >= |experimentIds| && |timestamps| >= |experimentIds|
    ensures DescribesRuns(TimestampsTable(experimentIds, variantIds, runIds, timestamps),
                          experimentIds, variantIds, runIds, timestamps)
  {
    var t := TimestampsTable(experimentIds, variantIds, runIds, timestamps);
    forall i | 0 <= i < |experimentIds|
      ensures t.rows[i].cells[..3] == [experimentIds[i], variantIds[i], runIds[i]]
      ensures Valid(timestamps[i]) ==> ParseTimestamp(t.rows[i].cells[3]) == Some(timestamps[i])
    {
      if Valid(timestamps[i]) {
        TimestampStringRoundTrip(timestamps[i]);
      }
    }
  }

  lemma TimestampsTablePlain(experimentIds: seq<string>, variantIds: seq<string>, runIds: seq<string>,
                             timestamps: seq<Timestamp>)
    requires |variantIds| >= |experimentIds| && |runIds| >= |experimentIds| && |timestamps| >= |experimentIds|
    requires forall i :: 0 <= i < |experimentIds| ==> Plain(experimentIds[i]) && Plain(variantIds[i]) && Plain(runIds[i])
    ensures PlainTable(TimestampsTable(experimentIds, variantIds, runIds, timestamps))
  {
    var t := TimestampsTable(experimentIds, variantIds, runIds, timestamps);
    forall j | 0 <= j < |t.rows|
      ensures PlainRow(t.rows[j])
    {
      NatToStringPlain(j + 1);
      TimestampTextPlain(timestamps[j]);
      assert Plain(RunLabel(j));
    }
  }

  /** Reading the rendered run table back gives a table describing the runs. */
  lemma TimestampsTableReadsBack(experimentIds: seq<string>, variantIds: seq<string>, runIds: seq<string>,
                                 timestamps: seq<Timestamp>)
    requires |variantIds| >= |experimentIds| && |runIds| >= |experimentIds| && |timestamps| >= |experimentIds|
    requires forall i :: 0 <= i < |experimentIds| ==> Plain(experimentIds[i]) && Plain(variantIds[i]) && Plain(runIds[i])
    ensures TimestampsToHtmlTable(experimentIds, variantIds, runIds, timestamps).Ok?
    ensures ParseTable(TimestampsToHtmlTable(experimentIds, variantIds, runIds, timestamps).value).Some?
    ensures DescribesRuns(ParseTable(TimestampsToHtmlTable(experimentIds, variantIds, runIds, timestamps).value).value,
                          experimentIds, variantIds, runIds, timestamps)
  {
    TimestampsTablePlain(experimentIds, variantIds, runIds, timestamps);
    TableRoundTrip(TimestampsTable(experimentIds, variantIds, runIds, timestamps));
    TimestampsTableDescribes(experimentIds, variantIds, runIds, timestamps);
  }
}
