/** The copy of `dicts_to_html_table` in `render_html.py`, written as the
    loops the source runs: collect the keys, append the header cells, then
    one row of cells per key. It builds exactly the table `HtmlUtil` defines. */
module RenderHtml {
  import opened Strings
  import opened Artifacts
  import opened Decimal
  import opened HtmlUtil

  method DictsToHtmlTable(data: seq<map<string, Value>>, modelName: string := "", order: seq<string>,
                          floatRepr: bv64 -> string) returns (html: string)
    requires Enumerates(order, UnionKeys(data))
    ensures html == HtmlUtil.DictsToHtmlTable(data, modelName, order, floatRepr)
  {
    // `order` is the iteration order of the key set collected here.
    var keys := CollectKeys(data);
    assert Enumerates(order, keys);
    var header := HeaderCells(data, modelName);
    var rows := DataRows(data, order, floatRepr);
    html := "<table><tr><th></th>" + header + "</tr>" + rows + "</table>";
    RenderTableParts(DictsTable(data, modelName, order, floatRepr));
  }

  /** One row per key, in the order given. */
  method DataRows(data: seq<map<string, Value>>, order: seq<string>, floatRepr: bv64 -> string) returns (html: string)
    ensures html == RenderRows(DictsRows(data, order, floatRepr))
  {
    ghost var rows := DictsRows(data, order, floatRepr);
    html := "";
    for j := 0 to |order|
      invariant html == RenderRows(rows[..j])
    {
      var row := DataRow(order[j], data, floatRepr);
      RenderRowsSnoc(rows[..j], rows[j]);
      assert rows[..j + 1] == rows[..j] + [rows[j]];
      html := html + row;
    }
    assert rows[..|order|] == rows;
  }

  /** The set of every key of any dict. */
  method CollectKeys(data: seq<map<string, Value>>) returns (keys: set<string>)
    ensures forall k :: k in keys <==> exists i :: 0 <= i < |data| && k in data[i]
    ensures keys == UnionKeys(data)
  {
    keys := {};
    for i := 0 to |data|
      invariant keys == UnionKeys(data[..i])
    {
      assert data[..i + 1][..i] == data[..i];
      keys := keys + data[i].Keys;
    }
    assert data[..|data|] == data;
  }

  /** The header cells after the corner: `<th>{model_name} {i+1}</th>` for
      each column. */
  method HeaderCells(data: seq<map<string, Value>>, modelName: string) returns (html: string)
    ensures html == Cells("th", DictsHeader(data, modelName))
  {
    var n := |data|;
    ghost var heads := DictsHeader(data, modelName);
    html := "";
    for i := 0 to n
      invariant html == Cells("th", heads[..i])
    {
      var cell := "<th>" + (modelName + " " + NatToString(i + 1)) + "</th>";
      TagSpelled("th", heads[i]);
      CellsSnoc("th", heads[..i], heads[i]);
      assert heads[..i + 1] == heads[..i] + [heads[i]];
      html := html + cell;
    }
    assert heads[..n] == heads;
  }

  /** One data row: `<tr><td>{key}</td>` then `<td>{value}</td>` per dict,
      the value being empty where the dict lacks the key. */
  method DataRow(key: string, data: seq<map<string, Value>>, floatRepr: bv64 -> string) returns (html: string)
    ensures html == RenderRow(DictsRow(data, key, floatRepr))
  {
    ghost var cells := seq(|data|, i requires 0 <= i < |data| => CellText(data[i], key, floatRepr));
    var body := "<td>" + key + "</td>";
    TagSpelled("td", key);
    assert body == Cells("td", [key] + cells[..0]);
    for i := 0 to |data|
      invariant body == Cells("td", [key] + cells[..i])
    {
      var value := if key in data[i] then Show(data[i][key], floatRepr) else "";
      var cell := "<td>" + value + "</td>";
      TagSpelled("td", cells[i]);
      CellsSnoc("td", [key] + cells[..i], cells[i]);
      assert [key] + cells[..i + 1] == [key] + cells[..i] + [cells[i]];
      body := body + cell;
    }
    assert cells[..|data|] == cells;
    html := "<tr>" + body + "</tr>";
  }
}
