/** The table handler: a run of lines holding `|` becomes a table with one
    header row; the second line of the run (the delimiter row) is dropped. */
module Tables {
  import opened Text
  import opened Inline
  import opened Lines

  /** The first line at or after `from` without a `|`, or `|lines|`. */
  function TableEnd(lines: seq<string>, from: nat): (k: nat)
    requires from <= |lines|
    decreases |lines| - from
    ensures from <= k <= |lines|
    ensures forall m | from <= m < k :: '|' in lines[m]
    ensures k < |lines| ==> '|' !in lines[k]
  {
    if from == |lines| || '|' !in lines[from] then from else TableEnd(lines, from + 1)
  }

  /** Python's `parts[1:-1]`. */
  function Inner(parts: seq<string>): (r: seq<string>)
    ensures |parts| >= 2 ==> r == parts[1..|parts| - 1]
    ensures |parts| < 2 ==> r == []
  {
    if |parts| >= 2 then parts[1..|parts| - 1] else []
  }

  /** `[cell.strip() for cell in line.split('|')[1:-1]]`: the first and last
      fragments are dropped whatever they hold. */
  function Cells(line: string): (cells: seq<string>)
    ensures '|' in line ==> |cells| == Count(line, '|') - 1
    ensures '|' !in line ==> cells == []
    ensures forall k | 0 <= k < |cells| :: '|' !in cells[k]
    ensures forall k | 0 <= k < |cells| :: |cells[k]| > 0 ==> !IsSpace(cells[k][0]) && !IsSpace(cells[k][|cells[k]| - 1])
  {
    var inner := Inner(Split(line, '|'));
    var cells := seq(|inner|, k requires 0 <= k < |inner| => Strip(inner[k]));
    forall k | 0 <= k < |cells|
      ensures '|' !in cells[k]
    {
      StripKeepsOut(inner[k], '|');
    }
    cells
  }

  /** Cell `k` is the stripped text between the `k + 1`-th and the
      `k + 2`-th `|` of the line. */
  lemma CellText(line: string)
    ensures '|' in line ==> |Cells(line)| == Count(line, '|') - 1
    ensures '|' !in line ==> Cells(line) == []
    ensures forall k | 0 <= k < |Cells(line)| :: Cells(line)[k] == Strip(Split(line, '|')[k + 1])
  {
    var parts := Split(line, '|');
    var inner := Inner(parts);
    var cells := Cells(line);
    assert cells == seq(|inner|, k requires 0 <= k < |inner| => Strip(inner[k]));
    forall k | 0 <= k < |cells|
      ensures cells[k] == Strip(parts[k + 1])
    {
      assert inner[k] == parts[k + 1];
    }
  }

  /** A row written as `|`, the cells separated by `|`, and `|` gives back
      its cells, when they hold no `|` and no surrounding whitespace. */
  lemma CellsRoundTrip(cells: seq<string>)
    requires |cells| >= 1
    requires forall k | 0 <= k < |cells| :: '|' !in cells[k] && Strip(cells[k]) == cells[k]
    ensures Cells("|" + Join(cells, "|") + "|") == cells
  {
    SplitFramed(cells, '|');
    CellsOfPieces("|" + Join(cells, "|") + "|", cells);
  }

  lemma CellsOfPieces(line: string, cells: seq<string>)
    requires Split(line, '|') == [[]] + cells + [[]]
    requires forall k | 0 <= k < |cells| :: Strip(cells[k]) == cells[k]
    ensures Cells(line) == cells
  {
    CellText(line);
    var r := Cells(line);
    assert forall k | 0 <= k < |r| :: r[k] == Strip(cells[k]);
  }

  /** Stripping adds no character. */
  lemma StripKeepsOut(s: string, c: char)
    requires c !in s
    ensures c !in Strip(s)
  {
    var a := LeadingSpaces(s);
    var r := Strip(s);
    forall k | 0 <= k < |r|
      ensures r[k] != c
    {
      assert r[k] == s[a + k];
    }
  }

  datatype Table = Table(header: seq<string>, body: seq<seq<string>>)

  /** The header comes from the first line and the body rows from the
      third line on. */
  function ParseTable(run: seq<string>): (t: Table)
    requires |run| >= 2
    ensures t.header == Cells(run[0])
    ensures |t.body| == |run| - 2
    ensures forall k | 0 <= k < |t.body| :: t.body[k] == Cells(run[k + 2])
  {
    Table(Cells(run[0]), BodyRows(run, |run|))
  }

  /** The cells of lines 2 to `k - 1` of the run, one row per line. */
  function BodyRows(run: seq<string>, k: nat): (rows: seq<seq<string>>)
    requires 2 <= k <= |run|
    decreases k
    ensures |rows| == k - 2
    ensures forall j | 0 <= j < k - 2 :: rows[j] == Cells(run[j + 2])
  {
    if k == 2 then []
    else
      var prev := BodyRows(run, k - 1);
      var rows := prev + [Cells(run[k - 1])];
      assert forall j | 0 <= j < k - 3 :: rows[j] == prev[j];
      rows
  }

  /** One cell formatted inside `tag`, on a line of its own. */
  function CellHtml(tag: string, cell: string): string {
    "<" + tag + ">" + ConvertInline(cell) + "</" + tag + ">\n"
  }

  /** The first `k` cells of a row, in order. */
  function CellsHtml(tag: string, cells: seq<string>, k: nat): string
    requires k <= |cells|
  {
    if k == 0 then [] else CellsHtml(tag, cells, k - 1) + CellHtml(tag, cells[k - 1])
  }

  function RowHtml(tag: string, cells: seq<string>): string {
    "<tr>\n" + CellsHtml(tag, cells, |cells|) + "</tr>\n"
  }

  /** The first `r` body rows, in order. */
  function RowsHtml(rows: seq<seq<string>>, r: nat): string
    requires r <= |rows|
  {
    if r == 0 then [] else RowsHtml(rows, r - 1) + RowHtml("td", rows[r - 1])
  }

  function TableHtml(t: Table): string {
    "<table>\n<tbody>\n" + RowHtml("th", t.header) + RowsHtml(t.body, |t.body|) + "</tbody>\n</table>"
  }

  /** What the handler returns: the table, or the first line itself when
      the run is shorter than two lines. */
  function TableText(lines: seq<string>, start: nat): string
    requires start < |lines|
  {
    var run := lines[start..TableEnd(lines, start)];
    if |run| < 2 then lines[start] else TableHtml(ParseTable(run))
  }

  lemma TableEndAt(lines: seq<string>, from: nat, k: nat)
    requires from <= k <= |lines|
    requires k < |lines| ==> '|' !in lines[k]
    requires forall m | from <= m < k :: '|' in lines[m]
    ensures TableEnd(lines, from) == k
  {
  }

  /** One row: `<tr>`, a line per cell, `</tr>`. */
  method RenderRow(tag: string, cells: seq<string>) returns (html: string)
    ensures html == RowHtml(tag, cells)
  {
    var body: string := [];
    for k := 0 to |cells|
      invariant body == CellsHtml(tag, cells, k)
    {
      body := body + CellHtml(tag, cells[k]);
    }
    html := "<tr>\n" + body + "</tr>\n";
  }

  /** `_process_table`. */
  method ProcessTable(lines: seq<string>, start: nat) returns (next: nat, text: string)
    requires start < |lines|
    ensures next == TableEnd(lines, start)
    ensures text == TableText(lines, start)
  {
    var tableLines: seq<string> := [];
    var i := start;
    while i < |lines| && '|' in lines[i]
      invariant start <= i <= |lines|
      invariant forall m | start <= m < i :: '|' in lines[m]
      invariant tableLines == lines[start..i]
    {
      tableLines := tableLines + [lines[i]];
      i := i + 1;
    }
    TableEndAt(lines, start, i);
    next := i;
    if |tableLines| < 2 {
      text := lines[start];
      return;
    }
    var header := Cells(tableLines[0]);
    var bodyRows: seq<seq<string>> := [];
    for k := 2 to |tableLines|
      invariant bodyRows == BodyRows(tableLines, k)
    {
      bodyRows := bodyRows + [Cells(tableLines[k])];
    }
    text := RenderTable(Table(header, bodyRows));
  }

  /** The rendering part of `_process_table`: the header row, then one row
      per body line. */
  method RenderTable(t: Table) returns (html: string)
    ensures html == TableHtml(t)
  {
    var header := RenderRow("th", t.header);
    var body := RenderRows(t.body);
    html := "<table>\n<tbody>\n" + header + body + "</tbody>\n</table>";
  }

  /** The body rows, one after another. */
  method RenderRows(rows: seq<seq<string>>) returns (html: string)
    ensures html == RowsHtml(rows, |rows|)
  {
    html := [];
    for r := 0 to |rows|
      invariant html == RowsHtml(rows, r)
    {
      var row := RenderRow("td", rows[r]);
      html := html + row;
    }
  }

  /** When the scanner starts a table, the line under the first one is a
      delimiter row, which holds a `|`: the run has at least two lines and
      the single-line fallback is never taken. */
  lemma TriggeredTableHasTwoLines(lines: seq<string>, i: nat)
    requires i + 1 < |lines| && '|' in lines[i] && DelimRow(lines[i + 1])
    ensures TableEnd(lines, i) >= i + 2
    ensures TableText(lines, i) == TableHtml(ParseTable(lines[i..TableEnd(lines, i)]))
  {
    DelimRowHasBar(lines[i + 1]);
    assert TableEnd(lines, i) == TableEnd(lines, i + 1);
    assert TableEnd(lines, i + 1) == TableEnd(lines, i + 2);
  }

  /** The table has one body row per line after the delimiter row, and
      each row has one cell fewer than its line has `|` characters. */
  lemma TableShape(lines: seq<string>, start: nat)
    requires start < |lines| && TableEnd(lines, start) - start >= 2
    ensures var run := lines[start..TableEnd(lines, start)];
      var t := ParseTable(run);
      && |t.body| == |run| - 2
      && |t.header| == Count(run[0], '|') - 1
      && forall k | 0 <= k < |t.body| :: |t.body[k]| == Count(run[k + 2], '|') - 1
  {
    var run := lines[start..TableEnd(lines, start)];
    assert forall k | 0 <= k < |run| :: run[k] == lines[start + k];
  }
}
