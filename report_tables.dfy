/** The table pass of the report converter (utils/convert_md_to_html.py):
    `convert_tables` collects maximal runs of pipe lines and `process_table`
    renders each run as one HTML table. */
module ReportTables {
  import opened Text
  import opened LineRuns

  /** A line joins a table run when it holds a `|` and, stripped, starts with one. */
  predicate IsTableLine(line: string) {
    '|' in line && StartsWith(Strip(line), "|")
  }

  /** `line.split('|')[1:-1]`: the pieces strictly between the first and the last `|`. */
  function InnerPieces(line: string): seq<string> {
    var parts := Split(line, '|');
    if |parts| < 2 then [] else parts[1..|parts| - 1]
  }

  /** `[cell.strip() for cell in line.split('|')[1:-1]]`. */
  function Cells(line: string): seq<string> {
    var pieces := InnerPieces(line);
    seq(|pieces|, j requires 0 <= j < |pieces| => Strip(pieces[j]))
  }

  /** What a table of at least two lines is read as: header cells from the first
      line, the second line skipped, one row of cells per further line. Rows keep
      their own cell count; nothing is padded or rejected. */
  datatype TableModel = TableModel(header: seq<string>, body: seq<seq<string>>)

  function ParseTable(lines: seq<string>): (t: TableModel)
    requires |lines| >= 2
    ensures t.header == Cells(lines[0])
    ensures |t.body| == |lines| - 2
    ensures forall j :: 0 <= j < |t.body| ==> t.body[j] == Cells(lines[j + 2])
  {
    TableModel(Cells(lines[0]), RowsOf(lines[2..]))
  }

  /** The cells of each line. */
  function RowsOf(ls: seq<string>): (rows: seq<seq<string>>)
    ensures |rows| == |ls|
    ensures forall j :: 0 <= j < |ls| ==> rows[j] == Cells(ls[j])
  {
    seq(|ls|, j requires 0 <= j < |ls| => Cells(ls[j]))
  }

  /** `<tag>cell</tag>`. */
  function Wrap(tag: string, cell: string): string {
    "<" + tag + ">" + cell + "</" + tag + ">"
  }

  /** One line `<tag>cell</tag>` per cell. */
  function Tagged(tag: string, cells: seq<string>): (r: seq<string>)
    ensures |r| == |cells|
  {
    seq(|cells|, j requires 0 <= j < |cells| => Wrap(tag, cells[j]))
  }

  function RowLines(row: seq<string>): seq<string> {
    ["<tr>"] + Tagged("td", row) + ["</tr>"]
  }

  function BodyLines(body: seq<seq<string>>): seq<string> {
    if body == [] then [] else RowLines(body[0]) + BodyLines(body[1..])
  }

  const TableHead: seq<string> := ["<table>", "<thead>", "<tr>"]
  const HeadToBody: seq<string> := ["</tr>", "</thead>", "<tbody>"]
  const TableFoot: seq<string> := ["</tbody>", "</table>"]

  /** The lines of the HTML `process_table` writes for a table model. */
  function TableLines(t: TableModel): seq<string> {
    TableHead + Tagged("th", t.header) + HeadToBody + BodyLines(t.body) + TableFoot
  }

  /** What `process_table` returns: the lines joined unchanged for fewer than two
      lines, otherwise the rendered table, every line ended by a newline. */
  function TableHtml(lines: seq<string>): string {
    if |lines| < 2 then Join(lines) else Unlines(TableLines(ParseTable(lines)))
  }

  lemma BodyLinesSnoc(body: seq<seq<string>>, row: seq<string>)
    ensures BodyLines(body + [row]) == BodyLines(body) + RowLines(row)
  {
    if body == [] {
      assert BodyLines([row][1..]) == [];
    } else {
      assert (body + [row])[1..] == body[1..] + [row];
      BodyLinesSnoc(body[1..], row);
    }
  }

  /** One more cell line, after the lines already written. */
  lemma TaggedStep(before: seq<string>, tag: string, cells: seq<string>, i: nat)
    requires i < |cells|
    ensures before + Tagged(tag, cells[..i + 1]) == before + Tagged(tag, cells[..i]) + [Wrap(tag, cells[i])]
  {
    assert Tagged(tag, cells[..i + 1]) == Tagged(tag, cells[..i]) + [Wrap(tag, cells[i])];
  }

  lemma UnlinesSnoc(ls: seq<string>, x: string)
    ensures Unlines(ls + [x]) == Unlines(ls) + x + "\n"
  {
    assert (ls + [x])[..|ls|] == ls;
  }

  lemma UnlinesFixed()
    ensures Unlines(TableHead) == "<table>\n<thead>\n<tr>\n"
    ensures Unlines(HeadToBody) == "</tr>\n</thead>\n<tbody>\n"
    ensures Unlines(TableFoot) == "</tbody>\n</table>\n"
  {
    UnlinesThree("<table>", "<thead>", "<tr>");
    UnlinesThree("</tr>", "</thead>", "<tbody>");
    UnlinesTwo("</tbody>", "</table>");
  }

  lemma UnlinesTwo(a: string, b: string)
    ensures Unlines([a, b]) == a + "\n" + b + "\n"
  {
    UnlinesSnoc([], a);
    UnlinesSnoc([a], b);
  }

  lemma UnlinesThree(a: string, b: string, c: string)
    ensures Unlines([a, b, c]) == a + "\n" + b + "\n" + c + "\n"
  {
    UnlinesTwo(a, b);
    UnlinesSnoc([a, b], c);
    assert [a, b] + [c] == [a, b, c];
  }

  /** `process_table`: builds the HTML string with `+=`, header cells first,
      then one row per line after the separator. */
  method ProcessTable(lines: seq<string>) returns (html: string)
    ensures |lines| < 2 ==> html == Join(lines)
    ensures |lines| >= 2 ==> html == Unlines(TableLines(ParseTable(lines)))
  {
    if |lines| < 2 {
      return Join(lines);
    }
    var header := Cells(lines[0]);
    var dataLines := lines[2..];
    UnlinesFixed();
    html := "<table>\n<thead>\n<tr>\n";
    html := AppendTagged(html, TableHead, "th", header);
    ghost var head := TableHead + Tagged("th", header) + HeadToBody;
    UnlinesAppend(TableHead + Tagged("th", header), HeadToBody);
    html := html + "</tr>\n</thead>\n<tbody>\n";
    html := AppendRows(html, head, dataLines);
    UnlinesAppend(head + BodyLines(RowsOf(dataLines)), TableFoot);
    html := html + "</tbody>\n</table>\n";
  }

  /** `process_table`'s row loop: one `<tr>` group per line, in order. */
  method AppendRows(html: string, ghost head: seq<string>, dataLines: seq<string>) returns (out: string)
    requires html == Unlines(head)
    ensures out == Unlines(head + BodyLines(RowsOf(dataLines)))
  {
    ghost var body := RowsOf(dataLines);
    out := html;
    var j := 0;
    assert head + BodyLines(body[..0]) == head;
    while j < |dataLines|
      invariant 0 <= j <= |dataLines|
      invariant out == Unlines(head + BodyLines(body[..j]))
    {
      out := AppendRow(out, head + BodyLines(body[..j]), dataLines[j]);
      RowStep(head, body, j, dataLines[j]);
      j := j + 1;
    }
    assert body[..j] == body;
  }

  lemma RowStep(head: seq<string>, body: seq<seq<string>>, j: nat, line: string)
    requires j < |body| && Cells(line) == body[j]
    ensures head + BodyLines(body[..j]) + RowLines(Cells(line)) == head + BodyLines(body[..j + 1])
  {
    assert body[..j + 1] == body[..j] + [body[j]];
    BodyLinesSnoc(body[..j], body[j]);
  }

  /** Writes one `<tag>cell</tag>` line per cell, in order. */
  method AppendTagged(html: string, ghost before: seq<string>, tag: string, cells: seq<string>)
    returns (out: string)
    requires html == Unlines(before)
    ensures out == Unlines(before + Tagged(tag, cells))
  {
    out := html;
    var k := 0;
    ghost var acc := before;
    assert before + Tagged(tag, cells[..0]) == acc;
    while k < |cells|
      invariant 0 <= k <= |cells|
      invariant acc == before + Tagged(tag, cells[..k])
      invariant out == Unlines(acc)
    {
      TaggedStep(before, tag, cells, k);
      UnlinesSnoc(acc, Wrap(tag, cells[k]));
      out := out + Wrap(tag, cells[k]) + "\n";
      acc := acc + [Wrap(tag, cells[k])];
      k := k + 1;
    }
    assert cells[..k] == cells;
  }

  /** The body of `process_table`'s row loop: one `<tr>` group for one line. */
  method AppendRow(html: string, ghost written: seq<string>, line: string) returns (html': string)
    requires html == Unlines(written)
    ensures html' == Unlines(written + RowLines(Cells(line)))
  {
    var cells := Cells(line);
    ghost var rowOpen := written + ["<tr>"];
    UnlinesSnoc(written, "<tr>");
    AppendLine(html, "<tr>", "<tr>\n");
    var withOpen := html + "<tr>\n";
    ghost var rowFilled := rowOpen + Tagged("td", cells);
    var withCells := AppendTagged(withOpen, rowOpen, "td", cells);
    UnlinesSnoc(rowFilled, "</tr>");
    AppendLine(withCells, "</tr>", "</tr>\n");
    html' := withCells + "</tr>\n";
    RowLinesAfter(written, cells);
  }

  /** Appending a line's text with its newline in one piece. */
  lemma AppendLine(a: string, x: string, xn: string)
    requires xn == x + "\n"
    ensures a + xn == a + x + "\n"
  {
  }

  lemma RowLinesAfter(written: seq<string>, cells: seq<string>)
    ensures written + ["<tr>"] + Tagged("td", cells) + ["</tr>"] == written + RowLines(cells)
  {
  }

  // Reading the rendered lines back: the inverse that pins down what the
  // table lines hold.

  /** The text inside `<tag>…</tag>`, if `line` has that shape. */
  function Untag(line: string, tag: string): Option<string> {
    var open, close := "<" + tag + ">", "</" + tag + ">";
    if |line| >= |open| + |close| && line[..|open|] == open && line[|line| - |close|..] == close
    then Some(line[|open|..|line| - |close|])
    else None
  }

  /** The cells of the leading `<tag>…</tag>` lines, and the lines after them. */
  function ReadTagged(ls: seq<string>, tag: string): (r: (seq<string>, seq<string>))
    ensures |r.1| <= |ls|
  {
    if ls != [] && Untag(ls[0], tag).Some? then
      var rest := ReadTagged(ls[1..], tag);
      ([Untag(ls[0], tag).value] + rest.0, rest.1)
    else ([], ls)
  }

  /** The rows of the leading `<tr>`…`</tr>` groups, and the lines after them. */
  function ReadBody(ls: seq<string>): (r: (seq<seq<string>>, seq<string>))
    decreases |ls|
  {
    if ls != [] && ls[0] == "<tr>" then
      var (cells, rest) := ReadTagged(ls[1..], "td");
      if rest != [] && rest[0] == "</tr>" then
        var more := ReadBody(rest[1..]);
        ([cells] + more.0, more.1)
      else ([], ls)
    else ([], ls)
  }

  /** The table model that rendered lines show, if they have the table's shape. */
  function ReadTable(ls: seq<string>): Option<TableModel> {
    if |ls| >= 3 && ls[..3] == TableHead then
      var (header, rest) := ReadTagged(ls[3..], "th");
      if |rest| >= 3 && rest[..3] == HeadToBody then
        var (body, tail) := ReadBody(rest[3..]);
        if tail == TableFoot then Some(TableModel(header, body)) else None
      else None
    else None
  }

  lemma UntagTagged(tag: string, c: string)
    ensures Untag("<" + tag + ">" + c + "</" + tag + ">", tag) == Some(c)
  {
    var line := "<" + tag + ">" + c + "</" + tag + ">";
    assert line[..|tag| + 2] == "<" + tag + ">";
    assert line[|line| - (|tag| + 3)..] == "</" + tag + ">";
    assert line[|tag| + 2..|line| - (|tag| + 3)] == c;
  }

  lemma {:induction false} ReadTaggedCells(tag: string, cells: seq<string>, rest: seq<string>)
    requires rest == [] || Untag(rest[0], tag).None?
    ensures ReadTagged(Tagged(tag, cells) + rest, tag) == (cells, rest)
  {
    var ls := Tagged(tag, cells) + rest;
    if cells == [] {
      assert ls == rest;
    } else {
      UntagTagged(tag, cells[0]);
      assert ls[0] == "<" + tag + ">" + cells[0] + "</" + tag + ">";
      assert ls[1..] == Tagged(tag, cells[1..]) + rest;
      ReadTaggedCells(tag, cells[1..], rest);
      assert [cells[0]] + cells[1..] == cells;
    }
  }

  /** Reading one `<tr>` group off the front. */
  lemma ReadBodyStep(cells: seq<string>, more: seq<string>)
    ensures ReadBody(RowLines(cells) + more) == ([cells] + ReadBody(more).0, ReadBody(more).1)
  {
    var after := ["</tr>"] + more;
    var ls := RowLines(cells) + more;
    assert ls == ["<tr>"] + (Tagged("td", cells) + after);
    assert ls[1..] == Tagged("td", cells) + after;
    ReadTaggedCells("td", cells, after);
    assert after[1..] == more;
  }

  lemma {:induction false} ReadBodyRows(body: seq<seq<string>>, tail: seq<string>)
    requires tail == [] || tail[0] != "<tr>"
    ensures ReadBody(BodyLines(body) + tail) == (body, tail)
  {
    if body == [] {
      assert BodyLines(body) + tail == tail;
    } else {
      assert BodyLines(body) + tail == RowLines(body[0]) + (BodyLines(body[1..]) + tail);
      ReadBodyStep(body[0], BodyLines(body[1..]) + tail);
      ReadBodyRows(body[1..], tail);
      assert [body[0]] + body[1..] == body;
    }
  }

  /** Reading the rendered lines gives the table model back: one `<th>` line per
      header cell and one `<tr>` group with one `<td>` line per cell for each
      row, all in order. */
  lemma TableRoundTrip(t: TableModel)
    ensures ReadTable(TableLines(t)) == Some(t)
  {
    var ls := TableLines(t);
    var afterHead := HeadToBody + BodyLines(t.body) + TableFoot;
    ReadHeader(t, afterHead);
    ReadBodyRows(t.body, TableFoot);
    ReadAfterHeader(afterHead, t.body);
  }

  lemma ReadHeader(t: TableModel, afterHead: seq<string>)
    requires afterHead == HeadToBody + BodyLines(t.body) + TableFoot
    ensures TableLines(t)[..3] == TableHead
    ensures ReadTagged(TableLines(t)[3..], "th") == (t.header, afterHead)
  {
    var ls := TableLines(t);
    assert ls == TableHead + (Tagged("th", t.header) + afterHead);
    assert ls[3..] == Tagged("th", t.header) + afterHead;
    ReadTaggedCells("th", t.header, afterHead);
  }

  lemma ReadAfterHeader(afterHead: seq<string>, body: seq<seq<string>>)
    requires afterHead == HeadToBody + BodyLines(body) + TableFoot
    ensures afterHead[..3] == HeadToBody
    ensures afterHead[3..] == BodyLines(body) + TableFoot
  {
  }

  /** Each run of table lines is replaced by what `process_table` makes of it;
      every other line is kept. */
  function RenderBlock(b: Block): string {
    match b
    case Run(ls) => TableHtml(ls)
    case Single(l) => l
  }

  function RenderBlocks(bs: seq<Block>): (r: seq<string>)
    ensures |r| == |bs|
    ensures forall j :: 0 <= j < |bs| ==> r[j] == RenderBlock(bs[j])
  {
    if bs == [] then [] else RenderBlocks(bs[..|bs| - 1]) + [RenderBlock(bs[|bs| - 1])]
  }

  /** What `convert_tables` returns. */
  function TablePass(html: string): string {
    Join(RenderBlocks(Blocks(Lines(html), IsTableLine)))
  }

  /** The state of `convert_tables` after the lines `seen`: the open table run
      is buffered, everything before it is already in `result`. */
  ghost predicate TableScanState(seen: seq<string>, result: seq<string>, inTable: bool, tableLines: seq<string>) {
    var bs := Blocks(seen, IsTableLine);
    (inTable <==> bs != [] && bs[|bs| - 1].Run?) &&
    (inTable ==> tableLines == bs[|bs| - 1].lines && tableLines != [] && result == RenderBlocks(bs[..|bs| - 1])) &&
    (!inTable ==> result == RenderBlocks(bs))
  }

  /** A table line extends the open run, or opens one. */
  lemma ScanTableLine(seen: seq<string>, result: seq<string>, inTable: bool, tableLines: seq<string>, line: string)
    requires TableScanState(seen, result, inTable, tableLines) && IsTableLine(line)
    ensures TableScanState(seen + [line], result, true, (if inTable then tableLines else []) + [line])
  {
    if inTable {
      ScanTableLineInRun(seen, result, tableLines, line);
    } else {
      ScanTableLineOpens(seen, result, tableLines, line);
      assert [] + [line] == [line];
    }
  }

  lemma ScanTableLineOpens(seen: seq<string>, result: seq<string>, tableLines: seq<string>, line: string)
    requires TableScanState(seen, result, false, tableLines) && IsTableLine(line)
    ensures TableScanState(seen + [line], result, true, [line])
  {
    var bs := Blocks(seen, IsTableLine);
    BlocksOpenRun(seen, line, IsTableLine);
    assert (bs + [Run([line])])[..|bs|] == bs;
  }

  lemma ScanTableLineInRun(seen: seq<string>, result: seq<string>, tableLines: seq<string>, line: string)
    requires TableScanState(seen, result, true, tableLines) && IsTableLine(line)
    ensures TableScanState(seen + [line], result, true, tableLines + [line])
  {
    var bs := Blocks(seen, IsTableLine);
    BlocksExtendRun(seen, line, IsTableLine);
    var bs' := bs[..|bs| - 1] + [Run(tableLines + [line])];
    assert bs'[..|bs'| - 1] == bs[..|bs| - 1];
  }

  /** Any other line closes the open run, whose table goes out first, and is kept. */
  lemma ScanOtherLine(seen: seq<string>, result: seq<string>, inTable: bool, tableLines: seq<string>, line: string)
    requires TableScanState(seen, result, inTable, tableLines) && !IsTableLine(line)
    ensures TableScanState(seen + [line], (if inTable && tableLines != [] then result + [TableHtml(tableLines)] else result) + [line], false, [])
  {
    var bs := Blocks(seen, IsTableLine);
    BlocksAddSingle(seen, line, IsTableLine);
    assert (bs + [Single(line)])[..|bs|] == bs;
    if inTable {
      assert bs == bs[..|bs| - 1] + [Run(tableLines)];
    }
  }

  /** At the end of input the open run, if any, is the last block. */
  lemma ScanEnd(seen: seq<string>, result: seq<string>, inTable: bool, tableLines: seq<string>)
    requires TableScanState(seen, result, inTable, tableLines)
    ensures RenderBlocks(Blocks(seen, IsTableLine)) == if inTable then result + [TableHtml(tableLines)] else result
  {
    var bs := Blocks(seen, IsTableLine);
    if inTable {
      assert bs == bs[..|bs| - 1] + [Run(tableLines)];
    }
  }

  /** The body of `convert_tables`' loop for one line: a table line opens
      the buffer if needed and joins it; any other line flushes the buffered
      table through `process_table`, if one is open, and is kept. */
  method TableStep(line: string, result: seq<string>, inTable: bool, tableLines: seq<string>)
    returns (result': seq<string>, inTable': bool, tableLines': seq<string>)
    ensures IsTableLine(line) ==>
      result' == result && inTable' && tableLines' == (if inTable then tableLines else []) + [line]
    ensures !IsTableLine(line) ==>
      result' == (if inTable && tableLines != [] then result + [TableHtml(tableLines)] else result) + [line] &&
      (if inTable && tableLines != [] then !inTable' && tableLines' == []
       else inTable' == inTable && tableLines' == tableLines)
  {
    result', inTable', tableLines' := result, inTable, tableLines;
    if '|' in line && StartsWith(Strip(line), "|") {
      if !inTable' {
        inTable' := true;
        tableLines' := [];
      }
      tableLines' := tableLines' + [line];
    } else {
      if inTable' && tableLines' != [] {
        var table := ProcessTable(tableLines');
        result' := result' + [table];
        tableLines' := [];
        inTable' := false;
      }
      result' := result' + [line];
    }
  }

  /** `convert_tables`: one pass over the lines with an `in_table` flag and a
      buffer of table lines, flushed through `process_table` when a non-table
      line or the end of input is reached. */
  method ConvertTables(html: string) returns (r: string)
    ensures r == TablePass(html)
  {
    var lines := Lines(html);
    var result: seq<string> := [];
    var inTable := false;
    var tableLines: seq<string> := [];
    var i := 0;
    while i < |lines|
      invariant 0 <= i <= |lines|
      invariant TableScanState(lines[..i], result, inTable, tableLines)
    {
      var line := lines[i];
      assert lines[..i + 1] == lines[..i] + [line];
      var result', inTable', tableLines' := TableStep(line, result, inTable, tableLines);
      if IsTableLine(line) {
        ScanTableLine(lines[..i], result, inTable, tableLines, line);
      } else {
        ScanOtherLine(lines[..i], result, inTable, tableLines, line);
      }
      result, inTable, tableLines := result', inTable', tableLines';
      i := i + 1;
    }
    assert lines[..i] == lines;
    ScanEnd(lines, result, inTable, tableLines);
    if inTable && tableLines != [] {
      var table := ProcessTable(tableLines);
      result := result + [table];
    }
    r := Join(result);
  }
}
