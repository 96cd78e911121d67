/** The paragraph pass of the report converter (utils/convert_md_to_html.py):
    `convert_paragraphs` wraps each maximal run of text lines (non-blank, and
    not starting with `<` once stripped) between a `<p>` line and a `</p>`
    line, and passes every other line through unchanged. */
module ReportParagraphs {
  import opened Text
  import opened Regex
  import opened LineRuns

  /** A line the wrapper treats as paragraph text: its first character that
      is not whitespace exists and is not `<`. */
  predicate IsParaText(line: string) {
    var q := SpanEnd(line, 0, IsSpace);
    q < |line| && line[q] != '<'
  }

  /** This is the test on `line.strip()` that `convert_paragraphs` makes. */
  lemma IsParaTextStripped(line: string)
    ensures IsParaText(line) <==> Strip(line) != [] && !StartsWith(Strip(line), "<")
  {
    var s := Strip(line);
    assert IsParaText(line) <==> s != [] && s[0] != '<';
    assert StartsWith(s, "<") <==> s != [] && s[0] == '<' by {
      if s != [] && s[0] == '<' { assert s[..1] == "<"; }
    }
  }

  /** The inserted tags are themselves never paragraph text. */
  lemma TagsNotText()
    ensures !IsParaText("<p>") && !IsParaText("</p>")
  {
  }

  function RenderBlock(b: Block): seq<string> {
    match b
    case Run(ls) => ["<p>"] + ls + ["</p>"]
    case Single(l) => [l]
  }

  function RenderBlocks(bs: seq<Block>): seq<string> {
    if bs == [] then [] else RenderBlocks(bs[..|bs| - 1]) + RenderBlock(bs[|bs| - 1])
  }

  lemma RenderBlocksSnoc(bs: seq<Block>, b: Block)
    ensures RenderBlocks(bs + [b]) == RenderBlocks(bs) + RenderBlock(b)
  {
    assert (bs + [b])[..|bs|] == bs;
  }

  /** The lines `convert_paragraphs` joins, for the lines it split. */
  function ParaLines(lines: seq<string>): seq<string> {
    RenderBlocks(Blocks(lines, IsParaText))
  }

  /** What `convert_paragraphs` returns. */
  function ParagraphPass(html: string): string {
    Join(ParaLines(Lines(html)))
  }

  /** The state of `convert_paragraphs` after the lines `seen`: inside a block,
      the open paragraph's `<p>` and lines are written, its `</p>` is not. */
  ghost predicate ParaScanState(seen: seq<string>, result: seq<string>, inBlock: bool) {
    var bs := Blocks(seen, IsParaText);
    if bs != [] && bs[|bs| - 1].Run? then
      inBlock && result == RenderBlocks(bs[..|bs| - 1]) + ["<p>"] + bs[|bs| - 1].lines
    else
      !inBlock && result == RenderBlocks(bs)
  }

  /** A text line extends the open paragraph, or opens one. */
  lemma ScanTextLine(seen: seq<string>, result: seq<string>, inBlock: bool, line: string)
    requires ParaScanState(seen, result, inBlock) && IsParaText(line)
    ensures ParaScanState(seen + [line], result + (if inBlock then [] else ["<p>"]) + [line], true)
  {
    if inBlock {
      ScanTextInRun(seen, result, line);
    } else {
      ScanTextOpens(seen, result, line);
    }
  }

  lemma ScanTextInRun(seen: seq<string>, result: seq<string>, line: string)
    requires ParaScanState(seen, result, true) && IsParaText(line)
    ensures ParaScanState(seen + [line], result + [line], true)
  {
    var bs := Blocks(seen, IsParaText);
    var front, ls := bs[..|bs| - 1], bs[|bs| - 1].lines;
    BlocksExtendRun(seen, line, IsParaText);
    var bs' := front + [Run(ls + [line])];
    assert bs'[..|bs'| - 1] == front;
  }

  lemma ScanTextOpens(seen: seq<string>, result: seq<string>, line: string)
    requires ParaScanState(seen, result, false) && IsParaText(line)
    ensures ParaScanState(seen + [line], result + ["<p>"] + [line], true)
  {
    var bs := Blocks(seen, IsParaText);
    BlocksOpenRun(seen, line, IsParaText);
    var bs' := bs + [Run([line])];
    assert bs'[..|bs'| - 1] == bs;
  }

  /** Any other line closes the open paragraph and is kept. */
  lemma ScanOtherLine(seen: seq<string>, result: seq<string>, inBlock: bool, line: string)
    requires ParaScanState(seen, result, inBlock) && !IsParaText(line)
    ensures ParaScanState(seen + [line], result + (if inBlock then ["</p>"] else []) + [line], false)
  {
    var bs := Blocks(seen, IsParaText);
    BlocksAddSingle(seen, line, IsParaText);
    RenderBlocksSnoc(bs, Single(line));
    ScanEnd(seen, result, inBlock);
  }

  /** At the end of input, closing the open paragraph completes the rendering. */
  lemma ScanEnd(seen: seq<string>, result: seq<string>, inBlock: bool)
    requires ParaScanState(seen, result, inBlock)
    ensures RenderBlocks(Blocks(seen, IsParaText)) == result + (if inBlock then ["</p>"] else [])
  {
    var bs := Blocks(seen, IsParaText);
    if inBlock {
      var front, ls := bs[..|bs| - 1], bs[|bs| - 1].lines;
      assert bs == front + [Run(ls)];
      RenderBlocksSnoc(front, Run(ls));
    }
  }

  /** The body of `convert_paragraphs`' loop for one line: a line starting
      with `<` once stripped, or a blank one, closes the open paragraph and is
      kept; any other line opens a paragraph if none is open and is kept. */
  method ParaLine(line: string, result: seq<string>, inBlock: bool) returns (result': seq<string>, inBlock': bool)
    ensures IsParaText(line) ==> result' == result + (if inBlock then [] else ["<p>"]) + [line] && inBlock'
    ensures !IsParaText(line) ==> result' == result + (if inBlock then ["</p>"] else []) + [line] && !inBlock'
  {
    var stripped := Strip(line);
    IsParaTextStripped(line);
    result', inBlock' := result, inBlock;
    if StartsWith(stripped, "<") {
      assert !IsParaText(line);
      if inBlock' {
        result' := result' + ["</p>"];
        inBlock' := false;
      }
      result' := result' + [line];
    } else if stripped != [] {
      assert IsParaText(line);
      if !inBlock' {
        result' := result' + ["<p>"];
        inBlock' := true;
      }
      result' := result' + [line];
    } else {
      assert !IsParaText(line);
      if inBlock' {
        result' := result' + ["</p>"];
        inBlock' := false;
      }
      result' := result' + [line];
    }
  }

  /** `convert_paragraphs`: one pass over the lines with an `in_block` flag,
      then the paragraph still open is closed. */
  method ConvertParagraphs(html: string) returns (r: string)
    ensures r == ParagraphPass(html)
  {
    var lines := Lines(html);
    var result, inBlock := ScanParagraphs(lines);
    ScanEnd(lines, result, inBlock);
    if inBlock {
      result := result + ["</p>"];
    }
    r := Join(result);
  }

  /** The loop of `convert_paragraphs` over the lines, with its `in_block` flag. */
  method ScanParagraphs(lines: seq<string>) returns (result: seq<string>, inBlock: bool)
    ensures ParaScanState(lines, result, inBlock)
  {
    result, inBlock := [], false;
    var i := 0;
    ghost var seen: seq<string> := [];
    ScanStart();
    while i < |lines|
      invariant 0 <= i <= |lines| && seen == lines[..i]
      invariant ParaScanState(seen, result, inBlock)
    {
      result, inBlock := ParaOne(seen, lines[i], result, inBlock);
      seen := seen + [lines[i]];
      i := i + 1;
    }
    assert seen == lines;
  }

  /** Before any line, nothing is written and no paragraph is open. */
  lemma ScanStart()
    ensures ParaScanState([], [], false)
  {
  }

  /** One turn of the loop keeps the scan state. */
  method ParaOne(ghost seen: seq<string>, line: string, result: seq<string>, inBlock: bool)
    returns (result': seq<string>, inBlock': bool)
    requires ParaScanState(seen, result, inBlock)
    ensures ParaScanState(seen + [line], result', inBlock')
  {
    if IsParaText(line) {
      ScanTextLine(seen, result, inBlock, line);
    } else {
      ScanOtherLine(seen, result, inBlock, line);
    }
    result', inBlock' := ParaLine(line, result, inBlock);
  }

  // Reading the wrapped lines back.

  /** The output lines without the tags the wrapper inserted: a `<p>` right
      before a text line and a `</p>` right after one. `afterText` says
      whether the line before `xs` was text. */
  function Unwrap(xs: seq<string>, afterText: bool): seq<string> {
    if xs == [] then []
    else (if Inserted(xs, afterText) then [] else [xs[0]]) + Unwrap(xs[1..], IsParaText(xs[0]))
  }

  /** Whether the first line of `xs` is a tag the wrapper inserted. */
  predicate Inserted(xs: seq<string>, afterText: bool)
    requires xs != []
  {
    (xs[0] == "<p>" && |xs| > 1 && IsParaText(xs[1])) || (xs[0] == "</p>" && afterText)
  }

  /** Whether the last line of `xs` (or, for none, the line before) is text. */
  function EndsText(xs: seq<string>, afterText: bool): bool {
    if xs == [] then afterText else IsParaText(xs[|xs| - 1])
  }

  /** Lines appended after `a` that start with no text line do not change
      whether `a`'s first line is an inserted tag. */
  lemma InsertedAppend(a: seq<string>, b: seq<string>, afterText: bool)
    requires a != [] && (b == [] || !IsParaText(b[0]))
    ensures Inserted(a + b, afterText) == Inserted(a, afterText)
  {
    assert (a + b)[0] == a[0];
    if |a| > 1 {
      assert (a + b)[1] == a[1];
    } else if b != [] {
      assert (a + b)[1] == b[0];
    }
  }

  lemma {:induction false} UnwrapAppend(a: seq<string>, b: seq<string>, afterText: bool)
    requires b == [] || !IsParaText(b[0])
    ensures Unwrap(a + b, afterText) == Unwrap(a, afterText) + Unwrap(b, EndsText(a, afterText))
  {
    if a == [] {
      assert a + b == b;
    } else {
      var x, rest := a[0], a[1..];
      assert (a + b)[1..] == rest + b;
      assert (a + b)[0] == x;
      InsertedAppend(a, b, afterText);
      UnwrapAppend(rest, b, IsParaText(x));
      var e := EndsText(a, afterText);
      assert EndsText(rest, IsParaText(x)) == e;
      var head := if Inserted(a, afterText) then [] else [x];
      var u1, u2 := Unwrap(rest, IsParaText(x)), Unwrap(b, e);
      assert Unwrap(rest + b, IsParaText(x)) == u1 + u2;
      assert Unwrap(a + b, afterText) == head + (u1 + u2);
      assert Unwrap(a, afterText) == head + u1;
      ConcatAssoc3(head, u1, u2);
    }
  }

  /** Inside a paragraph every line is kept, and the closing `</p>` is dropped. */
  lemma {:induction false} UnwrapRunTail(ls: seq<string>, afterText: bool)
    requires AllLines(ls, IsParaText)
    requires ls == [] ==> afterText
    ensures Unwrap(ls + ["</p>"], afterText) == ls
  {
    TagsNotText();
    if ls == [] {
      assert ls + ["</p>"] == ["</p>"];
      assert Unwrap(["</p>"][1..], true) == [];
    } else {
      assert ls[0] in ls;
      assert (ls + ["</p>"])[1..] == ls[1..] + ["</p>"];
      assert AllLines(ls[1..], IsParaText) by {
        forall x | x in ls[1..] ensures IsParaText(x) { assert x in ls; }
      }
      UnwrapRunTail(ls[1..], IsParaText(ls[0]));
      assert [ls[0]] + ls[1..] == ls;
    }
  }

  lemma UnwrapBlock(b: Block)
    requires WellClassified(b, IsParaText)
    ensures Unwrap(RenderBlock(b), false) == Flatten([b])
  {
    TagsNotText();
    assert [b][..0] == [];
    match b
    case Single(l) =>
      assert Unwrap([l][1..], IsParaText(l)) == [];
    case Run(ls) =>
      var xs := ["<p>"] + ls + ["</p>"];
      assert xs[1] == ls[0] && ls[0] in ls;
      assert xs[1..] == ls + ["</p>"];
      UnwrapRunTail(ls, false);
  }

  /** A rendered block is never empty and never ends with a text line. */
  lemma BlockEdge(b: Block)
    requires WellClassified(b, IsParaText)
    ensures RenderBlock(b) != [] && !IsParaText(RenderBlock(b)[|RenderBlock(b)| - 1])
  {
    TagsNotText();
    var r := RenderBlock(b);
    if b.Run? { assert r[|r| - 1] == "</p>"; } else { assert r == [b.line]; }
  }

  lemma LastOfAppend(a: seq<string>, r: seq<string>)
    requires r != []
    ensures a + r != [] && (a + r)[|a + r| - 1] == r[|r| - 1]
  {
  }

  /** Rendered blocks never end with a text line. */
  lemma RenderedEdges(bs: seq<Block>)
    requires forall i :: 0 <= i < |bs| ==> WellClassified(bs[i], IsParaText)
    ensures !EndsText(RenderBlocks(bs), false)
  {
    if bs != [] {
      var b := bs[|bs| - 1];
      BlockEdge(b);
      LastOfAppend(RenderBlocks(bs[..|bs| - 1]), RenderBlock(b));
    }
  }

  lemma {:induction false} UnwrapBlocks(bs: seq<Block>)
    requires forall i :: 0 <= i < |bs| ==> WellClassified(bs[i], IsParaText)
    ensures Unwrap(RenderBlocks(bs), false) == Flatten(bs)
  {
    TagsNotText();
    if bs != [] {
      var front, b := bs[..|bs| - 1], bs[|bs| - 1];
      assert bs == front + [b];
      UnwrapBlocks(front);
      RenderBlocksSnoc(front, b);
      assert WellClassified(b, IsParaText);
      assert !IsParaText(RenderBlock(b)[0]);
      RenderedEdges(front);
      UnwrapAppend(RenderBlocks(front), RenderBlock(b), false);
      UnwrapBlock(b);
      FlattenAppend(front, b);
    }
  }

  /** Deleting the `<p>` and `</p>` lines the wrapper inserted gives back the
      input lines exactly, in order; the inserted tags are recognised from the
      output alone. */
  lemma ParagraphsUnwrap(lines: seq<string>)
    ensures Unwrap(ParaLines(lines), false) == lines
  {
    BlocksPartition(lines, IsParaText);
    UnwrapBlocks(Blocks(lines, IsParaText));
  }

  /** One rendered block adds one `<p>` and one `</p>` per run, nothing per single line. */
  lemma BlockTagCounts(b: Block, x: string)
    requires WellClassified(b, IsParaText) && (x == "<p>" || x == "</p>")
    ensures Count(RenderBlock(b), x) == Count(Flatten([b]), x) + (if b.Run? then 1 else 0)
  {
    TagsNotText();
    assert [b][..0] == [];
    if b.Run? {
      var ls := b.lines;
      assert Flatten([b]) == ls;
      assert forall l :: l in ls ==> l != x;
      CountAbsent(ls, x);
      CountAppend(["<p>"] + ls, ["</p>"], x);
      CountAppend(["<p>"], ls, x);
      CountSingle("<p>", x);
      CountSingle("</p>", x);
    }
  }

  /** The wrapper inserts exactly one `<p>` and one `</p>` per paragraph run. */
  lemma {:induction false} ParagraphTagCounts(bs: seq<Block>, x: string)
    requires forall i :: 0 <= i < |bs| ==> WellClassified(bs[i], IsParaText)
    requires x == "<p>" || x == "</p>"
    ensures Count(RenderBlocks(bs), x) == Count(Flatten(bs), x) + RunCount(bs)
  {
    if bs != [] {
      var front, b := bs[..|bs| - 1], bs[|bs| - 1];
      assert bs == front + [b];
      ParagraphTagCounts(front, x);
      RenderBlocksSnoc(front, b);
      FlattenAppend(front, b);
      BlockTagCounts(b, x);
      CountAppend(RenderBlocks(front), RenderBlock(b), x);
      CountAppend(Flatten(front), Flatten([b]), x);
    }
  }

  /** `convert_paragraphs` adds as many `<p>` lines as `</p>` lines: one of
      each per paragraph. */
  lemma ParagraphsBalance(lines: seq<string>)
    ensures Count(ParaLines(lines), "<p>") - Count(lines, "<p>")
         == Count(ParaLines(lines), "</p>") - Count(lines, "</p>")
         == RunCount(Blocks(lines, IsParaText))
  {
    BlocksPartition(lines, IsParaText);
    ParagraphTagCounts(Blocks(lines, IsParaText), "<p>");
    ParagraphTagCounts(Blocks(lines, IsParaText), "</p>");
  }

  lemma {:induction false} SinglesRender(lines: seq<string>)
    ensures RenderBlocks(seq(|lines|, i requires 0 <= i < |lines| => Single(lines[i]))) == lines
  {
    if lines != [] {
      var init := lines[..|lines| - 1];
      var bs := seq(|lines|, i requires 0 <= i < |lines| => Single(lines[i]));
      assert bs[..|bs| - 1] == seq(|init|, i requires 0 <= i < |init| => Single(init[i]));
      SinglesRender(init);
    }
  }

  /** Text whose lines are all blank or start with a tag is left unchanged:
      rendered tables and lists are never wrapped in paragraphs. */
  lemma ParagraphPassWithoutText(html: string)
    requires forall l :: l in Lines(html) ==> !IsParaText(l)
    ensures ParagraphPass(html) == html
  {
    var lines := Lines(html);
    BlocksWithoutRuns(lines, IsParaText);
    SinglesRender(lines);
    JoinSplit(html, '\n');
  }
}
