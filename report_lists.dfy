/** The list pass of the report converter (utils/convert_md_to_html.py):
    `convert_lists` turns each maximal run of bullet and numbered lines into
    `<li>` items, opening `<ul>` before the first bullet of the run and `<ol>`
    before its first numbered line, and closing both when the run ends. */
module ReportLists {
  import opened Text
  import opened Regex
  import opened LineRuns

  /** Where the content of `\s+(.+)$` tried at position `q` starts, on a line
      that holds no newline (every line reaching this pass comes from
      `split('\n')`): after the greedy whitespace run, backed off by one when
      it reaches the end of the line, so that `(.+)` keeps one character. */
  function ItemStart(line: string, q: nat): (r: Option<nat>)
    requires q <= |line|
    ensures r.Some? <==> '\n' !in line && q + 1 < |line| && IsSpace(line[q])
    ensures r.Some? ==> q < r.value < |line| && AllChars(line[q..r.value], IsSpace)
    ensures r.Some? ==> !IsSpace(line[r.value]) || r.value == |line| - 1
  {
    if '\n' in line || q + 1 >= |line| || !IsSpace(line[q]) then None
    else
      var e := SpanEnd(line, q, IsSpace);
      Some(if e < |line| then e else |line| - 1)
  }

  /** On a line without a newline, this is the backtracking of `\s+(.+?)$`
      resolved the way the generic matcher resolves it. */
  lemma ItemStartIsBackOff(line: string, q: nat)
    requires q <= |line| && '\n' !in line
    ensures ItemStart(line, q) == WsThenRest(line, q)
  {
    var e := SpanEnd(line, q, IsSpace);
    var w := WsThenRest(line, q);
    if w.Some? {
      assert w.value < |line|;
      if w.value < e {
        assert w.value == |line| - 1 by {
          if w.value < |line| - 1 { assert LineRestFrom(line, w.value + 1); }
        }
      }
    } else if q + 1 < |line| && IsSpace(line[q]) {
      var k := if e < |line| then e else |line| - 1;
      assert LineRestFrom(line, k);
    }
  }

  /** `re.match(r'^(\s*)[-*]\s+(.+)$', line)`: the item content, if the line is a bullet. */
  function BulletItem(line: string): Option<string> {
    var q := SpanEnd(line, 0, IsSpace);
    if q < |line| && (line[q] == '-' || line[q] == '*') then
      match ItemStart(line, q + 1)
      case Some(k) => Some(line[k..])
      case None => None
    else None
  }

  /** `re.match(r'^(\s*)\d+\.\s+(.+)$', line)`: the item content, if the line is numbered. */
  function NumberedItem(line: string): Option<string> {
    var q := SpanEnd(line, 0, IsSpace);
    var d := SpanEnd(line, q, IsDigit);
    if q < d && d < |line| && line[d] == '.' then
      match ItemStart(line, d + 1)
      case Some(k) => Some(line[k..])
      case None => None
    else None
  }

  /** A line is a bullet exactly when, after its leading whitespace, it holds
      `-` or `*`, whitespace, and at least one more character. */
  lemma BulletItemSpec(line: string)
    ensures BulletItem(line).Some? <==> '\n' !in line && var q := SpanEnd(line, 0, IsSpace);
      q + 2 < |line| && line[q] in "-*" && IsSpace(line[q + 1])
  {
  }

  /** The content of a bullet is a non-empty tail of the line, after the
      marker and whitespace. */
  lemma BulletItemContent(line: string) returns (k: nat)
    requires BulletItem(line).Some?
    ensures var q := SpanEnd(line, 0, IsSpace);
      q + 1 < k < |line| && BulletItem(line).value == line[k..] && AllChars(line[q + 1..k], IsSpace)
  {
    var q := SpanEnd(line, 0, IsSpace);
    k := ItemStart(line, q + 1).value;
  }

  /** A line matches the numbered pattern exactly when, after its leading
      whitespace, it holds digits, `.`, whitespace, and at least one more
      character. */
  lemma NumberedItemSpec(line: string)
    ensures NumberedItem(line).Some? <==> '\n' !in line && var q := SpanEnd(line, 0, IsSpace); var d := SpanEnd(line, q, IsDigit);
      q < d && d + 2 < |line| && line[d] == '.' && IsSpace(line[d + 1])
  {
    var q := SpanEnd(line, 0, IsSpace);
    var d := SpanEnd(line, q, IsDigit);
    if q < d && d < |line| && line[d] == '.' {
      assert NumberedItem(line).Some? == ItemStart(line, d + 1).Some?;
    }
  }

  /** The content of a numbered line is a non-empty tail of it, after the
      number, the dot and whitespace. */
  lemma NumberedItemContent(line: string) returns (k: nat)
    requires NumberedItem(line).Some?
    ensures var d := SpanEnd(line, SpanEnd(line, 0, IsSpace), IsDigit);
      d + 1 < k < |line| && NumberedItem(line).value == line[k..] && AllChars(line[d + 1..k], IsSpace)
  {
    var q := SpanEnd(line, 0, IsSpace);
    var d := SpanEnd(line, q, IsDigit);
    k := ItemStart(line, d + 1).value;
  }

  /** No line is both a bullet and a numbered line. */
  lemma ItemKindsExclusive(line: string)
    ensures !(BulletItem(line).Some? && NumberedItem(line).Some?)
  {
    if BulletItem(line).Some? {
      var q := SpanEnd(line, 0, IsSpace);
      assert SpanEnd(line, q, IsDigit) == q;
    }
  }

  predicate IsBullet(line: string) { BulletItem(line).Some? }

  /** A line `convert_lists` treats as numbered: not a bullet, and matching the numbered pattern. */
  predicate IsNumbered(line: string) { !IsBullet(line) && NumberedItem(line).Some? }

  predicate IsListLine(line: string) { IsBullet(line) || NumberedItem(line).Some? }

  /** The content of a list line: the bullet pattern is tried first. */
  function Item(line: string): Option<string> {
    if IsBullet(line) then BulletItem(line) else NumberedItem(line)
  }

  /** `f'<li>{content}</li>'` for a list line. */
  function ItemLine(line: string): string {
    match Item(line)
    case Some(content) => "<li>" + content + "</li>"
    case None => line
  }

  function HasBullet(ls: seq<string>): bool {
    ls != [] && (HasBullet(ls[..|ls| - 1]) || IsBullet(ls[|ls| - 1]))
  }

  function HasNumbered(ls: seq<string>): bool {
    ls != [] && (HasNumbered(ls[..|ls| - 1]) || IsNumbered(ls[|ls| - 1]))
  }

  /** The open tag written before a list line that follows `before` in its run:
      `<ul>` before the run's first bullet, `<ol>` before its first numbered line. */
  function OpenTag(before: seq<string>, line: string): seq<string> {
    if IsBullet(line) then (if HasBullet(before) then [] else ["<ul>"])
    else (if HasNumbered(before) then [] else ["<ol>"])
  }

  /** The lines written for the list lines of a run, before it is closed. */
  function Items(ls: seq<string>): seq<string> {
    if ls == [] then []
    else
      var init, l := ls[..|ls| - 1], ls[|ls| - 1];
      Items(init) + OpenTag(init, l) + [ItemLine(l)]
  }

  /** A whole run: its items, then `</ul>` if a bullet opened one, then `</ol>`
      if a numbered line opened one. */
  function ListRun(ls: seq<string>): seq<string> {
    Items(ls) + (if HasBullet(ls) then ["</ul>"] else []) + (if HasNumbered(ls) then ["</ol>"] else [])
  }

  function RenderBlock(b: Block): seq<string> {
    match b
    case Run(ls) => ListRun(ls)
    case Single(l) => [l]
  }

  function RenderBlocks(bs: seq<Block>): seq<string> {
    if bs == [] then [] else RenderBlocks(bs[..|bs| - 1]) + RenderBlock(bs[|bs| - 1])
  }

  /** What `convert_lists` returns. */
  function ListPass(html: string): string {
    Join(ListLines(Lines(html)))
  }

  /** The lines `convert_lists` joins, for the lines it split. */
  function ListLines(lines: seq<string>): seq<string> {
    RenderBlocks(Blocks(lines, IsListLine))
  }

  /** The state of `convert_lists` after the lines `seen`: the items of the open
      run are written, and the two flags say which of its lists are open. */
  ghost predicate ListScanState(seen: seq<string>, result: seq<string>, inUl: bool, inOl: bool) {
    (result, inUl, inOl) == ListScanOf(seen)
  }

  /** The output and the two flags of `convert_lists` after the lines `seen`:
      inside a run, its items are written and its closing tags are not. */
  ghost function ListScanOf(seen: seq<string>): (seq<string>, bool, bool) {
    var bs := Blocks(seen, IsListLine);
    if bs != [] && bs[|bs| - 1].Run? then
      var ls := bs[|bs| - 1].lines;
      (RenderBlocks(bs[..|bs| - 1]) + Items(ls), HasBullet(ls), HasNumbered(ls))
    else
      (RenderBlocks(bs), false, false)
  }

  lemma RenderBlocksSnoc(bs: seq<Block>, b: Block)
    ensures RenderBlocks(bs + [b]) == RenderBlocks(bs) + RenderBlock(b)
  {
    assert (bs + [b])[..|bs|] == bs;
  }

  /** The open tag the flags call for before a list line. */
  function OpenFor(inUl: bool, inOl: bool, bullet: bool): seq<string> {
    if bullet then (if inUl then [] else ["<ul>"]) else (if inOl then [] else ["<ol>"])
  }

  /** A list line extends the open run, or starts one. */
  lemma ScanListLine(seen: seq<string>, result: seq<string>, inUl: bool, inOl: bool, line: string, bullet: bool)
    requires ListScanState(seen, result, inUl, inOl) && IsListLine(line) && bullet == IsBullet(line)
    ensures ListScanState(seen + [line], result + OpenFor(inUl, inOl, bullet) + [ItemLine(line)],
                          inUl || bullet, inOl || !bullet)
  {
    var bs := Blocks(seen, IsListLine);
    assert (seen + [line])[..|seen|] == seen;
    if bs != [] && bs[|bs| - 1].Run? {
      ExtendRun(seen, bs, result, inUl, inOl, line);
    } else {
      StartRun(seen, bs, result, line);
    }
  }

  lemma ExtendRun(seen: seq<string>, bs: seq<Block>, result: seq<string>, inUl: bool, inOl: bool, line: string)
    requires bs == Blocks(seen, IsListLine) && bs != [] && bs[|bs| - 1].Run?
    requires ListScanState(seen, result, inUl, inOl) && IsListLine(line)
    ensures ListScanState(seen + [line], result + OpenFor(inUl, inOl, IsBullet(line)) + [ItemLine(line)],
                          inUl || IsBullet(line), inOl || IsNumbered(line))
  {
    var front, ls := bs[..|bs| - 1], bs[|bs| - 1].lines;
    var ls' := ls + [line];
    var bs' := front + [Run(ls')];
    RunGrows(seen, bs, line);
    assert bs'[..|bs'| - 1] == front && bs'[|bs'| - 1] == Run(ls');
    assert result == RenderBlocks(front) + Items(ls);
    ItemsSnoc(ls, line, inUl, inOl);
    ConcatAssoc(RenderBlocks(front), Items(ls), OpenFor(inUl, inOl, IsBullet(line)), [ItemLine(line)]);
    OpenState(seen + [line], bs', result + OpenFor(inUl, inOl, IsBullet(line)) + [ItemLine(line)], inUl || IsBullet(line), inOl || IsNumbered(line));
  }

  /** The scan state while a run is open, from its parts. */
  lemma OpenState(seen: seq<string>, bs: seq<Block>, result: seq<string>, inUl: bool, inOl: bool)
    requires bs == Blocks(seen, IsListLine) && bs != [] && bs[|bs| - 1].Run?
    requires result == RenderBlocks(bs[..|bs| - 1]) + Items(bs[|bs| - 1].lines)
    requires inUl == HasBullet(bs[|bs| - 1].lines) && inOl == HasNumbered(bs[|bs| - 1].lines)
    ensures ListScanState(seen, result, inUl, inOl)
  {
  }

  lemma RunGrows(seen: seq<string>, bs: seq<Block>, line: string)
    requires bs == Blocks(seen, IsListLine) && bs != [] && bs[|bs| - 1].Run? && IsListLine(line)
    ensures Blocks(seen + [line], IsListLine) == bs[..|bs| - 1] + [Run(bs[|bs| - 1].lines + [line])]
  {
    BlocksExtendRun(seen, line, IsListLine);
  }

  /** One more list line in a run whose flags are `inUl` and `inOl`. */
  lemma ItemsSnoc(ls: seq<string>, line: string, inUl: bool, inOl: bool)
    requires inUl == HasBullet(ls) && inOl == HasNumbered(ls)
    ensures Items(ls + [line]) == Items(ls) + OpenFor(inUl, inOl, IsBullet(line)) + [ItemLine(line)]
    ensures HasBullet(ls + [line]) == (inUl || IsBullet(line))
    ensures HasNumbered(ls + [line]) == (inOl || IsNumbered(line))
  {
    assert (ls + [line])[..|ls|] == ls;
  }

  lemma StartRun(seen: seq<string>, bs: seq<Block>, result: seq<string>, line: string)
    requires bs == Blocks(seen, IsListLine) && !(bs != [] && bs[|bs| - 1].Run?)
    requires ListScanState(seen, result, false, false) && IsListLine(line)
    ensures ListScanState(seen + [line], result + OpenFor(false, false, IsBullet(line)) + [ItemLine(line)],
                          IsBullet(line), IsNumbered(line))
  {
    assert result == RenderBlocks(bs);
    BlocksOpenRun(seen, line, IsListLine);
    ItemsOne(line);
    NewRunState(seen + [line], bs, result, line);
    ConcatAssoc3(result, OpenFor(false, false, IsBullet(line)), [ItemLine(line)]);
  }

  /** The scan state once a list line has opened a run after the blocks `bs`. */
  lemma NewRunState(seen: seq<string>, bs: seq<Block>, result: seq<string>, line: string)
    requires Blocks(seen, IsListLine) == bs + [Run([line])] && result == RenderBlocks(bs)
    ensures ListScanState(seen, result + Items([line]), HasBullet([line]), HasNumbered([line]))
  {
    var bs' := bs + [Run([line])];
    assert bs'[..|bs'| - 1] == bs;
  }

  lemma ItemsOne(line: string)
    ensures Items([line]) == OpenFor(false, false, IsBullet(line)) + [ItemLine(line)]
    ensures HasBullet([line]) == IsBullet(line) && HasNumbered([line]) == IsNumbered(line)
  {
    assert [line][..0] == [];
  }

  /** Any other line closes the open lists, `</ul>` first, and is kept. */
  lemma ScanOtherLine(seen: seq<string>, result: seq<string>, inUl: bool, inOl: bool, line: string)
    requires ListScanState(seen, result, inUl, inOl) && !IsListLine(line)
    ensures ListScanState(seen + [line], result + Closers(inUl, inOl) + [line], false, false)
  {
    var bs := Blocks(seen, IsListLine);
    assert (seen + [line])[..|seen|] == seen;
    var bs' := bs + [Single(line)];
    assert Blocks(seen + [line], IsListLine) == bs';
    RenderBlocksSnoc(bs, Single(line));
    ScanEnd(seen, result, inUl, inOl);
    assert RenderBlocks(bs') == result + Closers(inUl, inOl) + [line];
  }

  /** The tags that close the open lists, `</ul>` first. */
  function Closers(inUl: bool, inOl: bool): seq<string> {
    (if inUl then ["</ul>"] else []) + (if inOl then ["</ol>"] else [])
  }

  lemma ClosersAppend(before: seq<string>, inUl: bool, inOl: bool)
    ensures before + (if inUl then ["</ul>"] else []) + (if inOl then ["</ol>"] else []) == before + Closers(inUl, inOl)
  {
  }

  /** One line of the scan, whichever kind it is. */
  lemma ScanStep(seen: seq<string>, line: string, seen': seq<string>,
                 result: seq<string>, inUl: bool, inOl: bool,
                 result': seq<string>, inUl': bool, inOl': bool)
    requires ListScanState(seen, result, inUl, inOl) && seen' == seen + [line]
    requires IsListLine(line) ==> result' == result + OpenFor(inUl, inOl, IsBullet(line)) + [ItemLine(line)]
    requires IsListLine(line) ==> inUl' == (inUl || IsBullet(line)) && inOl' == (inOl || !IsBullet(line))
    requires !IsListLine(line) ==> result' == result + Closers(inUl, inOl) + [line] && !inUl' && !inOl'
    ensures ListScanState(seen', result', inUl', inOl')
  {
    if IsListLine(line) {
      ScanListLine(seen, result, inUl, inOl, line, IsBullet(line));
    } else {
      ScanOtherLine(seen, result, inUl, inOl, line);
    }
  }

  /** At the end of input, closing the open lists completes the rendering. */
  lemma ScanEnd(seen: seq<string>, result: seq<string>, inUl: bool, inOl: bool)
    requires ListScanState(seen, result, inUl, inOl)
    ensures RenderBlocks(Blocks(seen, IsListLine)) == result + Closers(inUl, inOl)
  {
    var bs := Blocks(seen, IsListLine);
    if bs != [] && bs[|bs| - 1].Run? {
      var front, ls := bs[..|bs| - 1], bs[|bs| - 1].lines;
      assert bs == front + [Run(ls)];
      RenderBlocksSnoc(front, Run(ls));
      ClosersAppend(Items(ls), inUl, inOl);
      assert RenderBlock(Run(ls)) == Items(ls) + Closers(inUl, inOl);
      ConcatAssoc3(RenderBlocks(front), Items(ls), Closers(inUl, inOl));
    }
  }

  /** The body of `convert_lists`' loop for one line: a bullet, then a
      numbered line, is written as an item after the open tag it needs; any
      other line closes the open lists and is kept. */
  method ListLine(line: string, result: seq<string>, inUl: bool, inOl: bool)
    returns (result': seq<string>, inUl': bool, inOl': bool)
    ensures IsListLine(line) ==> result' == result + OpenFor(inUl, inOl, IsBullet(line)) + [ItemLine(line)]
    ensures IsListLine(line) ==> inUl' == (inUl || IsBullet(line)) && inOl' == (inOl || !IsBullet(line))
    ensures !IsListLine(line) ==> result' == result + Closers(inUl, inOl) + [line] && !inUl' && !inOl'
  {
    result', inUl', inOl' := result, inUl, inOl;
    var ulMatch := BulletItem(line);
    var olMatch := NumberedItem(line);
    if ulMatch.Some? {
      if !inUl' {
        result' := result' + ["<ul>"];
        inUl' := true;
      }
      result' := result' + ["<li>" + ulMatch.value + "</li>"];
    } else if olMatch.Some? {
      if !inOl' {
        result' := result' + ["<ol>"];
        inOl' := true;
      }
      result' := result' + ["<li>" + olMatch.value + "</li>"];
    } else {
      result' := CloseLists(result', inUl', inOl');
      inUl', inOl' := false, false;
      result' := result' + [line];
    }
  }

  /** Closing the open lists, as both the loop and the end of input do it. */
  method CloseLists(result: seq<string>, inUl: bool, inOl: bool) returns (result': seq<string>)
    ensures result' == result + Closers(inUl, inOl)
  {
    result' := result;
    if inUl {
      result' := result' + ["</ul>"];
    }
    assert result' == result + (if inUl then ["</ul>"] else []);
    if inOl {
      result' := result' + ["</ol>"];
    }
    assert result' == result + (if inUl then ["</ul>"] else []) + (if inOl then ["</ol>"] else []);
    ClosersAppend(result, inUl, inOl);
  }

  /** `convert_lists`: one pass over the lines with an `in_ul` and an `in_ol`
      flag, then the lists still open are closed. */
  method ConvertLists(html: string) returns (r: string)
    ensures r == ListPass(html)
  {
    var lines := Lines(html);
    var result, inUl, inOl := ScanLines(lines);
    ScanEnd(lines, result, inUl, inOl);
    result := CloseLists(result, inUl, inOl);
    r := Join(result);
  }

  /** The loop of `convert_lists` over its lines. */
  method ScanLines(lines: seq<string>) returns (result: seq<string>, inUl: bool, inOl: bool)
    ensures ListScanState(lines, result, inUl, inOl)
  {
    result := [];
    inUl := false;
    inOl := false;
    var i := 0;
    ghost var seen: seq<string> := [];
    ScanStart();
    while i < |lines|
      invariant 0 <= i <= |lines| && seen == lines[..i]
      invariant ListScanState(seen, result, inUl, inOl)
    {
      result, inUl, inOl := ScanOne(seen, lines[i], result, inUl, inOl);
      seen := seen + [lines[i]];
      i := i + 1;
    }
    assert seen == lines;
  }

  /** Before any line, nothing is written and no list is open. */
  lemma ScanStart()
    ensures ListScanState([], [], false, false)
  {
  }

  /** One turn of the loop keeps the scan state. */
  method ScanOne(ghost seen: seq<string>, line: string, result: seq<string>, inUl: bool, inOl: bool)
    returns (result': seq<string>, inUl': bool, inOl': bool)
    requires ListScanState(seen, result, inUl, inOl)
    ensures ListScanState(seen + [line], result', inUl', inOl')
  {
    result', inUl', inOl' := ListLine(line, result, inUl, inOl);
    ScanStep(seen, line, seen + [line], result, inUl, inOl, result', inUl', inOl');
  }

  // What the rendered lists hold.

  predicate IsListTag(x: string) {
    x == "<ul>" || x == "</ul>" || x == "<ol>" || x == "</ol>"
  }

  /** An item line is never a list tag. */
  lemma ItemLineNotTag(line: string)
    requires IsListLine(line)
    ensures !IsListTag(ItemLine(line))
  {
    var content := Item(line).value;
    assert ItemLine(line) == "<li>" + content + "</li>";
    assert ItemLine(line)[1] == 'l';
  }

  lemma CountSnoc3(a: seq<string>, b: seq<string>, c: seq<string>, x: string)
    ensures Count(a + b + c, x) == Count(a, x) + Count(b, x) + Count(c, x)
  {
    CountAppend(a, b, x);
    CountAppend(a + b, c, x);
  }

  /** The items of a run hold one `<ul>` if the run has a bullet, one `<ol>` if
      it has a numbered line, and no closing tag. */
  lemma {:induction false} ItemsTags(ls: seq<string>)
    requires AllLines(ls, IsListLine)
    ensures Count(Items(ls), "<ul>") == (if HasBullet(ls) then 1 else 0)
    ensures Count(Items(ls), "<ol>") == (if HasNumbered(ls) then 1 else 0)
    ensures Count(Items(ls), "</ul>") == 0 && Count(Items(ls), "</ol>") == 0
  {
    if ls != [] {
      var init, l := ls[..|ls| - 1], ls[|ls| - 1];
      assert AllLines(init, IsListLine) by {
        forall x | x in init ensures IsListLine(x) { assert x in ls; }
      }
      ItemsTags(init);
      ItemLineNotTag(l);
      OpenTagCounts(init, l);
      CountItemStep(Items(init), OpenTag(init, l), ItemLine(l), "<ul>");
      CountItemStep(Items(init), OpenTag(init, l), ItemLine(l), "<ol>");
      CountItemStep(Items(init), OpenTag(init, l), ItemLine(l), "</ul>");
      CountItemStep(Items(init), OpenTag(init, l), ItemLine(l), "</ol>");
    }
  }

  /** The open tag before a list line, counted. */
  lemma OpenTagCounts(before: seq<string>, line: string)
    requires IsListLine(line)
    ensures Count(OpenTag(before, line), "<ul>") == (if IsBullet(line) && !HasBullet(before) then 1 else 0)
    ensures Count(OpenTag(before, line), "<ol>") == (if IsNumbered(line) && !HasNumbered(before) then 1 else 0)
    ensures Count(OpenTag(before, line), "</ul>") == 0 && Count(OpenTag(before, line), "</ol>") == 0
  {
    var o := OpenTag(before, line);
    if o != [] {
      CountSingle(o[0], "<ul>");
      CountSingle(o[0], "<ol>");
      CountSingle(o[0], "</ul>");
      CountSingle(o[0], "</ol>");
      assert o == [o[0]];
    }
  }

  /** An item line after some lines and an open tag adds no list tag. */
  lemma CountItemStep(a: seq<string>, open: seq<string>, item: string, x: string)
    requires !IsListTag(item) && IsListTag(x)
    ensures Count(a + open + [item], x) == Count(a, x) + Count(open, x)
  {
    CountSingle(item, x);
    CountSnoc3(a, open, [item], x);
  }

  /** A rendered run opens and closes `<ul>` once if it has a bullet, and
      `<ol>` once if it has a numbered line; it has at least one of them. */
  lemma ListRunTags(ls: seq<string>)
    requires ls != [] && AllLines(ls, IsListLine)
    ensures HasBullet(ls) || HasNumbered(ls)
    ensures Count(ListRun(ls), "<ul>") == Count(ListRun(ls), "</ul>") == if HasBullet(ls) then 1 else 0
    ensures Count(ListRun(ls), "<ol>") == Count(ListRun(ls), "</ol>") == if HasNumbered(ls) then 1 else 0
  {
    assert IsListLine(ls[|ls| - 1]);
    ItemsTags(ls);
    CloserCounts(Items(ls), HasBullet(ls), HasNumbered(ls));
  }

  /** The closing tags appended after the items, counted. */
  lemma CloserCounts(items: seq<string>, bullet: bool, numbered: bool)
    requires Count(items, "<ul>") == (if bullet then 1 else 0) && Count(items, "<ol>") == (if numbered then 1 else 0)
    requires Count(items, "</ul>") == 0 && Count(items, "</ol>") == 0
    ensures var r := items + (if bullet then ["</ul>"] else []) + (if numbered then ["</ol>"] else []);
      Count(r, "<ul>") == Count(r, "</ul>") == (if bullet then 1 else 0) &&
      Count(r, "<ol>") == Count(r, "</ol>") == (if numbered then 1 else 0)
  {
    var cu, co := if bullet then ["</ul>"] else [], if numbered then ["</ol>"] else [];
    CountSnoc3(items, cu, co, "<ul>");
    CountSnoc3(items, cu, co, "</ul>");
    CountSnoc3(items, cu, co, "<ol>");
    CountSnoc3(items, cu, co, "</ol>");
  }

  /** The lines that are not list tags, in order. */
  function DropTags(xs: seq<string>): seq<string> {
    if xs == [] then [] else DropTags(xs[..|xs| - 1]) + (if IsListTag(xs[|xs| - 1]) then [] else [xs[|xs| - 1]])
  }

  lemma {:induction false} DropTagsAppend(a: seq<string>, b: seq<string>)
    ensures DropTags(a + b) == DropTags(a) + DropTags(b)
    decreases |b|
  {
    if b == [] {
      assert a + b == a;
    } else {
      var b' := b[..|b| - 1];
      assert (a + b)[..|a + b| - 1] == a + b';
      DropTagsAppend(a, b');
    }
  }

  /** `f` applied to each line, in order. */
  function MapLines(ls: seq<string>, f: string -> string): (r: seq<string>)
    ensures |r| == |ls| && forall i :: 0 <= i < |ls| ==> r[i] == f(ls[i])
  {
    if ls == [] then [] else MapLines(ls[..|ls| - 1], f) + [f(ls[|ls| - 1])]
  }

  /** One `<li>` line per line, in order. */
  function ItemLines(ls: seq<string>): (r: seq<string>)
    ensures |r| == |ls| && forall i :: 0 <= i < |ls| ==> r[i] == ItemLine(ls[i])
  {
    MapLines(ls, ItemLine)
  }

  /** One `<li>` line per line of the run, in the run's order. */
  lemma {:induction false} ItemsInOrder(ls: seq<string>)
    requires AllLines(ls, IsListLine)
    ensures DropTags(Items(ls)) == ItemLines(ls)
  {
    if ls != [] {
      var init, l := ls[..|ls| - 1], ls[|ls| - 1];
      assert AllLines(init, IsListLine) by {
        forall x | x in init ensures IsListLine(x) { assert x in ls; }
      }
      ItemsInOrder(init);
      ItemLineNotTag(l);
      OpenTagIsTag(init, l);
      DropTagsSnoc(Items(init), OpenTag(init, l), ItemLine(l));
    }
  }

  /** The open tag before an item is at most one list tag. */
  lemma OpenTagIsTag(before: seq<string>, line: string)
    ensures |OpenTag(before, line)| <= 1 && forall x :: x in OpenTag(before, line) ==> IsListTag(x)
  {
  }

  /** An open tag and an item after some lines: only the item survives. */
  lemma DropTagsSnoc(a: seq<string>, open: seq<string>, item: string)
    requires |open| <= 1 && (forall x :: x in open ==> IsListTag(x)) && !IsListTag(item)
    ensures DropTags(a + open + [item]) == DropTags(a) + [item]
  {
    DropTagsAppend(a + open, [item]);
    DropTagsAppend(a, open);
    DropOneTag(open);
    assert DropTags([item]) == [item] by { assert [item][..0] == []; }
  }

  /** The rendered run, without its list tags, is its item lines in order. */
  lemma ListRunItems(ls: seq<string>)
    requires AllLines(ls, IsListLine)
    ensures DropTags(ListRun(ls)) == ItemLines(ls)
  {
    ItemsInOrder(ls);
    DropClosers(Items(ls), HasBullet(ls), HasNumbered(ls));
  }

  /** Closing tags after some lines leave nothing behind. */
  lemma DropClosers(a: seq<string>, inUl: bool, inOl: bool)
    ensures DropTags(a + (if inUl then ["</ul>"] else []) + (if inOl then ["</ol>"] else [])) == DropTags(a)
  {
    var cu, co := if inUl then ["</ul>"] else [], if inOl then ["</ol>"] else [];
    DropTagsAppend(a + cu, co);
    DropTagsAppend(a, cu);
    DropOneTag(cu);
    DropOneTag(co);
  }

  /** At most one list tag leaves nothing behind. */
  lemma DropOneTag(xs: seq<string>)
    requires |xs| <= 1 && forall x :: x in xs ==> IsListTag(x)
    ensures DropTags(xs) == []
  {
    if xs != [] {
      assert xs[..0] == [];
      assert xs[0] in xs;
    }
  }

  /** List tags are not list lines, so runs never hold them. */
  lemma TagNotListLine(x: string)
    requires IsListTag(x)
    ensures !IsListLine(x)
  {
    assert SpanEnd(x, 0, IsSpace) == 0;
    assert SpanEnd(x, 0, IsDigit) == 0;
  }

  /** A run of list lines holds no list tag. */
  lemma RunLacks(ls: seq<string>, x: string)
    requires AllLines(ls, IsListLine) && IsListTag(x)
    ensures Count(ls, x) == 0
  {
    TagNotListLine(x);
    CountAbsent(ls, x);
  }

  /** The tag counts of one rendered block, against the lines it came from. */
  lemma BlockTagCounts(b: Block)
    requires WellClassified(b, IsListLine)
    ensures Count(RenderBlock(b), "<ul>") - Count(Flatten([b]), "<ul>") == Count(RenderBlock(b), "</ul>") - Count(Flatten([b]), "</ul>")
    ensures Count(RenderBlock(b), "<ol>") - Count(Flatten([b]), "<ol>") == Count(RenderBlock(b), "</ol>") - Count(Flatten([b]), "</ol>")
  {
    assert [b][..0] == [];
    if b.Run? {
      ListRunTags(b.lines);
      assert Flatten([b]) == b.lines;
      RunLacks(b.lines, "<ul>");
      RunLacks(b.lines, "</ul>");
      RunLacks(b.lines, "<ol>");
      RunLacks(b.lines, "</ol>");
    } else {
      assert RenderBlock(b) == Flatten([b]);
    }
  }

  lemma BlockSnocCount(bs: seq<Block>, x: string)
    requires bs != []
    ensures Count(RenderBlocks(bs), x) == Count(RenderBlocks(bs[..|bs| - 1]), x) + Count(RenderBlock(bs[|bs| - 1]), x)
    ensures Count(Flatten(bs), x) == Count(Flatten(bs[..|bs| - 1]), x) + Count(Flatten([bs[|bs| - 1]]), x)
  {
    var front, b := bs[..|bs| - 1], bs[|bs| - 1];
    assert bs == front + [b];
    RenderBlocksSnoc(front, b);
    FlattenAppend(front, b);
    CountAppend(RenderBlocks(front), RenderBlock(b), x);
    CountAppend(Flatten(front), Flatten([b]), x);
  }

  /** Across the whole pass, every `<ul>` and `<ol>` it writes is matched by a
      closing tag it writes. */
  lemma {:induction false} ListTagsBalance(bs: seq<Block>)
    requires forall i :: 0 <= i < |bs| ==> WellClassified(bs[i], IsListLine)
    ensures Count(RenderBlocks(bs), "<ul>") - Count(Flatten(bs), "<ul>") == Count(RenderBlocks(bs), "</ul>") - Count(Flatten(bs), "</ul>")
    ensures Count(RenderBlocks(bs), "<ol>") - Count(Flatten(bs), "<ol>") == Count(RenderBlocks(bs), "</ol>") - Count(Flatten(bs), "</ol>")
  {
    if bs != [] {
      var front, b := bs[..|bs| - 1], bs[|bs| - 1];
      ListTagsBalance(front);
      BlockTagCounts(b);
      BlockSnocCount(bs, "<ul>");
      BlockSnocCount(bs, "</ul>");
      BlockSnocCount(bs, "<ol>");
      BlockSnocCount(bs, "</ol>");
    }
  }

  /** `convert_lists` adds as many `<ul>` lines as `</ul>` lines, and as many
      `<ol>` lines as `</ol>` lines. */
  lemma ListLinesBalance(lines: seq<string>)
    ensures Count(ListLines(lines), "<ul>") - Count(lines, "<ul>") == Count(ListLines(lines), "</ul>") - Count(lines, "</ul>")
    ensures Count(ListLines(lines), "<ol>") - Count(lines, "<ol>") == Count(ListLines(lines), "</ol>") - Count(lines, "</ol>")
  {
    BlocksPartition(lines, IsListLine);
    ListTagsBalance(Blocks(lines, IsListLine));
  }

  /** Text without list lines passes through unchanged. */
  lemma ListPassWithoutLists(html: string)
    requires forall l :: l in Lines(html) ==> !IsListLine(l)
    ensures ListPass(html) == html
  {
    var lines := Lines(html);
    BlocksWithoutRuns(lines, IsListLine);
    SinglesRender(lines);
    JoinSplit(html, '\n');
  }

  lemma {:induction false} SinglesRender(lines: seq<string>)
    ensures RenderBlocks(seq(|lines|, i requires 0 <= i < |lines| => Single(lines[i]))) == lines
  {
    if lines != [] {
      var init := lines[..|lines| - 1];
      var bs := seq(|lines|, i requires 0 <= i < |lines| => Single(lines[i]));
      assert bs[..|bs| - 1] == seq(|init|, i requires 0 <= i < |init| => Single(init[i]));
      SinglesRender(init);
    }
  }

  /** A bullet followed by a numbered line forms one run: `<ol>` opens inside
      the `<ul>`, and `</ul>` is written before `</ol>`. */
  lemma MixedRun()
    ensures ListLines(["- a", "1. b"]) == ["<ul>", "<li>a</li>", "<ol>", "<li>b</li>", "</ul>", "</ol>"]
  {
    var a, b := "- a", "1. b";
    BulletA(a);
    NumberedB(b);
    TwoLineRun(a, b);
    BulletThenNumbered(a, b);
    RenderBlocksSnoc([], Run([a, b]));
    assert [] + [Run([a, b])] == [Run([a, b])];
  }

  lemma BulletA(a: string)
    requires a == "- a"
    ensures IsBullet(a) && ItemLine(a) == "<li>a</li>"
  {
    assert BulletItem(a) == Some("a");
  }

  lemma NumberedB(b: string)
    requires b == "1. b"
    ensures !IsBullet(b) && IsListLine(b) && ItemLine(b) == "<li>b</li>"
  {
    assert BulletItem(b) == None;
    SpanEndAt(b, 0, 1, IsDigit);
    SpanEndAt(b, 2, 3, IsSpace);
    assert b[3..] == "b";
    assert NumberedItem(b) == Some("b");
  }

  /** Two list lines form one run. */
  lemma TwoLineRun(a: string, b: string)
    requires IsListLine(a) && IsListLine(b)
    ensures Blocks([a, b], IsListLine) == [Run([a, b])]
  {
    BlocksOpenRun([], a, IsListLine);
    assert [] + [a] == [a];
    BlocksExtendRun([a], b, IsListLine);
    assert [a] + [b] == [a, b];
  }

  /** The run of a bullet line and then a numbered line. */
  lemma BulletThenNumbered(a: string, b: string)
    requires IsBullet(a) && !IsBullet(b) && IsListLine(b)
    ensures ListRun([a, b]) == ["<ul>", ItemLine(a), "<ol>", ItemLine(b), "</ul>", "</ol>"]
  {
    ItemsOne(a);
    assert [a, b][..1] == [a];
    assert Items([a, b]) == Items([a]) + OpenTag([a], b) + [ItemLine(b)];
    assert HasBullet([a, b]) && HasNumbered([a, b]);
  }
}
