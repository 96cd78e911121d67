/** The hand-written report converter (utils/convert_md_to_html.py): title and
    date extraction, and `markdown_to_html`, which runs its passes in a fixed
    order over the whole text. The clock is the parameter `today`; the
    code-block pass is the parameter `codeBlocks`. */
module ReportConverter {
  import opened Text
  import opened Regex
  import opened LineRuns
  import ReportInline
  import ReportTables
  import ReportLists
  import ReportParagraphs

  const DefaultTitle := "Analysis Report"

  /** `^#\s+(.+?)$` under `re.MULTILINE` at `i`: the captured title. The
      whitespace after `#` may run over line breaks. */
  function TitleAt(s: string, i: nat): (r: Option<string>)
    ensures r.Some? ==> AtLineStart(s, i) && i + 1 < |s| && s[i] == '#' && IsSpace(s[i + 1])
    ensures r.Some? ==> r.value != [] && '\n' !in r.value
    ensures r.Some? <==> AtLineStart(s, i) && i < |s| && s[i] == '#' && WsThenRest(s, i + 1).Some?
    ensures r.Some? ==> var k := WsThenRest(s, i + 1).value; r.value == s[k..LineEnd(s, k)]
  {
    if AtLineStart(s, i) && i < |s| && s[i] == '#' then
      match ReportInline.CaptureRest(s, i + 1)
      case Some((k, e)) =>
        assert s[i + 1..k][0] == s[i + 1];
        Some(s[k..e])
      case None => None
    else None
  }

  predicate IsDigits(s: string) { forall j :: 0 <= j < |s| ==> IsDigit(s[j]) }

  /** Text of the shape `\d{4}-\d{2}-\d{2}`. */
  predicate IsDateText(d: string) {
    |d| == 10 && IsDigits(d[..4]) && d[4] == '-' && IsDigits(d[5..7]) && d[7] == '-' && IsDigits(d[8..])
  }

  /** `(\d{4}-\d{2}-\d{2})` at `i`: the date found there. */
  function DateAt(s: string, i: nat): (r: Option<string>)
    ensures r.Some? <==> i + 10 <= |s| && IsDateText(s[i..i + 10])
    ensures r.Some? ==> r.value == s[i..i + 10]
  {
    if i + 10 <= |s| && IsDateText(s[i..i + 10]) then Some(s[i..i + 10]) else None
  }

  /** The first date in `s`, if any. */
  function FirstDate(s: string): (r: Option<string>)
    ensures r.None? <==> forall i :: 0 <= i <= |s| ==> DateAt(s, i).None?
    ensures r.Some? ==> IsDateText(r.value)
    ensures r.Some? ==> exists i :: 0 <= i <= |s| && DateAt(s, i) == r && forall j :: 0 <= j < i ==> DateAt(s, j).None?
  {
    match Search(DateAt, s, 0)
    case Some((_, d)) => Some(d)
    case None => None
  }

  /** The first title line's capture, if any. */
  function FirstTitle(s: string): (r: Option<string>)
    ensures r.None? <==> forall i :: 0 <= i <= |s| ==> TitleAt(s, i).None?
    ensures r.Some? ==> r.value != [] && '\n' !in r.value
    ensures r.Some? ==> exists i :: 0 <= i <= |s| && TitleAt(s, i) == r && forall j :: 0 <= j < i ==> TitleAt(s, j).None?
  {
    match Search(TitleAt, s, 0)
    case Some((_, t)) => Some(t)
    case None => None
  }

  /** `extract_title_and_date`: the first `# ` heading's text, not stripped,
      or "Analysis Report"; the first date in the text, or `today`. */
  function ExtractTitleAndDate(content: string, today: string): (r: (string, string))
    ensures FirstTitle(content).None? ==> r.0 == DefaultTitle
    ensures FirstTitle(content).Some? ==> r.0 == FirstTitle(content).value && r.0 != []
    ensures FirstDate(content).None? ==> r.1 == today
    ensures FirstDate(content).Some? ==> r.1 == FirstDate(content).value && IsDateText(r.1)
  {
    var title := match FirstTitle(content) case Some(t) => t case None => DefaultTitle;
    var date := match FirstDate(content) case Some(d) => d case None => today;
    (title, date)
  }

  /** The first line `# Report` gives the title `Report`. */
  lemma TitleOfReport(s: string)
    requires s == "# Report"
    ensures ExtractTitleAndDate(s, "2024-01-01").0 == "Report"
  {
    assert SpanEnd(s, 1, IsSpace) == 2;
    assert LineEnd(s, 2) == 8;
    assert ReportInline.CaptureRest(s, 1) == Some((2, 8));
    assert AtLineStart(s, 0) && s[0] == '#' && s[2..8] == "Report";
    assert TitleAt(s, 0) == Some("Report");
  }

  /** A text with no `#` and no digit has the default title and today's date. */
  lemma DefaultsWithoutHeadingOrDate(content: string, today: string)
    requires forall j :: 0 <= j < |content| ==> content[j] != '#' && !IsDigit(content[j])
    ensures ExtractTitleAndDate(content, today) == (DefaultTitle, today)
  {
    forall i | 0 <= i <= |content| ensures TitleAt(content, i).None? {
      NoHashNoTitle(content, i);
    }
    forall i | 0 <= i <= |content| ensures DateAt(content, i).None? {
      NoDigitNoDate(content, i);
    }
  }

  lemma NoHashNoTitle(content: string, i: nat)
    requires forall j :: 0 <= j < |content| ==> content[j] != '#'
    ensures TitleAt(content, i).None?
  {
  }

  lemma NoDigitNoDate(content: string, i: nat)
    requires forall j :: 0 <= j < |content| ==> !IsDigit(content[j])
    ensures DateAt(content, i).None?
  {
    if i + 10 <= |content| { assert content[i..i + 10][0] == content[i]; }
  }

  /** `markdown_to_html` up to the status classes, pass by pass: headings,
      rules and blockquotes, then tables, then code blocks, then lists, then
      inline formatting and links, then paragraphs. */
  function BeforeStatus(md: string, codeBlocks: string -> string): string {
    var headed := ReportInline.Headings(md);
    var ruled := Sub(ReportInline.RuleAt, headed);
    var quoted := Sub(ReportInline.QuoteAt, ruled);
    var tabled := ReportTables.TablePass(quoted);
    var coded := codeBlocks(tabled);
    var listed := ReportLists.ListPass(coded);
    var inlined := ReportInline.Inline(listed);
    ReportParagraphs.ParagraphPass(inlined)
  }

  /** `markdown_to_html` as written: the status substitution last, with its
      replacement that drops the token. */
  function Converted(md: string, codeBlocks: string -> string): string {
    ReportInline.StatusAsWritten(BeforeStatus(md, codeBlocks))
  }

  /** `markdown_to_html` with the status replacement as evidently intended,
      keeping the token. */
  function ConvertedAsIntended(md: string, codeBlocks: string -> string): string {
    ReportInline.StatusClasses(BeforeStatus(md, codeBlocks))
  }

  /** The two pipelines part only where a status token is found: without one,
      both return the text of the earlier passes unchanged. */
  lemma ConvertedAsIntendedWithoutStatus(md: string, codeBlocks: string -> string)
    requires var w := BeforeStatus(md, codeBlocks);
      forall j :: 0 <= j < |w| ==> ReportInline.StatusTokenEnd(w, j).None?
    ensures Converted(md, codeBlocks) == ConvertedAsIntended(md, codeBlocks) == BeforeStatus(md, codeBlocks)
  {
    ReportInline.StatusWithoutToken(BeforeStatus(md, codeBlocks));
  }

  /** `markdown_to_html`, calling the imperative passes in the source's order. */
  method MarkdownToHtml(md: string, codeBlocks: string -> string) returns (html: string)
    ensures html == Converted(md, codeBlocks)
  {
    html := ReportInline.Headings(md);
    html := Sub(ReportInline.RuleAt, html);
    html := Sub(ReportInline.QuoteAt, html);
    html := ReportTables.ConvertTables(html);
    html := codeBlocks(html);
    html := ReportLists.ConvertLists(html);
    html := ReportInline.Inline(html);
    html := ReportParagraphs.ConvertParagraphs(html);
    html := ReportInline.StatusAsWritten(html);
  }

  // Tables survive the later line passes.

  lemma {:induction false} JoinWithSnoc(parts: seq<string>, y: string)
    requires parts != []
    ensures JoinWith(parts + [y], '\n') == JoinWith(parts, '\n') + "\n" + y
  {
    if |parts| == 1 {
      assert (parts + [y])[1..] == [y];
    } else {
      assert (parts + [y])[1..] == parts[1..] + [y];
      JoinWithSnoc(parts[1..], y);
    }
  }

  lemma {:induction false} UnlinesIsJoin(ls: seq<string>)
    requires ls != []
    ensures Unlines(ls) == Join(ls) + "\n"
  {
    var init, x := ls[..|ls| - 1], ls[|ls| - 1];
    if init == [] {
      assert ls == [x];
    } else {
      UnlinesIsJoin(init);
      assert ls == init + [x];
      JoinWithSnoc(init, x);
    }
  }

  /** Text written line by line splits back into its lines and a last empty one. */
  lemma LinesOfUnlines(ls: seq<string>)
    requires forall j :: 0 <= j < |ls| ==> '\n' !in ls[j]
    ensures Lines(Unlines(ls)) == ls + [""]
  {
    var parts := ls + [""];
    if ls == [] {
      assert Unlines(ls) == "";
      assert IndexOf("", '\n') == 0;
      assert Split("", '\n') == [""];
    } else {
      UnlinesIsJoin(ls);
      JoinWithSnoc(ls, "");
      assert Unlines(ls) == JoinWith(parts, '\n');
      assert forall j :: 0 <= j < |parts| ==> '\n' !in parts[j] by {
        forall j | 0 <= j < |parts| ensures '\n' !in parts[j] {
          if j < |ls| { assert parts[j] == ls[j]; }
        }
      }
      SplitJoin(parts, '\n');
    }
  }

  /** Every line of a rendered table starts with `<`. */
  lemma TableLinesAreTags(t: ReportTables.TableModel)
    ensures forall l :: l in ReportTables.TableLines(t) ==> l != [] && l[0] == '<'
  {
    forall l | l in ReportTables.TableLines(t) ensures l != [] && l[0] == '<' {
      BodyLinesAreTags(t.body, l);
    }
  }

  lemma {:induction false} BodyLinesAreTags(body: seq<seq<string>>, l: string)
    ensures l in ReportTables.BodyLines(body) ==> l != [] && l[0] == '<'
  {
    if body != [] {
      BodyLinesAreTags(body[1..], l);
    }
  }

  /** A line starting with `<` is neither a list line nor paragraph text. */
  lemma TagLineUntouched(l: string)
    requires l != [] && l[0] == '<'
    ensures !ReportLists.IsListLine(l) && !ReportParagraphs.IsParaText(l)
  {
    assert SpanEnd(l, 0, IsSpace) == 0;
    assert SpanEnd(l, 0, IsDigit) == 0;
  }

  /** A rendered table whose cells hold no newline passes through the list
      and paragraph passes unchanged: it is never turned into list items nor
      wrapped in a paragraph. */
  lemma TableSurvivesLaterPasses(t: ReportTables.TableModel)
    requires forall l :: l in ReportTables.TableLines(t) ==> '\n' !in l
    ensures var html := Unlines(ReportTables.TableLines(t));
      ReportLists.ListPass(html) == html && ReportParagraphs.ParagraphPass(html) == html
  {
    var ls := ReportTables.TableLines(t);
    var html := Unlines(ls);
    LinesOfUnlines(ls);
    TableLinesAreTags(t);
    forall l | l in Lines(html) ensures !ReportLists.IsListLine(l) && !ReportParagraphs.IsParaText(l) {
      if l in ls { TagLineUntouched(l); }
      else { assert l == ""; }
    }
    ReportLists.ListPassWithoutLists(html);
    ReportParagraphs.ParagraphPassWithoutText(html);
  }
}
