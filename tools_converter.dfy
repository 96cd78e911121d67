/** The library-backed converter (src/scripts/tools/convert_md_to_html.py):
    heading slugs for the table of contents, title and date extraction with
    a fall-back to the file name, and the post-processing that wraps tables
    and marks signed percentages. The Markdown library itself, the clock and
    the file system are not modelled: the file name and today's date are
    parameters. */
module ToolsConverter {
  import opened Text
  import opened Regex
  import ReportConverter

  // ---------------------------------------------------------------------
  // slugify_heading

  /** The characters `[^\w\s\-\u4e00-\u9fff]` does not match: those a slug keeps. */
  predicate SlugKept(c: char) { IsWord(c) || IsSpace(c) || c == '-' || IsCjk(c) }

  /** The characters a slug is made of: lower-case word characters (CJK
      included) and `-`. */
  predicate SlugChar(c: char) { (IsWord(c) || c == '-') && !IsUpper(c) }

  /** `\s+` tried at `i`, replaced by `sep`. */
  function SpaceRunAt(sep: string, s: string, i: nat): (r: Option<Hit>)
    ensures r.Some? <==> i < |s| && IsSpace(s[i])
    ensures r.Some? ==> r.value == Hit(SpanEnd(s, i, IsSpace), sep) && i < r.value.end
  {
    if i < |s| && IsSpace(s[i]) then Some(Hit(SpanEnd(s, i, IsSpace), sep)) else None
  }

  function SpaceRuns(sep: string): Matcher {
    (s: string, i: nat) => SpaceRunAt(sep, s, i)
  }

  /** `re.sub(r"\s+", sep, s)`. */
  function Collapse(s: string, sep: string): string {
    Sub(SpaceRuns(sep), s)
  }

  /** `slugify_heading(value, sep)`: drop every character outside the kept
      classes, strip and lower-case, turn each whitespace run into `sep`, and
      strip `sep`'s characters from both ends. */
  function SlugifyHeading(value: string, sep: string): string {
    var cleaned := Lower(Strip(Filter(value, SlugKept)));
    StripChars(Collapse(cleaned, sep), sep)
  }

  /** The text a list of pieces produces is made of the kept characters and
      the replacements. */
  lemma {:induction false} OutputChars(ps: seq<Piece>, q: char -> bool)
    requires forall p :: p in ps && p.Keep? ==> q(p.c)
    requires forall p :: p in ps && p.Replace? ==> AllChars(p.replacement, q)
    ensures AllChars(Output(ps), q)
  {
    if ps != [] {
      OutputChars(ps[1..], q);
      assert ps[0] in ps;
    }
  }

  predicate NoAdjacentRuns(ps: seq<Piece>) {
    forall k :: 0 < k < |ps| ==> ps[k - 1].Keep? || ps[k].Keep?
  }

  /** After a whitespace run the scan goes on with a kept character. */
  lemma {:induction false} CollapseRunsFrom(s: string, sep: string, i: nat)
    requires i <= |s|
    ensures i < |s| && !IsSpace(s[i]) ==> Scan(SpaceRuns(sep), s, i)[0].Keep?
    ensures NoAdjacentRuns(Scan(SpaceRuns(sep), s, i))
    decreases |s| - i
  {
    var ps := Scan(SpaceRuns(sep), s, i);
    if i < |s| {
      var h := SpaceRunAt(sep, s, i);
      if Advances(h, s, i) {
        var e := h.value.end;
        CollapseRunsFrom(s, sep, e);
        var rest := Scan(SpaceRuns(sep), s, e);
        assert ps == [ps[0]] + rest;
        if rest != [] {
          assert e < |s| && !IsSpace(s[e]);
          assert ps[1] == rest[0];
        }
        forall k | 1 < k < |ps| ensures ps[k - 1].Keep? || ps[k].Keep? {
          assert ps[k - 1] == rest[k - 2] && ps[k] == rest[k - 1];
        }
      } else {
        CollapseRunsFrom(s, sep, i + 1);
        var rest := Scan(SpaceRuns(sep), s, i + 1);
        assert ps == [Keep(s[i])] + rest;
        forall k | 1 < k < |ps| ensures ps[k - 1].Keep? || ps[k].Keep? {
          var k' := k - 1;
          assert 0 < k' < |rest|;
          assert ps[k - 1] == rest[k' - 1] && ps[k] == rest[k'];
          assert rest[k' - 1].Keep? || rest[k'].Keep?;
        }
      }
    }
  }

  /** What one whitespace run is replaced by. */
  predicate RunReplaced(sep: string, matched: string, replacement: string) {
    matched != [] && AllChars(matched, IsSpace) && replacement == sep
  }

  lemma SpaceRunMatch(sep: string, s: string, j: nat)
    requires Advances(SpaceRunAt(sep, s, j), s, j)
    ensures RunReplaced(sep, s[j..SpaceRunAt(sep, s, j).value.end], SpaceRunAt(sep, s, j).value.repl)
  {
    var e := SpanEnd(s, j, IsSpace);
    forall x | 0 <= x < e - j ensures IsSpace(s[j..e][x]) {
      assert s[j..e][x] == s[j + x];
    }
  }

  /** `re.sub(r"\s+", sep, s)` cuts `s` into non-space characters, kept, and
      whitespace runs, each replaced by one `sep`; no two runs are adjacent,
      so every maximal run of whitespace becomes exactly one separator. */
  lemma CollapseRuns(s: string, sep: string)
    ensures var ps := Scan(SpaceRuns(sep), s, 0);
      Source(ps) == s && Output(ps) == Collapse(s, sep) &&
      (forall p :: p in ps && p.Keep? ==> !IsSpace(p.c)) &&
      (forall p :: p in ps && p.Replace? ==> RunReplaced(sep, p.matched, p.replacement)) &&
      NoAdjacentRuns(ps)
  {
    var m := SpaceRuns(sep);
    ScanCoversInput(m, s, 0);
    ScanKeepsUnmatched(m, s, 0, c => !IsSpace(c));
    forall j | 0 <= j < |s| && Advances(m(s, j), s, j)
      ensures RunReplaced(sep, s[j..m(s, j).value.end], m(s, j).value.repl)
    {
      SpaceRunMatch(sep, s, j);
    }
    ScanReplacesMatches(m, s, 0, (a: string, b: string) => RunReplaced(sep, a, b));
    CollapseRunsFrom(s, sep, 0);
  }

  /** Only slug characters. */
  predicate SlugText(s: string) { forall c :: c in s ==> SlugChar(c) }

  /** Only slug characters and whitespace. */
  predicate SlugOrSpace(s: string) { forall j :: 0 <= j < |s| && !IsSpace(s[j]) ==> SlugChar(s[j]) }

  /** Only slug characters and characters of the separator. */
  predicate SlugOrSep(s: string, sep: string) { forall c :: c in s ==> SlugChar(c) || c in sep }

  /** Every character of a slug is a lower-case word character, `-`, or a
      character of the separator; the slug neither starts nor ends with a
      separator character. */
  lemma SlugShape(value: string, sep: string)
    ensures var r := SlugifyHeading(value, sep);
      SlugOrSep(r, sep) && (r == [] || (r[0] !in sep && r[|r| - 1] !in sep))
  {
    var cleaned := Lower(Strip(Filter(value, SlugKept)));
    var collapsed := Collapse(cleaned, sep);
    var r := StripChars(collapsed, sep);
    assert r == SlugifyHeading(value, sep);
    CleanedChars(value);
    CollapsedChars(cleaned, sep);
    StrippedChars(collapsed, sep);
  }

  lemma StrippedChars(s: string, sep: string)
    requires SlugOrSep(s, sep)
    ensures SlugOrSep(StripChars(s, sep), sep)
  {
  }

  /** After filtering, stripping and lower-casing, every character that is
      not whitespace is a slug character. */
  lemma CleanedChars(value: string)
    ensures SlugOrSpace(Lower(Strip(Filter(value, SlugKept))))
  {
    var filtered := Filter(value, SlugKept);
    var stripped := Strip(filtered);
    var cleaned := Lower(stripped);
    forall j | 0 <= j < |cleaned| && !IsSpace(cleaned[j]) ensures SlugChar(cleaned[j]) {
      assert stripped[j] in filtered;
      LowerKept(stripped[j]);
    }
  }

  /** Lower-casing a kept character gives whitespace or a slug character. */
  lemma LowerKept(c: char)
    requires SlugKept(c)
    ensures IsSpace(LowerChar(c)) || SlugChar(LowerChar(c))
  {
    if IsUpper(c) {
      assert 'a' <= LowerChar(c) <= 'z';
    }
  }

  /** Collapsing the whitespace of such a string leaves slug characters and
      separator characters. */
  lemma CollapsedChars(s: string, sep: string)
    requires SlugOrSpace(s)
    ensures SlugOrSep(Collapse(s, sep), sep)
  {
    var q := (c: char) => SlugChar(c) || c in sep;
    forall j | 0 <= j < |s| && !Advances(SpaceRuns(sep)(s, j), s, j) ensures q(s[j]) {
    }
    ScanKeepsUnmatched(SpaceRuns(sep), s, 0, q);
    var ps := Scan(SpaceRuns(sep), s, 0);
    forall p | p in ps && p.Replace? ensures AllChars(p.replacement, q) {
      ScanReplacesMatches(SpaceRuns(sep), s, 0, (m: string, r: string) => r == sep);
    }
    OutputChars(ps, q);
    var collapsed := Collapse(s, sep);
    forall c | c in collapsed ensures q(c) {
      var x :| 0 <= x < |collapsed| && collapsed[x] == c;
    }
  }

  /** A string of slug characters is left alone by filtering, stripping
      and lower-casing. */
  lemma SlugCharsClean(y: string)
    requires SlugText(y)
    ensures Lower(Strip(Filter(y, SlugKept))) == y
  {
    FilterOfSlugChars(y);
    StripOfSlugChars(y);
    LowerOfSlugChars(y);
  }

  lemma FilterOfSlugChars(y: string)
    requires SlugText(y)
    ensures Filter(y, SlugKept) == y
  {
    forall j | 0 <= j < |y| ensures SlugKept(y[j]) { assert y[j] in y; }
    FilterKeepsAll(y, SlugKept);
  }

  lemma StripOfSlugChars(y: string)
    requires SlugText(y)
    ensures Strip(y) == y
  {
    if y != [] {
      assert y[0] in y && y[|y| - 1] in y;
      SpaceIsNotWord(y[0]);
      SpaceIsNotWord(y[|y| - 1]);
    }
    StripKeepsTrimmed(y);
  }

  lemma LowerOfSlugChars(y: string)
    requires SlugText(y)
    ensures Lower(y) == y
  {
    forall j | 0 <= j < |y| ensures Lower(y)[j] == y[j] { assert y[j] in y; }
  }

  /** A string of slug characters holds no whitespace run to collapse. */
  lemma SlugCharsNoRuns(y: string, sep: string)
    requires SlugText(y)
    ensures Collapse(y, sep) == y
  {
    forall j | 0 <= j < |y| ensures !Advances(SpaceRuns(sep)(y, j), y, j) {
      assert y[j] in y;
      SpaceIsNotWord(y[j]);
    }
    SubWithoutMatch(SpaceRuns(sep), y);
  }

  /** With the default separator, slugifying a slug changes nothing. */
  lemma SlugIdempotent(value: string)
    ensures SlugifyHeading(SlugifyHeading(value, "-"), "-") == SlugifyHeading(value, "-")
  {
    var y := SlugifyHeading(value, "-");
    SlugShape(value, "-");
    forall c | c in y ensures SlugChar(c) {
      if c in "-" { assert c == '-'; }
    }
    SlugOfSlug(y);
  }

  /** A string of slug characters that neither starts nor ends with `-` is
      its own slug. */
  lemma SlugOfSlug(y: string)
    requires SlugText(y)
    requires y == [] || (y[0] != '-' && y[|y| - 1] != '-')
    ensures SlugifyHeading(y, "-") == y
  {
    SlugCharsClean(y);
    SlugCharsNoRuns(y, "-");
    StripCharsKeepsTrimmed(y, "-");
  }

  // ---------------------------------------------------------------------
  // extract_title_and_date

  /** `extract_title_and_date`: the first `# ` heading's text, stripped, or
      "Analysis Report"; the first date in the text, else the first date in
      the file name, else `today`. */
  function ExtractTitleAndDate(content: string, fileName: string, today: string): (r: (string, string))
    ensures ReportConverter.FirstTitle(content).None? ==> r.0 == ReportConverter.DefaultTitle
    ensures ReportConverter.FirstTitle(content).Some? ==>
      r.0 == Strip(ReportConverter.FirstTitle(content).value) && '\n' !in r.0 &&
      (r.0 == [] || (!IsSpace(r.0[0]) && !IsSpace(r.0[|r.0| - 1])))
    ensures ReportConverter.FirstDate(content).Some? ==> r.1 == ReportConverter.FirstDate(content).value
    ensures ReportConverter.FirstDate(content).None? && ReportConverter.FirstDate(fileName).Some? ==>
      r.1 == ReportConverter.FirstDate(fileName).value
    ensures ReportConverter.FirstDate(content).None? && ReportConverter.FirstDate(fileName).None? ==> r.1 == today
    ensures r.1 == today || ReportConverter.IsDateText(r.1)
  {
    (TitleOrDefault(ReportConverter.FirstTitle(content)),
     DateOrFallback(ReportConverter.FirstDate(content), ReportConverter.FirstDate(fileName), today))
  }

  /** `title_match.group(1).strip() if title_match else "Analysis Report"`. */
  function TitleOrDefault(capture: Option<string>): (r: string)
    requires capture.Some? ==> '\n' !in capture.value
    ensures capture.Some? ==> r == Strip(capture.value) && '\n' !in r
    ensures capture.Some? ==> r == [] || (!IsSpace(r[0]) && !IsSpace(r[|r| - 1]))
    ensures capture.None? ==> r == ReportConverter.DefaultTitle
  {
    if capture.Some? then Strip(capture.value) else ReportConverter.DefaultTitle
  }

  /** The date in the text, else the date in the file name, else `today`. */
  function DateOrFallback(inText: Option<string>, inName: Option<string>, today: string): (r: string)
    ensures inText.Some? ==> r == inText.value
    ensures inText.None? && inName.Some? ==> r == inName.value
    ensures inText.None? && inName.None? ==> r == today
  {
    if inText.Some? then inText.value else if inName.Some? then inName.value else today
  }

  /** Both converters read the same title, this one stripped, and the same
      date whenever the text holds one or the file name does not. */
  lemma AgreesWithReportConverter(content: string, fileName: string, today: string)
    ensures var r := ExtractTitleAndDate(content, fileName, today);
      var u := ReportConverter.ExtractTitleAndDate(content, today);
      r.0 == Strip(u.0) &&
      (ReportConverter.FirstDate(content).Some? || ReportConverter.FirstDate(fileName).None? ==> r.1 == u.1)
  {
    if ReportConverter.FirstTitle(content).None? {
      StripKeepsTrimmed(ReportConverter.DefaultTitle);
    }
  }

  /** A text without digits takes its date from a file name that is a date. */
  lemma DateFromFileName(content: string, fileName: string, today: string)
    requires forall j :: 0 <= j < |content| ==> !IsDigit(content[j])
    requires fileName == "2024-05-06"
    ensures ExtractTitleAndDate(content, fileName, today).1 == "2024-05-06"
  {
    forall i | 0 <= i <= |content| ensures ReportConverter.DateAt(content, i).None? {
      if i + 10 <= |content| { assert content[i..i + 10][0] == content[i]; }
    }
    assert fileName[0..10] == fileName;
    assert ReportConverter.IsDigits(fileName[..4]) by { assert fileName[..4] == "2024"; }
    assert ReportConverter.IsDigits(fileName[5..7]) by { assert fileName[5..7] == "05"; }
    assert ReportConverter.IsDigits(fileName[8..]) by { assert fileName[8..] == "06"; }
    assert ReportConverter.DateAt(fileName, 0) == Some(fileName);
  }

  // ---------------------------------------------------------------------
  // post_process_html: wrap_tables

  const TableOpen := "<table>"
  const TableClose := "</table>"
  const WrapperOpen := "<div class=\"table-wrapper\">"
  const WrapperClose := "</div>"

  /** The first `</table>` at or after `j`; `.` matches newlines under `re.DOTALL`. */
  function CloseFrom(s: string, j: nat): (r: Option<nat>)
    requires j <= |s|
    ensures r.Some? ==> j <= r.value && r.value + 8 <= |s| && s[r.value..r.value + 8] == TableClose
    ensures r.Some? ==> forall x :: j <= x < r.value ==> !StartsWith(s[x..], TableClose)
    ensures r.None? ==> forall x :: j <= x <= |s| ==> !StartsWith(s[x..], TableClose)
    decreases |s| - j
  {
    if StartsWith(s[j..], TableClose) then Some(j)
    else if j < |s| then CloseFrom(s, j + 1)
    else None
  }

  /** `<table>.*?</table>` at `i`, replaced by the table inside a wrapper. */
  function TableAt(s: string, i: nat): Option<Hit> {
    if i <= |s| && StartsWith(s[i..], TableOpen) then
      match CloseFrom(s, i + 7)
      case Some(j) => Some(Hit(j + 8, WrapperOpen + s[i..j + 8] + WrapperClose))
      case None => None
    else None
  }

  function WrapTables(html: string): string {
    Sub(TableAt, html)
  }

  /** One table, from its `<table>` to the first `</table>` after it, inside
      a wrapper. */
  predicate WrappedTable(matched: string, replacement: string) {
    |matched| >= 15 && StartsWith(matched, TableOpen) && matched[|matched| - 8..] == TableClose &&
    (forall x :: 0 <= x < |matched| - 8 ==> !StartsWith(matched[x..], TableClose)) &&
    replacement == WrapperOpen + matched + WrapperClose
  }

  /** No `</table>` starts inside a leading `<table>`. */
  lemma OpenIsNotClose(m: string, x: nat)
    requires StartsWith(m, TableOpen) && x < 7
    ensures !StartsWith(m[x..], TableClose)
  {
    assert m[x] == m[..7][x] == TableOpen[x];
    if x == 0 {
      assert m[x..][1] == m[..7][1] == 't';
    } else {
      assert m[x..][0] != '<';
    }
  }

  /** A closing tag inside a slice starts one in the whole text. */
  lemma CloseInSlice(s: string, i: nat, e: nat, x: nat)
    requires i <= e <= |s| && x <= e - i
    requires StartsWith(s[i..e][x..], TableClose)
    ensures StartsWith(s[i + x..], TableClose)
  {
    assert s[i..e][x..][..8] == s[i + x..][..8];
  }

  /** The ends of a table match: its opening tag and its first closing tag. */
  lemma TableEnds(s: string, i: nat, j: nat)
    requires i + 7 <= j && j + 8 <= |s| && StartsWith(s[i..], TableOpen) && s[j..j + 8] == TableClose
    ensures var m := s[i..j + 8]; |m| >= 15 && StartsWith(m, TableOpen) && m[|m| - 8..] == TableClose
  {
    var m := s[i..j + 8];
    assert m[..7] == s[i..][..7];
    assert m[|m| - 8..] == s[j..j + 8];
  }

  /** No closing tag starts inside a table before its first closing tag. */
  lemma NoCloseInside(s: string, i: nat, j: nat)
    requires i + 7 <= j && j + 8 <= |s| && StartsWith(s[i..], TableOpen)
    requires forall x :: i + 7 <= x < j ==> !StartsWith(s[x..], TableClose)
    ensures var m := s[i..j + 8]; forall x :: 0 <= x < |m| - 8 ==> !StartsWith(m[x..], TableClose)
  {
    var m := s[i..j + 8];
    assert StartsWith(m, TableOpen) by { assert m[..7] == s[i..][..7]; }
    forall x | 0 <= x < |m| - 8 ensures !StartsWith(m[x..], TableClose) {
      if x < 7 {
        OpenIsNotClose(m, x);
      } else if StartsWith(m[x..], TableClose) {
        CloseInSlice(s, i, j + 8, x);
      }
    }
  }

  lemma TableAtShape(s: string, i: nat)
    requires Advances(TableAt(s, i), s, i)
    ensures WrappedTable(s[i..TableAt(s, i).value.end], TableAt(s, i).value.repl)
  {
    var j := CloseFrom(s, i + 7).value;
    assert TableAt(s, i) == Some(Hit(j + 8, WrapperOpen + s[i..j + 8] + WrapperClose));
    TableWrapped(s, i, j);
  }

  lemma TableWrapped(s: string, i: nat, j: nat)
    requires i + 7 <= j && j + 8 <= |s| && StartsWith(s[i..], TableOpen) && s[j..j + 8] == TableClose
    requires forall x :: i + 7 <= x < j ==> !StartsWith(s[x..], TableClose)
    ensures WrappedTable(s[i..j + 8], WrapperOpen + s[i..j + 8] + WrapperClose)
  {
    TableEnds(s, i, j);
    NoCloseInside(s, i, j);
  }

  /** Table wrapping leaves the text outside tables as it is and puts each
      table, up to its first closing tag, inside one wrapper. */
  lemma WrapTablesShape(html: string)
    ensures var ps := Scan(TableAt, html, 0);
      Source(ps) == html && Output(ps) == WrapTables(html) &&
      forall p :: p in ps && p.Replace? ==> WrappedTable(p.matched, p.replacement)
  {
    ScanCoversInput(TableAt, html, 0);
    forall j | 0 <= j < |html| && Advances(TableAt(html, j), html, j)
      ensures WrappedTable(html[j..TableAt(html, j).value.end], TableAt(html, j).value.repl)
    {
      TableAtShape(html, j);
    }
    ScanReplacesMatches(TableAt, html, 0, WrappedTable);
  }

  /** A `<table>` tag with a `</table>` somewhere after it. */
  predicate ClosableTable(s: string, i: nat) {
    i <= |s| && StartsWith(s[i..], TableOpen) &&
    exists x :: i + 7 <= x <= |s| && StartsWith(s[x..], TableClose)
  }

  /** The pattern matches wherever a `<table>` tag is closed later on. */
  lemma TableAtWhereClosable(s: string, i: nat)
    requires ClosableTable(s, i)
    ensures Advances(TableAt(s, i), s, i)
  {
    var x :| i + 7 <= x <= |s| && StartsWith(s[x..], TableClose);
    assert CloseFrom(s, i + 7).Some?;
  }

  /** No table escapes the wrapping: every character kept as it is stands
      where no closable `<table>` starts, so each such tag is either wrapped
      itself or lies inside an earlier wrapped table. */
  lemma WrapTablesWrapsEvery(html: string)
    ensures var ps := Scan(TableAt, html, 0);
      forall k :: 0 <= k < |ps| && ps[k].Keep? ==> !ClosableTable(html, |Source(ps[..k])|)
  {
    var ps := Scan(TableAt, html, 0);
    ScanKeepsOnlyUnmatched(TableAt, html, 0);
    forall k | 0 <= k < |ps| && ps[k].Keep? ensures !ClosableTable(html, |Source(ps[..k])|) {
      var j := |Source(ps[..k])|;
      assert KeptAt(TableAt, html, 0 + j, ps[k].c);
      if ClosableTable(html, j) { TableAtWhereClosable(html, j); }
    }
  }

  /** Text without a `<table>` tag is left unchanged. */
  lemma WrapTablesWithoutTable(html: string)
    requires !Contains(html, TableOpen)
    ensures WrapTables(html) == html
  {
    SubWithoutMatch(TableAt, html);
  }

  // ---------------------------------------------------------------------
  // post_process_html: wrap_percentages

  /** `(?<![\w\-])` at `i`: the character before, if any, is neither a word
      character nor `-`. The look-behind reads the text as it was before
      the substitution. */
  predicate FreeBefore(s: string, i: nat) {
    i == 0 || (i <= |s| && !IsWord(s[i - 1]) && s[i - 1] != '-')
  }

  /** `[+-]\d+(?:\.\d+)?%` at `i`: where the integer digits end and where the
      token ends, past its `%`. */
  function PercentParts(s: string, i: nat): (r: Option<(nat, nat)>)
    ensures r.Some? ==> var (d, e) := r.value;
      i + 1 < d < e <= |s| && (s[i] == '+' || s[i] == '-') && ReportConverter.IsDigits(s[i + 1..d]) &&
      s[e - 1] == '%' && (d == e - 1 || (d + 2 < e && s[d] == '.' && ReportConverter.IsDigits(s[d + 1..e - 1])))
  {
    if i < |s| && (s[i] == '+' || s[i] == '-') then
      var d := SpanEnd(s, i + 1, IsDigit);
      if d == i + 1 then None
      else
        var e := if d + 1 < |s| && s[d] == '.' && IsDigit(s[d + 1]) then SpanEnd(s, d + 1, IsDigit) else d;
        if e < |s| && s[e] == '%' then
          Some((d, e + 1))
        else None
    else None
  }

  function PercentClass(value: string): string {
    if value != [] && value[0] == '+' then "status-positive" else "status-negative"
  }

  /** A signed percentage at `i`, replaced by a span carrying its class. */
  function PercentAt(s: string, i: nat): Option<Hit> {
    if FreeBefore(s, i) then
      match PercentParts(s, i)
      case Some((_, e)) => Some(Hit(e, "<span class=\"" + PercentClass(s[i..e]) + "\">" + s[i..e] + "</span>"))
      case None => None
    else None
  }

  function WrapPercentages(html: string): string {
    Sub(PercentAt, html)
  }

  /** A wrapped percentage is a sign, digits, optionally `.` and digits, and
      `%`, not preceded by a word character or `-`; the span keeps the token
      and is marked positive exactly when the sign is `+`. */
  lemma PercentShape(s: string, i: nat)
    requires PercentAt(s, i).Some?
    ensures var h := PercentAt(s, i).value; var value := s[i..h.end];
      FreeBefore(s, i) && PercentParts(s, i).Some? && h.end == PercentParts(s, i).value.1 &&
      value[0] in "+-" && value[|value| - 1] == '%' &&
      h.repl == "<span class=\"" + PercentClass(value) + "\">" + value + "</span>" &&
      (PercentClass(value) == "status-positive" <==> s[i] == '+') &&
      (PercentClass(value) == "status-negative" <==> s[i] == '-')
  {
  }

  /** `[+-]\d+(?:\.\d+)?%` spelled out on `s[i..e]`: a sign, digits up to
      `d`, then either `%` or `.`, digits and `%`. */
  predicate PercentTokenAt(s: string, i: nat, d: nat, e: nat) {
    i + 1 < d < e <= |s| && (s[i] == '+' || s[i] == '-') &&
    (forall j :: i + 1 <= j < d ==> IsDigit(s[j])) && s[e - 1] == '%' &&
    (d == e - 1 || (d + 2 < e && s[d] == '.' && forall j :: d + 1 <= j < e - 1 ==> IsDigit(s[j])))
  }

  /** A free-standing signed percentage at `i`. */
  predicate FreePercentAt(s: string, i: nat) {
    FreeBefore(s, i) && exists d, e | i < d < e <= |s| :: PercentTokenAt(s, i, d, e)
  }

  /** Wherever a free-standing signed percentage starts, the pattern matches
      it whole and wraps it in a span carrying its class. */
  lemma PercentAtToken(s: string, i: nat, d: nat, e: nat)
    requires FreeBefore(s, i) && PercentTokenAt(s, i, d, e)
    ensures PercentAt(s, i) == Some(Hit(e, "<span class=\"" + PercentClass(s[i..e]) + "\">" + s[i..e] + "</span>"))
  {
    PercentPartsAt(s, i, d, e);
  }

  lemma PercentPartsAt(s: string, i: nat, d: nat, e: nat)
    requires PercentTokenAt(s, i, d, e)
    ensures PercentParts(s, i) == Some((d, e))
  {
    SpanEndAt(s, i + 1, d, IsDigit);
    if d < e - 1 {
      SpanEndAt(s, d + 1, e - 1, IsDigit);
    }
  }

  /** No signed percentage escapes the wrapping: every character kept as it
      is stands where no free-standing signed percentage starts. */
  lemma WrapPercentagesWrapsEvery(s: string)
    ensures var ps := Scan(PercentAt, s, 0);
      forall k :: 0 <= k < |ps| && ps[k].Keep? ==> !FreePercentAt(s, |Source(ps[..k])|)
  {
    var ps := Scan(PercentAt, s, 0);
    ScanKeepsOnlyUnmatched(PercentAt, s, 0);
    forall k | 0 <= k < |ps| && ps[k].Keep? ensures !FreePercentAt(s, |Source(ps[..k])|) {
      var j := |Source(ps[..k])|;
      assert KeptAt(PercentAt, s, 0 + j, ps[k].c);
      if FreePercentAt(s, j) {
        var d, e :| PercentTokenAt(s, j, d, e);
        PercentAtToken(s, j, d, e);
      }
    }
  }

  /** A sign that follows a word character or `-` never starts a wrapped
      percentage; in particular unsigned percentages are never wrapped. */
  lemma PercentagesNeedFreeSign(s: string)
    requires forall j :: 0 <= j < |s| && (s[j] == '+' || s[j] == '-') ==> !FreeBefore(s, j)
    ensures WrapPercentages(s) == s
  {
    SubWithoutMatch(PercentAt, s);
  }

  /** `post_process_html`: tables are wrapped first, then percentages. */
  function PostProcessHtml(html: string): string {
    WrapPercentages(WrapTables(html))
  }

  /** `post_process_html` wraps what it should: every closable table of the
      page is inside a wrapper, and then every free-standing signed
      percentage of the wrapped page is inside a span. */
  lemma PostProcessWrapsEvery(html: string)
    ensures var ps := Scan(TableAt, html, 0);
      Output(ps) == WrapTables(html) &&
      forall k :: 0 <= k < |ps| && ps[k].Keep? ==> !ClosableTable(html, |Source(ps[..k])|)
    ensures var w := WrapTables(html); var qs := Scan(PercentAt, w, 0);
      Output(qs) == WrapPercentages(w) && PostProcessHtml(html) == WrapPercentages(w) &&
      forall k :: 0 <= k < |qs| && qs[k].Keep? ==> !FreePercentAt(w, |Source(qs[..k])|)
  {
    WrapTablesWrapsEvery(html);
    WrapPercentagesWrapsEvery(WrapTables(html));
  }

  /** A page with no table and no free-standing sign passes through
      post-processing unchanged. */
  lemma PostProcessUnchanged(html: string)
    requires !Contains(html, TableOpen)
    requires forall j :: 0 <= j < |html| && (html[j] == '+' || html[j] == '-') ==> !FreeBefore(html, j)
    ensures PostProcessHtml(html) == html
  {
    WrapTablesWithoutTable(html);
    PercentagesNeedFreeSign(html);
  }
}
