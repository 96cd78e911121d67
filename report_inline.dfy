/** The regular-expression passes of the report converter's `markdown_to_html`
    (utils/convert_md_to_html.py): headings, horizontal rules and blockquotes
    under `re.MULTILINE`, then bold, italic, inline code and links, and
    finally the status class for signed percentages. Each pattern is a
    matcher for the `Regex` scan, with Python's backtracking resolved. */
module ReportInline {
  import opened Text
  import opened Regex

  // Line patterns: `^<prefix>\s+(.+?)$`.

  /** The text captured by `\s+(.+?)$` tried at `q`: where it starts and where
      its line ends. */
  function CaptureRest(s: string, q: nat): (r: Option<(nat, nat)>)
    requires q <= |s|
    ensures r.Some? ==> q < r.value.0 < r.value.1 <= |s|
    ensures r.Some? ==> AllChars(s[q..r.value.0], IsSpace)
    ensures r.Some? ==> '\n' !in s[r.value.0..r.value.1] && (r.value.1 == |s| || s[r.value.1] == '\n')
    ensures r.Some? <==> WsThenRest(s, q).Some?
  {
    match WsThenRest(s, q)
    case Some(k) =>
      var e := LineEnd(s, k);
      assert forall j :: k <= j < e ==> s[k..e][j - k] == s[j];
      Some((k, e))
    case None => None
  }

  /** The character for a heading level. */
  function LevelDigit(n: nat): char
    requires n <= 9
  {
    ('0' as int + n) as char
  }

  function HeadingOpen(n: nat): string requires n <= 9 { "<h" + [LevelDigit(n)] + ">" }
  function HeadingClose(n: nat): string requires n <= 9 { "</h" + [LevelDigit(n)] + ">" }

  predicate AllHashes(s: string) { forall j :: 0 <= j < |s| ==> s[j] == '#' }

  /** `^#{n}\s+(.+?)$` replaced by `<hn>\1</hn>`. */
  function HeadingAt(n: nat, s: string, i: nat): Option<Hit>
    requires 1 <= n <= 6
  {
    if AtLineStart(s, i) && i + n <= |s| && AllHashes(s[i..i + n]) then
      match CaptureRest(s, i + n)
      case Some((k, e)) => Some(Hit(e, HeadingOpen(n) + s[k..e] + HeadingClose(n)))
      case None => None
    else None
  }

  function Heading(n: nat): Matcher
    requires 1 <= n <= 6
  {
    (t: string, i: nat) => HeadingAt(n, t, i)
  }

  /** The six heading substitutions, six hashes first. */
  function Headings(s: string): string {
    var h6 := Sub(Heading(6), s);
    var h5 := Sub(Heading(5), h6);
    var h4 := Sub(Heading(4), h5);
    var h3 := Sub(Heading(3), h4);
    var h2 := Sub(Heading(2), h3);
    Sub(Heading(1), h2)
  }

  /** A level-`n` heading matches only where a line starts with exactly `n`
      hashes followed by whitespace, and writes `<hn>` around the rest of the
      line. */
  lemma HeadingAtShape(n: nat, s: string, i: nat)
    requires 1 <= n <= 6 && HeadingAt(n, s, i).Some?
    ensures AtLineStart(s, i) && i + n < |s|
    ensures AllHashes(s[i..i + n]) && IsSpace(s[i + n])
    ensures var h := HeadingAt(n, s, i).value;
      exists k :: i + n < k < h.end && AllChars(s[i + n..k], IsSpace) && '\n' !in s[k..h.end] &&
        (h.end == |s| || s[h.end] == '\n') && h.repl == HeadingOpen(n) + s[k..h.end] + HeadingClose(n)
  {
    var (k, e) := CaptureRest(s, i + n).value;
    assert s[i + n..k][0] == s[i + n];
  }

  /** At any one position at most one heading level matches, so the order of
      the six passes never turns a heading into a lower level. */
  lemma HeadingLevelsExclusive(n: nat, m: nat, s: string, i: nat)
    requires 1 <= n < m <= 6
    ensures !(HeadingAt(n, s, i).Some? && HeadingAt(m, s, i).Some?)
  {
    if HeadingAt(n, s, i).Some? && HeadingAt(m, s, i).Some? {
      SpaceAfterHashes(n, s, i);
      HashWithin(m, s, i, n);
      assert false;
    }
  }

  lemma SpaceAfterHashes(n: nat, s: string, i: nat)
    requires 1 <= n <= 6 && HeadingAt(n, s, i).Some?
    ensures i + n < |s| && IsSpace(s[i + n])
  {
    var (k, e) := CaptureRest(s, i + n).value;
    assert s[i + n..k][0] == s[i + n];
  }

  lemma HashWithin(m: nat, s: string, i: nat, j: nat)
    requires 1 <= m <= 6 && HeadingAt(m, s, i).Some? && j < m
    ensures i + j < |s| && s[i + j] == '#'
  {
    assert s[i..i + m][j] == s[i + j];
  }

  /** On text without newlines and not starting with `#`, no heading matches. */
  lemma NoHeadingIn(n: nat, s: string)
    requires 1 <= n <= 6 && '\n' !in s && (s == [] || s[0] != '#')
    ensures Sub(Heading(n), s) == s
  {
    forall j | 0 <= j < |s| ensures HeadingAt(n, s, j).None? {
      if j > 0 { assert s[j - 1] in s; }
      else if n <= |s| { assert s[0..n][0] == s[0]; }
    }
    SubWithoutMatch(Heading(n), s);
  }

  /** A line of `n` hashes, whitespace and text: the passes for more hashes
      find nothing, those for fewer hashes find no whitespace after their hashes. */
  lemma OtherLevelSkips(n: nat, m: nat, line: string)
    requires 1 <= n <= 6 && 1 <= m <= 6 && m != n && '\n' !in line
    requires n < |line| && AllHashes(line[..n]) && IsSpace(line[n])
    ensures Sub(Heading(m), line) == line
  {
    forall j | 0 <= j < |line| ensures HeadingAt(m, line, j).None? {
      if j > 0 {
        assert line[j - 1] in line;
      } else if m > n {
        if m <= |line| { assert line[0..m][n] == line[n]; }
      } else {
        assert line[m] == line[..n][m];
        assert SpanEnd(line, m, IsSpace) == m;
      }
    }
    SubWithoutMatch(Heading(m), line);
  }

  /** One level of the heading passes on a heading line of `n` hashes. */
  lemma HeadingPassOn(n: nat, m: nat, line: string, c: string, s: string) returns (s': string)
    requires 1 <= n <= 6 && 1 <= m <= 6 && '\n' !in line && '\n' !in c
    requires n < |line| && AllHashes(line[..n]) && IsSpace(line[n])
    requires HeadingAt(n, line, 0) == Some(Hit(|line|, HeadingOpen(n) + c + HeadingClose(n)))
    requires if m < n then s == HeadingOpen(n) + c + HeadingClose(n) else s == line
    ensures s' == Sub(Heading(m), s)
    ensures s' == (if m <= n then HeadingOpen(n) + c + HeadingClose(n) else line)
  {
    s' := Sub(Heading(m), s);
    if m >= n {
      if m == n {
        HeadingOwnPass(n, line, HeadingOpen(n) + c + HeadingClose(n));
      } else {
        OtherLevelSkips(n, m, line);
      }
    } else {
      HeadingTagLine(n, c);
      NoHeadingIn(m, s);
    }
  }

  lemma HeadingOwnPass(n: nat, line: string, h: string)
    requires 1 <= n <= 6 && line != []
    requires HeadingAt(n, line, 0) == Some(Hit(|line|, h))
    ensures Sub(Heading(n), line) == h
  {
    assert Heading(n)(line, 0) == HeadingAt(n, line, 0);
    SubWhole(Heading(n), line);
  }

  /** A written heading is one line starting with `<`. */
  lemma HeadingTagLine(n: nat, c: string)
    requires 1 <= n <= 6 && '\n' !in c
    ensures var h := HeadingOpen(n) + c + HeadingClose(n); '\n' !in h && h[0] == '<'
  {
    var o, cl := HeadingOpen(n), HeadingClose(n);
    assert '\n' !in o && '\n' !in cl;
    var h := o + c + cl;
    forall j | 0 <= j < |h| ensures h[j] != '\n' {
      if j < |o| { assert h[j] == o[j]; }
      else if j < |o| + |c| { assert h[j] == c[j - |o|]; }
      else { assert h[j] == cl[j - |o| - |c|]; }
    }
  }

  /** A line of exactly `n` hashes (1 to 6), whitespace, and text `c` that
      starts with a non-space character becomes `<hn>c</hn>`. */
  lemma HeadingLine(n: nat, ws: string, c: string)
    requires 1 <= n <= 6
    requires ws != [] && AllChars(ws, IsSpace) && '\n' !in ws
    requires c != [] && !IsSpace(c[0]) && '\n' !in c
    ensures Headings(seq(n, _ => '#') + ws + c) == HeadingOpen(n) + c + HeadingClose(n)
  {
    var line := seq(n, _ => '#') + ws + c;
    assert line[..n] == seq(n, _ => '#');
    assert '\n' !in line by {
      forall j | 0 <= j < |line| ensures line[j] != '\n' {
        if j >= n + |ws| { assert line[j] == c[j - n - |ws|]; }
        else if j >= n { assert line[j] == ws[j - n]; assert ws[j - n] in ws; }
      }
    }
    assert IsSpace(line[n]) by { assert line[n] == ws[0]; }
    var q := n + |ws|;
    assert SpanEnd(line, n, IsSpace) == q by {
      forall j | n <= j < q ensures IsSpace(line[j]) { assert line[j] == ws[j - n]; }
      assert line[q] == c[0];
      SpanEndAt(line, n, q, IsSpace);
    }
    assert CaptureRest(line, n) == Some((q, |line|)) by {
      assert LineRestFrom(line, q);
    }
    assert line[q..|line|] == c;
    var h := HeadingPassOn(n, 6, line, c, line);
    h := HeadingPassOn(n, 5, line, c, h);
    h := HeadingPassOn(n, 4, line, c, h);
    h := HeadingPassOn(n, 3, line, c, h);
    h := HeadingPassOn(n, 2, line, c, h);
    h := HeadingPassOn(n, 1, line, c, h);
  }

  /** `^---+$` replaced by `<hr>`: a line of three or more dashes and nothing else. */
  function RuleAt(s: string, i: nat): Option<Hit> {
    if AtLineStart(s, i) && i <= |s| then
      var e := SpanEnd(s, i, c => c == '-');
      if e >= i + 3 && (e == |s| || s[e] == '\n') then Some(Hit(e, "<hr>")) else None
    else None
  }

  /** A rule matches exactly the lines made of three or more dashes. */
  lemma RuleAtSpec(s: string, i: nat)
    requires i <= |s|
    ensures RuleAt(s, i).Some? <==>
      AtLineStart(s, i) && LineEnd(s, i) >= i + 3 && forall j :: i <= j < LineEnd(s, i) ==> s[j] == '-'
    ensures RuleAt(s, i).Some? ==> RuleAt(s, i).value == Hit(LineEnd(s, i), "<hr>")
  {
    var e := SpanEnd(s, i, c => c == '-');
    var l := LineEnd(s, i);
    if e < l { assert s[e] != '-'; }
  }

  /** `^>\s+(.+?)$` replaced by `<blockquote><p>\1</p></blockquote>`: one tag per line. */
  function QuoteAt(s: string, i: nat): Option<Hit> {
    if AtLineStart(s, i) && i < |s| && s[i] == '>' then
      match CaptureRest(s, i + 1)
      case Some((k, e)) => Some(Hit(e, "<blockquote><p>" + s[k..e] + "</p></blockquote>"))
      case None => None
    else None
  }

  /** A blockquote match is `>` at a line start, whitespace, and the text up
      to the end of the line where that whitespace stops, which is wrapped in
      `<blockquote><p>`; the whitespace may cross line breaks. */
  lemma QuoteShape(s: string, i: nat)
    requires QuoteAt(s, i).Some?
    ensures AtLineStart(s, i) && i + 1 < |s| && s[i] == '>' && IsSpace(s[i + 1])
    ensures var h := QuoteAt(s, i).value;
      exists k :: i + 1 < k < h.end && AllChars(s[i + 1..k], IsSpace) && '\n' !in s[k..h.end] &&
        (h.end == |s| || s[h.end] == '\n') && h.repl == "<blockquote><p>" + s[k..h.end] + "</p></blockquote>"
  {
    var (k, e) := CaptureRest(s, i + 1).value;
    assert s[i + 1..k][0] == s[i + 1];
  }

  // Inline patterns: no match reaches past the end of its line.

  /** Lazy `(.+?)` followed by `delim`, with the captured text starting at
      `from - 1`: the first `j >= from` where `delim` starts, provided no
      newline comes before it. */
  function FindClose(s: string, j: nat, delim: string): (r: Option<nat>)
    requires j <= |s|
    ensures r.Some? ==> j <= r.value && r.value + |delim| <= |s| && s[r.value..r.value + |delim|] == delim
    ensures r.Some? ==> forall x :: j <= x < r.value ==> s[x] != '\n' && !StartsWith(s[x..], delim)
    decreases |s| - j
  {
    if StartsWith(s[j..], delim) then Some(j)
    else if j < |s| && s[j] != '\n' then FindClose(s, j + 1, delim)
    else None
  }

  /** `open(.+?)close` at `i`, where `open` and `close` are the same delimiter:
      the end of the captured text. */
  function Delimited(s: string, i: nat, delim: string): (r: Option<nat>)
    ensures r.Some? ==> i + |delim| < r.value && r.value + |delim| <= |s|
  {
    var start := i + |delim|;
    if start < |s| && StartsWith(s[i..], delim) && s[start] != '\n' then FindClose(s, start + 1, delim)
    else None
  }

  function Wrapped(delim: string, tag: string, s: string, i: nat): Option<Hit> {
    match Delimited(s, i, delim)
    case Some(j) => Some(Hit(j + |delim|, "<" + tag + ">" + s[i + |delim|..j] + "</" + tag + ">"))
    case None => None
  }

  /** `\*\*(.+?)\*\*` replaced by `<strong>\1</strong>`. */
  function BoldAt(s: string, i: nat): Option<Hit> { Wrapped("**", "strong", s, i) }

  /** `\*(.+?)\*` replaced by `<em>\1</em>`. */
  function ItalicAt(s: string, i: nat): Option<Hit> { Wrapped("*", "em", s, i) }

  /** `` `(.+?)` `` replaced by `<code>\1</code>`. */
  function CodeAt(s: string, i: nat): Option<Hit> { Wrapped("`", "code", s, i) }

  /** `](` at `j`, then a non-empty URL closed by `)` on the same line. */
  predicate LinkCloseAt(s: string, j: nat) {
    j + 3 <= |s| && StartsWith(s[j..], "](") && s[j + 2] != '\n' && FindClose(s, j + 3, ")").Some?
  }

  /** The URL part starting at `c`: `](`, then a non-empty URL on one line
      without `)`, closed by the `)` at `k`. */
  predicate UrlCloses(s: string, c: nat, k: nat) {
    c + 3 <= k < |s| && s[c..c + 2] == "](" && s[c + 2] != '\n' && s[k] == ')' &&
    forall x :: c + 3 <= x < k ==> s[x] != ')' && s[x] != '\n'
  }

  /** `c` is the first place from `j` where the URL part can start, and no
      newline comes before it. */
  predicate FirstLinkClose(s: string, j: nat, c: nat) {
    j <= c && LinkCloseAt(s, c) && forall x :: j <= x < c ==> x < |s| && s[x] != '\n' && !LinkCloseAt(s, x)
  }

  /** The link text ends at `j`, the first place on the line from which `](`
      and a non-empty URL up to `)` on the same line follow; the URL ends at
      the first `)` after its first character. */
  function LinkFrom(s: string, j: nat): (r: Option<(nat, nat)>)
    requires j <= |s|
    ensures r.Some? ==> FirstLinkClose(s, j, r.value.0) && UrlCloses(s, r.value.0, r.value.1)
    ensures r.None? ==> forall x :: j <= x < LineEnd(s, j) ==> !LinkCloseAt(s, x)
    decreases |s| - j
  {
    if LinkCloseAt(s, j) then
      LinkCloseFacts(s, j);
      Some((j, FindClose(s, j + 3, ")").value))
    else if j < |s| && s[j] != '\n' then LinkFrom(s, j + 1)
    else None
  }

  lemma LinkCloseFacts(s: string, j: nat)
    requires LinkCloseAt(s, j)
    ensures UrlCloses(s, j, FindClose(s, j + 3, ")").value)
  {
    var c := FindClose(s, j + 3, ")").value;
    assert s[j..j + 2] == s[j..][..2];
    assert s[c..c + 1][0] == s[c];
  }

  /** `\[(.+?)\]\((.+?)\)` replaced by `<a href="\2">\1</a>`. */
  function LinkAt(s: string, i: nat): Option<Hit> {
    if i + 1 < |s| && s[i] == '[' && s[i + 1] != '\n' then
      match LinkFrom(s, i + 2)
      case Some((j, k)) => Some(Hit(k + 1, "<a href=\"" + s[j + 2..k] + "\">" + s[i + 1..j] + "</a>"))
      case None => None
    else None
  }

  /** The inline substitutions in the converter's order. */
  function Inline(s: string): string {
    var b := Sub(BoldAt, s);
    var e := Sub(ItalicAt, b);
    var c := Sub(CodeAt, e);
    Sub(LinkAt, c)
  }

  /** Every inline match is `delim c delim` on one line, with `c` non-empty,
      and is replaced by `<tag>c</tag>`: the delimiters go, the text stays. */
  lemma WrappedShape(delim: string, tag: string, s: string, i: nat)
    requires Wrapped(delim, tag, s, i).Some?
    ensures var h := Wrapped(delim, tag, s, i).value;
      exists c :: c != [] && '\n' !in c && s[i..h.end] == delim + c + delim && h.repl == "<" + tag + ">" + c + "</" + tag + ">"
  {
    var j := Delimited(s, i, delim).value;
    var start := i + |delim|;
    var c := s[start..j];
    assert s[i..start] == delim by { assert s[i..][..|delim|] == s[i..start]; }
    assert s[i..j + |delim|] == s[i..start] + c + s[j..j + |delim|];
    assert '\n' !in c by {
      forall x | 0 <= x < |c| ensures c[x] != '\n' { assert c[x] == s[start + x]; }
    }
  }

  /** Every link match is `[text](url)` and becomes `<a href="url">text</a>`. */
  lemma LinkShape(s: string, i: nat)
    requires LinkAt(s, i).Some?
    ensures var h := LinkAt(s, i).value;
      exists text, url :: text != [] && url != [] &&
        s[i..h.end] == "[" + text + "](" + url + ")" && h.repl == "<a href=\"" + url + "\">" + text + "</a>"
  {
    var j, k := LinkParts(s, i);
    LinkSlices(s, i, j, k);
    var text, url := s[i + 1..j], s[j + 2..k];
    assert s[i..k + 1] == "[" + text + "](" + url + ")";
  }

  /** Where a link match puts its brackets and parentheses. */
  lemma LinkParts(s: string, i: nat) returns (j: nat, k: nat)
    requires LinkAt(s, i).Some?
    ensures i + 2 <= j && j + 3 <= k < |s| && s[i] == '[' && s[j..j + 2] == "](" && s[k] == ')'
    ensures LinkAt(s, i).value == Hit(k + 1, "<a href=\"" + s[j + 2..k] + "\">" + s[i + 1..j] + "</a>")
  {
    j, k := LinkFrom(s, i + 2).value.0, LinkFrom(s, i + 2).value.1;
  }

  /** The text of a link match, cut at its brackets and parentheses. */
  lemma LinkSlices(s: string, i: nat, j: nat, k: nat)
    requires i + 2 <= j && j + 3 <= k < |s|
    requires s[i] == '[' && s[j..j + 2] == "](" && s[k] == ')'
    ensures s[i..k + 1] == "[" + s[i + 1..j] + "](" + s[j + 2..k] + ")"
  {
    assert s[k..k + 1] == ")";
    assert s[i..i + 1] == "[";
    assert s[i..k + 1] == s[i..i + 1] + s[i + 1..j] + s[j..j + 2] + s[j + 2..k] + s[k..k + 1];
  }

  // The status class for signed percentages.

  /** `>([+-]\d+\.?\d*%)<` at `i`: the end of the token, which starts at `i + 1`. */
  function StatusTokenEnd(s: string, i: nat): (r: Option<nat>)
    ensures r.Some? ==> i + 3 < r.value + 1 < |s| && s[i] == '>' && s[r.value] == '%' && s[r.value + 1] == '<'
    ensures r.Some? ==> s[i + 1] == '+' || s[i + 1] == '-'
    ensures r.Some? ==>
      exists d :: i + 2 < d <= r.value && AllChars(s[i + 2..d], IsDigit) &&
        (d == r.value || (s[d] == '.' && AllChars(s[d + 1..r.value], IsDigit)))
  {
    if i + 2 < |s| && s[i] == '>' && (s[i + 1] == '+' || s[i + 1] == '-') then
      var d := SpanEnd(s, i + 2, IsDigit);
      var e := if d < |s| && s[d] == '.' then SpanEnd(s, d + 1, IsDigit) else d;
      if d > i + 2 && e + 1 < |s| && s[e] == '%' && s[e + 1] == '<' then
        assert AllChars(s[i + 2..d], IsDigit);
        Some(e)
      else None
    else None
  }

  /** `"positive" if token.startswith("+") else "negative"`. */
  function StatusClass(token: string): string {
    if token != [] && token[0] == '+' then "positive" else "negative"
  }

  /** The substitution as written: the replacement is the non-raw f-string
      `' class="status-…">\1<'`, in which `\1` is the character U+0001, so the
      token itself is not written back. */
  function StatusAsWrittenAt(s: string, i: nat): Option<Hit> {
    match StatusTokenEnd(s, i)
    case Some(e) =>
      Some(Hit(e + 2, " class=\"status-" + StatusClass(s[i + 1..e + 1]) + "\">" + ['\U{1}'] + "<"))
    case None => None
  }

  /** The substitution as evidently intended: the token is written back after
      the class attribute. */
  function StatusAt(s: string, i: nat): Option<Hit> {
    match StatusTokenEnd(s, i)
    case Some(e) =>
      var token := s[i + 1..e + 1];
      Some(Hit(e + 2, " class=\"status-" + StatusClass(token) + "\">" + token + "<"))
    case None => None
  }

  function StatusAsWritten(s: string): string { Sub(StatusAsWrittenAt, s) }

  function StatusClasses(s: string): string { Sub(StatusAt, s) }

  /** Each match `>token<` of the substitution as written becomes
      ` class="status-C">` then U+0001 then `<`, with C `positive` exactly when
      the token starts with `+`: the token itself is dropped. */
  lemma StatusAsWrittenShape(s: string, i: nat)
    requires StatusAsWrittenAt(s, i).Some?
    ensures var h := StatusAsWrittenAt(s, i).value; var token := s[i + 1..h.end - 1];
      i + 3 < h.end && s[i] == '>' && s[h.end - 1] == '<' &&
      token[0] in "+-" && token[|token| - 1] == '%' &&
      h.repl == " class=\"status-" + (if token[0] == '+' then "positive" else "negative") + "\">" + ['\U{1}'] + "<"
  {
    var e := StatusTokenEnd(s, i).value;
    var token := s[i + 1..e + 1];
    assert token[0] == s[i + 1];
  }

  /** Each corrected match `>token<` becomes ` class="status-C">token<`, with C
      `positive` exactly when the token starts with `+`; the token is kept. */
  lemma StatusShape(s: string, i: nat)
    requires StatusAt(s, i).Some?
    ensures var h := StatusAt(s, i).value; var token := s[i + 1..h.end - 1];
      i + 3 < h.end && s[i] == '>' && s[h.end - 1] == '<' &&
      token[0] in "+-" && token[|token| - 1] == '%' &&
      h.repl == " class=\"status-" + (if token[0] == '+' then "positive" else "negative") + "\">" + token + "<"
  {
    var e := StatusTokenEnd(s, i).value;
    var token := s[i + 1..e + 1];
    assert token[0] == s[i + 1];
  }

  /** Where the status pattern matches nowhere, both substitutions leave the
      text unchanged. */
  lemma StatusWithoutToken(s: string)
    requires forall j :: 0 <= j < |s| ==> StatusTokenEnd(s, j).None?
    ensures StatusAsWritten(s) == s && StatusClasses(s) == s
  {
    SubWithoutMatch(StatusAsWrittenAt, s);
    SubWithoutMatch(StatusAt, s);
  }

  /** The status pattern matches the whole of `>+1%<`, as it does between the
      tags of a table cell `<td>+1%</td>`. */
  lemma StatusToken(s: string)
    requires s == ">+1%<"
    ensures StatusTokenEnd(s, 0) == Some(3) && s[1..4] == "+1%" && StatusClass(s[1..4]) == "positive"
  {
    assert SpanEnd(s, 2, IsDigit) == 3;
  }

  /** The source's output for a positive token: the token is replaced by U+0001. */
  lemma StatusAsWrittenLosesToken(s: string)
    requires s == ">+1%<"
    ensures StatusAsWritten(s) == " class=\"status-positive\">\U{1}<"
  {
    StatusToken(s);
    SubWhole(StatusAsWrittenAt, s);
  }

  /** The corrected substitution keeps the token. */
  lemma StatusKeepsToken(s: string)
    requires s == ">+1%<"
    ensures StatusClasses(s) == " class=\"status-positive\">+1%<"
  {
    StatusToken(s);
    SubWhole(StatusAt, s);
  }
}
