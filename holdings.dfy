/** The ticker extractor of the price fetcher
    (scrapers/fetch_holdings_prices.py): it scans the lines of the holdings
    report, enters the holdings section at a marker line, leaves it at the
    next `##` heading, and collects the ticker symbol of every table row in
    between. Reading the file is not modelled: the content is the input. */
module Holdings {
  import opened Text
  import opened Regex

  /** The two headings that open the holdings section. */
  const CurrentHoldings := "## \U{1F4C8} 當前持倉"
  const HoldingDetails := "### 持倉明細"

  /** Header cells that are never taken for tickers. */
  const Excluded := ["股票代碼", "Date", "SYMBOL"]

  predicate IsMarker(line: string) {
    Contains(line, CurrentHoldings) || Contains(line, HoldingDetails)
  }

  predicate AllUpper(s: string) { forall j :: 0 <= j < |s| ==> IsUpper(s[j]) }

  /** The shape `[A-Z]+(?:\.[A-Z]+)?`: capital letters, optionally a dot and
      more capital letters, as in `AAPL`, `BRK.B` or `SET.SI`. */
  predicate IsTicker(t: string) {
    (t != [] && AllUpper(t)) ||
    exists k :: 0 < k < |t| - 1 && t[k] == '.' && AllUpper(t[..k]) && AllUpper(t[k + 1..])
  }

  /** `[A-Z]+(?:\.[A-Z]+)?` at `a`: where the symbol ends. */
  function TickerEnd(s: string, a: nat): (r: Option<nat>)
    requires a <= |s|
    ensures r.Some? ==> a < r.value <= |s| && IsTicker(s[a..r.value])
  {
    var b := SpanEnd(s, a, IsUpper);
    if b == a then None
    else if b + 1 < |s| && s[b] == '.' && IsUpper(s[b + 1]) then
      var c := SpanEnd(s, b + 1, IsUpper);
      assert s[a..c][..b - a] == s[a..b] && s[a..c][b - a + 1..] == s[b + 1..c];
      Some(c)
    else Some(b)
  }

  predicate NotBar(c: char) { c != '|' }

  /** `[^|]+\|` at `i`: the position after its closing bar. */
  function CellEnd(s: string, i: nat): (r: Option<nat>)
    requires i <= |s|
    ensures r.Some? ==> i + 1 < r.value <= |s| && s[r.value - 1] == '|'
    ensures r.Some? ==> forall j :: i <= j < r.value - 1 ==> s[j] != '|'
  {
    var e := SpanEnd(s, i, NotBar);
    if i < e < |s| then Some(e + 1) else None
  }

  /** `re.match(r'\|\s*([A-Z]+(?:\.[A-Z]+)?)\s*\|[^|]+\|[^|]+\|', line)`:
      the captured symbol of a table row with at least three cells. */
  function SymbolOf(line: string): (r: Option<string>)
    ensures r.Some? ==> IsTicker(r.value) && line != [] && line[0] == '|'
    ensures r.Some? ==> var a := SpanEnd(line, 1, IsSpace); a + |r.value| <= |line| && line[a..a + |r.value|] == r.value
  {
    if line != [] && line[0] == '|' then
      var a := SpanEnd(line, 1, IsSpace);
      match TickerEnd(line, a)
      case None => None
      case Some(c) =>
        var q := SpanEnd(line, c, IsSpace);
        if q < |line| && line[q] == '|' then
          match CellEnd(line, q + 1)
          case None => None
          case Some(r1) =>
            match CellEnd(line, r1)
            case None => None
            case Some(_) => Some(line[a..c])
        else None
    else None
  }

  /** `\|\s*([A-Z]+(?:\.[A-Z]+)?)\s*\|[^|]+\|[^|]+\|` matched at the start
      of `line` with its parts spelled out: the bar, spaces up to `a`, the
      symbol `line[a..c]`, spaces up to the bar at `q`, and two non-empty
      cells closed by the bars at `m` and `e`. */
  predicate RowMatchAt(line: string, a: nat, c: nat, q: nat, m: nat, e: nat) {
    0 < a < c <= q && q + 1 < m && m + 1 < e < |line| && line[0] == '|' &&
    (forall j :: 1 <= j < a ==> IsSpace(line[j])) && IsTicker(line[a..c]) &&
    (forall j :: c <= j < q ==> IsSpace(line[j])) && line[q] == '|' &&
    (forall j :: q < j < m ==> line[j] != '|') && line[m] == '|' &&
    (forall j :: m < j < e ==> line[j] != '|') && line[e] == '|'
  }

  lemma TickerStartsUpper(t: string)
    requires IsTicker(t)
    ensures t != [] && IsUpper(t[0])
  {
    if !(t != [] && AllUpper(t)) {
      var k :| 0 < k < |t| - 1 && t[k] == '.' && AllUpper(t[..k]) && AllUpper(t[k + 1..]);
      assert t[..k][0] == t[0];
    }
  }

  /** A ticker followed by a character that cannot extend it is the one
      `TickerEnd` finds. */
  lemma TickerEndAt(s: string, a: nat, c: nat)
    requires a < c < |s| && IsTicker(s[a..c]) && !IsUpper(s[c]) && s[c] != '.'
    ensures TickerEnd(s, a) == Some(c)
  {
    var t := s[a..c];
    if t != [] && AllUpper(t) {
      UpperRun(s, a, c);
      SpanEndAt(s, a, c, IsUpper);
    } else {
      var k :| 0 < k < |t| - 1 && t[k] == '.' && AllUpper(t[..k]) && AllUpper(t[k + 1..]);
      DottedTickerEnd(s, a, c, k);
    }
  }

  lemma DottedTickerEnd(s: string, a: nat, c: nat, k: nat)
    requires a + k + 1 < c < |s| && 0 < k && !IsUpper(s[c]) && s[c] != '.'
    requires s[a + k] == '.' && AllUpper(s[a..c][..k]) && AllUpper(s[a..c][k + 1..])
    ensures TickerEnd(s, a) == Some(c)
  {
    assert s[a..c][..k] == s[a..a + k];
    assert s[a..c][k + 1..] == s[a + k + 1..c];
    UpperRun(s, a, a + k);
    UpperRun(s, a + k + 1, c);
    SpanEndAt(s, a, a + k, IsUpper);
    SpanEndAt(s, a + k + 1, c, IsUpper);
  }

  lemma UpperRun(s: string, a: nat, c: nat)
    requires a <= c <= |s| && AllUpper(s[a..c])
    ensures forall j :: a <= j < c ==> IsUpper(s[j])
  {
    forall j | a <= j < c ensures IsUpper(s[j]) { assert s[j] == s[a..c][j - a]; }
  }

  /** A line that matches the row pattern is matched, and its symbol is the
      captured ticker. */
  lemma RowMatchSymbol(line: string, a: nat, c: nat, q: nat, m: nat, e: nat)
    requires RowMatchAt(line, a, c, q, m, e)
    ensures SymbolOf(line) == Some(line[a..c])
  {
    TickerStartsUpper(line[a..c]);
    assert line[a] == line[a..c][0];
    SpanEndAt(line, 1, a, IsSpace);
    TickerEndAt(line, a, c);
    SpanEndAt(line, c, q, IsSpace);
    SpanEndAt(line, q + 1, m, NotBar);
    SpanEndAt(line, m + 1, e, NotBar);
  }

  /** Only a line that matches the row pattern is matched. */
  lemma SymbolOfMatches(line: string)
    requires SymbolOf(line).Some?
    ensures exists a: nat, c: nat, q: nat, m: nat, e: nat :: RowMatchAt(line, a, c, q, m, e) && SymbolOf(line).value == line[a..c]
  {
    var a := SpanEnd(line, 1, IsSpace);
    var c := TickerEnd(line, a).value;
    var q := SpanEnd(line, c, IsSpace);
    var r1 := CellEnd(line, q + 1).value;
    var e := CellEnd(line, r1).value - 1;
    assert RowMatchAt(line, a, c, q, r1 - 1, e);
  }

  /** What one line inside the section adds to the result. */
  function Contribution(line: string): (r: seq<string>)
    ensures |r| <= 1
    ensures forall x :: x in r ==> IsTicker(x) && x !in Excluded
  {
    match SymbolOf(line)
    case Some(symbol) => if symbol in Excluded then [] else [symbol]
    case None => []
  }

  /** A row that matches contributes its symbol, unless it is a header cell. */
  lemma ContributionOfRow(line: string, a: nat, c: nat, q: nat, m: nat, e: nat)
    requires RowMatchAt(line, a, c, q, m, e)
    ensures Contribution(line) == if line[a..c] in Excluded then [] else [line[a..c]]
  {
    RowMatchSymbol(line, a, c, q, m, e);
  }

  /** A line that does not match the row pattern contributes nothing. */
  lemma ContributionWithoutRow(line: string)
    requires forall a: nat, c: nat, q: nat, m: nat, e: nat :: !RowMatchAt(line, a, c, q, m, e)
    ensures Contribution(line) == []
  {
    if SymbolOf(line).Some? {
      SymbolOfMatches(line);
    }
  }

  /** The symbols collected from `lines`, starting inside or outside the
      section: a marker line enters it, and inside it the first `##` line
      that is not a marker ends the scan. */
  function Collect(lines: seq<string>, inSection: bool): seq<string> {
    if lines == [] then []
    else if IsMarker(lines[0]) then Collect(lines[1..], true)
    else if inSection && StartsWith(lines[0], "##") then []
    else if inSection then Contribution(lines[0]) + Collect(lines[1..], true)
    else Collect(lines[1..], false)
  }

  /** `extract_holdings_from_md` on the file's content. */
  function HoldingsOf(content: string): seq<string> {
    Collect(Lines(content), false)
  }

  lemma CollectStep(lines: seq<string>, i: nat, inSection: bool)
    requires i < |lines|
    ensures Collect(lines[i..], inSection) ==
      if IsMarker(lines[i]) then Collect(lines[i + 1..], true)
      else if inSection && StartsWith(lines[i], "##") then []
      else if inSection then Contribution(lines[i]) + Collect(lines[i + 1..], true)
      else Collect(lines[i + 1..], false)
  {
    assert lines[i..][0] == lines[i] && lines[i..][1..] == lines[i + 1..];
  }

  /** The line loop of `extract_holdings_from_md`, with its section flag,
      its `continue` at a marker and its `break` at the next heading. */
  method ExtractHoldings(content: string) returns (holdings: seq<string>)
    ensures holdings == HoldingsOf(content)
  {
    var lines := Lines(content);
    holdings := [];
    var inSection := false;
    var i := 0;
    while i < |lines|
      invariant 0 <= i <= |lines|
      invariant holdings + Collect(lines[i..], inSection) == Collect(lines, false)
    {
      var line := lines[i];
      ghost var before := holdings;
      CollectStep(lines, i, inSection);
      if IsMarker(line) {
        inSection := true;
        i := i + 1;
        continue;
      }
      if inSection && StartsWith(line, "##") {
        break;
      }
      if inSection {
        match SymbolOf(line) {
          case Some(symbol) =>
            if symbol !in Excluded {
              holdings := holdings + [symbol];
            }
          case None =>
        }
        assert holdings == before + Contribution(line);
        assert Collect(lines[i..], true) == Contribution(line) + Collect(lines[i + 1..], true);
        ConcatAssoc3(before, Contribution(line), Collect(lines[i + 1..], true));
      }
      i := i + 1;
    }
    if i == |lines| {
      assert lines[i..] == [];
    }
  }

  /** Every collected symbol has the ticker shape and none is a header cell. */
  lemma {:induction false} CollectShape(lines: seq<string>, inSection: bool)
    ensures forall x :: x in Collect(lines, inSection) ==> IsTicker(x) && x !in Excluded
  {
    if lines != [] {
      CollectShape(lines[1..], true);
      CollectShape(lines[1..], false);
    }
  }

  /** Every returned symbol has the ticker shape, and `SYMBOL` is never
      returned. */
  lemma HoldingsShape(content: string)
    ensures forall x :: x in HoldingsOf(content) ==> IsTicker(x) && x != "SYMBOL"
  {
    CollectShape(Lines(content), false);
  }

  /** Lines before the first marker, and the marker itself, add nothing:
      collection starts inside the section on the line after it. */
  lemma {:induction false} EnterSection(lines: seq<string>, k: nat)
    requires k < |lines| && IsMarker(lines[k])
    requires forall j :: 0 <= j < k ==> !IsMarker(lines[j])
    ensures Collect(lines, false) == Collect(lines[k + 1..], true)
  {
    if k > 0 {
      EnterSection(lines[1..], k - 1);
      assert lines[1..][k - 1 + 1..] == lines[k + 1..];
    }
  }

  /** Without a marker line nothing is returned. */
  lemma {:induction false} NoSection(lines: seq<string>)
    requires forall j :: 0 <= j < |lines| ==> !IsMarker(lines[j])
    ensures Collect(lines, false) == []
  {
    if lines != [] {
      NoSection(lines[1..]);
    }
  }

  /** What the section's lines add, in line order; marker lines add nothing. */
  function Contributions(lines: seq<string>): seq<string> {
    if lines == [] then []
    else (if IsMarker(lines[0]) then [] else Contribution(lines[0])) + Contributions(lines[1..])
  }

  /** Inside the section, the result is what the lines up to the first
      non-marker `##` line add, in order; that line and all after it add
      nothing. */
  lemma {:induction false} SectionUntil(lines: seq<string>, stop: nat)
    requires stop <= |lines|
    requires forall j :: 0 <= j < stop ==> IsMarker(lines[j]) || !StartsWith(lines[j], "##")
    requires stop < |lines| ==> !IsMarker(lines[stop]) && StartsWith(lines[stop], "##")
    ensures Collect(lines, true) == Contributions(lines[..stop])
  {
    if stop == 0 {
      assert lines[..0] == [];
    } else {
      SectionUntil(lines[1..], stop - 1);
      assert lines[1..][..stop - 1] == lines[..stop][1..];
    }
  }

  /** Each line adds at most one symbol. */
  lemma {:induction false} ContributionsLength(lines: seq<string>)
    ensures |Contributions(lines)| <= |lines|
  {
    if lines != [] {
      ContributionsLength(lines[1..]);
    }
  }

  /** The symbols come from the section between the first marker and the
      next heading, in line order with duplicates kept, at most one per line. */
  lemma HoldingsFromSection(content: string, k: nat, stop: nat)
    requires var lines := Lines(content);
      k < stop <= |lines| && IsMarker(lines[k]) &&
      (forall j :: 0 <= j < k ==> !IsMarker(lines[j])) &&
      (forall j :: k < j < stop ==> IsMarker(lines[j]) || !StartsWith(lines[j], "##")) &&
      (stop < |lines| ==> !IsMarker(lines[stop]) && StartsWith(lines[stop], "##"))
    ensures var lines := Lines(content);
      HoldingsOf(content) == Contributions(lines[k + 1..stop]) && |HoldingsOf(content)| <= stop - k - 1
  {
    var lines := Lines(content);
    EnterSection(lines, k);
    var rest := lines[k + 1..];
    SectionUntil(rest, stop - k - 1);
    assert rest[..stop - k - 1] == lines[k + 1..stop];
    ContributionsLength(lines[k + 1..stop]);
  }

  /** A row `|A|b|c|` contributes its symbol `A`. */
  lemma RowContributes(line: string)
    requires line == "|A|b|c|"
    ensures Contribution(line) == ["A"]
  {
    assert SpanEnd(line, 1, IsSpace) == 1;
    assert SpanEnd(line, 1, IsUpper) == 2;
    assert TickerEnd(line, 1) == Some(2);
    assert SpanEnd(line, 2, IsSpace) == 2;
    SpanEndAt(line, 3, 4, NotBar);
    SpanEndAt(line, 5, 6, NotBar);
    assert line[1..2] == "A";
    assert SymbolOf(line) == Some("A");
  }

  /** The header row `|SYMBOL|a|b|` matches the pattern but is dropped. */
  lemma HeaderDropped(line: string)
    requires line == "|SYMBOL|a|b|"
    ensures SymbolOf(line) == Some("SYMBOL") && Contribution(line) == []
  {
    assert SpanEnd(line, 1, IsSpace) == 1;
    SpanEndAt(line, 1, 7, IsUpper);
    assert TickerEnd(line, 1) == Some(7);
    assert SpanEnd(line, 7, IsSpace) == 7;
    SpanEndAt(line, 8, 9, NotBar);
    SpanEndAt(line, 10, 11, NotBar);
    assert line[1..7] == "SYMBOL";
  }
}
