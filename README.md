# Markdown report conversion and holdings extraction, in Dafny

This project models the text-processing core of a market-report system.
The system writes its daily analysis as Markdown, turns that Markdown into
HTML pages, and reads the list of held tickers back out of the holdings
report. The model has three parts.

- **The hand-written converter** (`utils/convert_md_to_html.py`). Its
  `markdown_to_html` runs a fixed sequence of passes over the text:
  - regular-expression passes for headings, horizontal rules and blockquotes;
  - a table pass (`convert_tables` with `process_table`);
  - the code-block pass;
  - a list pass (`convert_lists`);
  - inline bold, italic, code and links;
  - a paragraph pass (`convert_paragraphs`);
  - a status class for signed percentages.

  `ReportConverter.Converted` follows the code as written, including its
  status replacement that drops the token (see "## Findings");
  `ReportConverter.ConvertedAsIntended` is the same pipeline with that
  replacement corrected.

  `extract_title_and_date` finds the page title and date.
- **The library-backed converter's helpers**
  (`src/scripts/tools/convert_md_to_html.py`):
  - `slugify_heading`;
  - `extract_title_and_date`, with its three-level date fall-back;
  - `post_process_html`, which wraps tables and marks signed percentages.
- **The ticker extractor** `extract_holdings_from_md`
  (`scrapers/fetch_holdings_prices.py`). It scans the holdings report
  line by line, enters the holdings section at a marker heading, leaves at
  the next `##` heading, and collects the ticker of every table row in
  between.

Python's `re` module is modelled in `regex.dfy`:
- `re.sub` is a left-to-right scan that takes the leftmost match and resumes after it (`Regex.Scan`).
- `re.search` is the leftmost matching position (`Regex.Search`).
- Each pattern is a matcher function, with its greedy and lazy backtracking worked out by hand.

`line_runs.dfy` cuts a line sequence into maximal runs of lines of one kind. The table, list and paragraph passes are each a rendering of those runs.

Each imperative pass is a Dafny `method` that mirrors the source's loop, flags and buffer. Each one is proved equal to the run-based specification function, and the properties are proved about that function.

Files:
- `text.dfy`: Python string operations (character classes, `strip`, `split`, `join`, `lower`).
- `regex.dfy`: the `re` scan.
- `line_runs.dfy`: the maximal-run partition.
- `report_inline.dfy`: the regular-expression passes of `markdown_to_html`.
- `report_tables.dfy`, `report_lists.dfy`, `report_paragraphs.dfy`: the three line passes.
- `report_converter.dfy`: `extract_title_and_date` and the pass order.
- `tools_converter.dfy`: the library-backed converter's helpers.
- `holdings.dfy`: the ticker extractor.

Inputs the source reads from its environment become parameters:
- `today`: the current date;
- `fileName`: the source file's name;
- `codeBlocks`: the code-block pass.

The project's documentation and its code disagree in one place, and the model follows the code. The documentation says a list closes when it switches between bulleted and numbered items. `convert_lists` does not do this. A bullet run followed directly by numbered lines leaves `<ul>` open, opens `<ol>` inside it, and closes `</ul>` and then `</ol>` at the end (`ReportLists.MixedRun`).

## Model

| member | source | states |
|---|---|---|
| Regex.ScanCoversInput | utils/convert_md_to_html.py:36-47 | the pieces of a substitution cover the input exactly and in order, so text outside the matches is kept |
| Regex.ScanReplacesMatches | utils/convert_md_to_html.py:59-64 | every replaced span is a match of the pattern at its own position |
| Regex.ScanKeepsOnlyUnmatched | utils/convert_md_to_html.py:59-64 | every character kept as it is stands at its own position in the text, and the pattern does not match there, so no match is passed over |
| Regex.WsThenRest | utils/convert_md_to_html.py:36-47 | `\s+(.+?)$` backs the whitespace run off to the last point after which a non-empty line rest follows |
| LineRuns.BlocksPartition | utils/convert_md_to_html.py:82-97 | the runs flatten back to the input lines, and every run is a maximal block of lines of its kind |
| LineRuns.BlocksUnique | utils/convert_md_to_html.py:82-97 | any maximal partition of the lines is the computed one |
| LineRuns.BlocksWithoutRuns | utils/convert_md_to_html.py:88-94 | with no line of the kind, every line stands alone |
| ReportInline.CaptureRest | utils/convert_md_to_html.py:36-47 | the capture of `\s+(.+?)$` follows whitespace, is non-empty, has no newline and runs to its line's end |
| ReportInline.HeadingAt | utils/convert_md_to_html.py:36-41 | `^#{n}\s+(.+?)$` under `re.MULTILINE` at one position; HeadingAtShape and HeadingLevelsExclusive state its shape |
| ReportInline.Headings | utils/convert_md_to_html.py:36-41 | the six heading substitutions, six hashes first; HeadingLine and NoHeadingIn state their effect on a line |
| ReportInline.HeadingAtShape | utils/convert_md_to_html.py:36-41 | a level-n heading match starts a line with exactly n `#` then a whitespace run, which may cross line breaks; the capture after it is non-empty, holds no newline and ends at its line's end, and becomes `<hn>` around it |
| ReportInline.HeadingLevelsExclusive | utils/convert_md_to_html.py:36-41 | no position matches two heading levels, so a heading never becomes a lower level |
| ReportInline.NoHeadingIn | utils/convert_md_to_html.py:36-41 | a line not starting with `#` is left alone by every heading pass |
| ReportInline.OtherLevelSkips | utils/convert_md_to_html.py:36-41 | a heading line with n hashes is not touched by the passes for any other level |
| ReportInline.HeadingLine | utils/convert_md_to_html.py:36-41 | all six heading passes turn `n` hashes, whitespace and text into `<hn>text</hn>` |
| ReportInline.RuleAt | utils/convert_md_to_html.py:44 | `^---+$` under `re.MULTILINE` at one position; RuleAtSpec states its shape |
| ReportInline.RuleAtSpec | utils/convert_md_to_html.py:44 | a rule matches exactly a whole line of three or more dashes, and the line becomes `<hr>` |
| ReportInline.QuoteAt | utils/convert_md_to_html.py:47 | `^>\s+(.+?)$` under `re.MULTILINE` at one position; QuoteShape states its shape |
| ReportInline.QuoteShape | utils/convert_md_to_html.py:47 | a blockquote match is `>` at a line start, then whitespace, then text to its line's end, which is wrapped in `<blockquote><p>` |
| ReportInline.FindClose | utils/convert_md_to_html.py:59-61 | the lazy capture closes at the first closing delimiter, with no newline before it |
| ReportInline.BoldAt | utils/convert_md_to_html.py:59 | `\*\*(.+?)\*\*` at one position; WrappedShape states its shape |
| ReportInline.ItalicAt | utils/convert_md_to_html.py:60 | `\*(.+?)\*` at one position; WrappedShape states its shape |
| ReportInline.CodeAt | utils/convert_md_to_html.py:61 | `` `(.+?)` `` at one position; WrappedShape states its shape |
| ReportInline.LinkAt | utils/convert_md_to_html.py:64 | `\[(.+?)\]\((.+?)\)` at one position; LinkFrom and LinkShape state its shape |
| ReportInline.Inline | utils/convert_md_to_html.py:59-64 | the bold, italic, code and link substitutions in the source's order; ScanCoversInput and ScanReplacesMatches state what each keeps and replaces |
| ReportInline.WrappedShape | utils/convert_md_to_html.py:59-61 | a bold, italic or code match is delimiter, non-empty one-line text, delimiter, and becomes `<tag>text</tag>` |
| ReportInline.LinkFrom | utils/convert_md_to_html.py:64 | the link text closes at the first `](` on its line that is followed by a non-empty URL, with no newline before it; the URL holds no newline and no `)` and closes at the next `)`; with no such place on the line there is no match |
| ReportInline.LinkShape | utils/convert_md_to_html.py:64 | a link match is `[text](url)` and becomes `<a href="url">text</a>` |
| ReportInline.StatusTokenEnd | utils/convert_md_to_html.py:70 | a status match is `>`, a sign, one or more digits, optionally `.` and more digits, `%`, then `<` |
| ReportInline.StatusAsWrittenAt | utils/convert_md_to_html.py:70 | the substitution as written at one position; StatusAsWrittenShape states its shape |
| ReportInline.StatusAsWrittenShape | utils/convert_md_to_html.py:70 | as written, a match `>token<` becomes ` class="status-C">` then U+0001 then `<`, with C `positive` exactly when the token starts with `+`, so the token is dropped |
| ReportInline.StatusAt | utils/convert_md_to_html.py:70 | the substitution as evidently intended at one position; StatusShape states its shape |
| ReportInline.StatusShape | utils/convert_md_to_html.py:70 | corrected, a match `>token<` becomes ` class="status-C">token<`, with C `positive` exactly when the token starts with `+` |
| ReportInline.StatusWithoutToken | utils/convert_md_to_html.py:70 | where no status token is found, both substitutions leave the text unchanged |
| ReportInline.StatusToken | utils/convert_md_to_html.py:70 | `>+1%<` is one status match with a positive class |
| ReportInline.StatusAsWrittenLosesToken | utils/convert_md_to_html.py:70 | as written, `>+1%<` becomes ` class="status-positive">` then U+0001 then `<`, and the token is lost |
| ReportInline.StatusKeepsToken | utils/convert_md_to_html.py:70 | corrected, `>+1%<` becomes ` class="status-positive">+1%<` |
| ReportTables.IsTableLine | utils/convert_md_to_html.py:83 | a line holds a bar and, stripped, starts with one |
| ReportTables.Cells | utils/convert_md_to_html.py:108 | the trimmed cells between the first and the last bar; ParseTable and TableRoundTrip state what they keep |
| ReportTables.TableHtml | utils/convert_md_to_html.py:102-126 | what `process_table` returns; ProcessTable and TableRoundTrip state it |
| ReportTables.TablePass | utils/convert_md_to_html.py:75-99 | what `convert_tables` returns, as the run rendering; ConvertTables and LineRuns.BlocksPartition state it |
| ReportTables.ParseTable | utils/convert_md_to_html.py:104-119 | the header is the trimmed inner cells of the first line; the second line is skipped; there is one row per later line with its own cells, unpadded |
| ReportTables.ProcessTable | utils/convert_md_to_html.py:102-126 | fewer than two lines come back joined unchanged; otherwise the result is the table rendering of the parsed model |
| ReportTables.AppendTagged | utils/convert_md_to_html.py:114-115 | appending one tagged line per cell extends the written lines by exactly those cells |
| ReportTables.AppendRow | utils/convert_md_to_html.py:118-123 | one `<tr>` with one `<td>` per trimmed cell is appended per data line |
| ReportTables.AppendRows | utils/convert_md_to_html.py:117-123 | the row loop appends exactly the row groups of the data lines, in order, after the header lines |
| ReportTables.TableRoundTrip | utils/convert_md_to_html.py:102-126 | reading the rendered lines back gives the header and rows again, so nothing is lost or reordered |
| ReportTables.ScanTableLine | utils/convert_md_to_html.py:83-87 | a table line starts or extends the buffered run |
| ReportTables.ScanOtherLine | utils/convert_md_to_html.py:88-94 | a non-table line flushes the buffered run as one table and is then kept unchanged |
| ReportTables.ScanEnd | utils/convert_md_to_html.py:96-97 | a run still open at the end of input is rendered as well |
| ReportTables.TableStep | utils/convert_md_to_html.py:82-94 | a table line is buffered, after a fresh buffer when no table was open; any other line flushes an open, non-empty buffer as one table, then is kept |
| ReportTables.ConvertTables | utils/convert_md_to_html.py:75-99 | the loop's output is the run rendering: each maximal run of table lines becomes one `process_table` result, and other lines stay in order |
| ReportLists.BulletItem | utils/convert_md_to_html.py:143 | `re.match(r'^(\s*)[-*]\s+(.+)$', line)`; BulletItemSpec and BulletItemContent state it |
| ReportLists.NumberedItem | utils/convert_md_to_html.py:144 | `re.match(r'^(\s*)\d+\.\s+(.+)$', line)`; NumberedItemSpec and NumberedItemContent state it |
| ReportLists.ListPass | utils/convert_md_to_html.py:135-173 | what `convert_lists` returns, as the run rendering; ConvertLists, ListLinesBalance and MixedRun state it |
| ReportLists.ItemStart | utils/convert_md_to_html.py:143-144 | `\s+(.+)$` after a marker needs whitespace and a non-empty rest, and the content starts after the longest whitespace run that leaves one |
| ReportLists.ItemStartIsBackOff | utils/convert_md_to_html.py:143-144 | that direct form agrees with the backtracking form |
| ReportLists.BulletItemSpec | utils/convert_md_to_html.py:143 | a line is a bullet item exactly when indentation, `-` or `*`, and whitespace precede a non-empty rest |
| ReportLists.BulletItemContent | utils/convert_md_to_html.py:150-152 | the item content is the line rest after the marker's whitespace |
| ReportLists.NumberedItemSpec | utils/convert_md_to_html.py:144 | a line is a numbered item exactly when indentation, digits, `.` and whitespace precede a non-empty rest |
| ReportLists.NumberedItemContent | utils/convert_md_to_html.py:157-158 | the item content is the line rest after the marker's whitespace |
| ReportLists.ItemKindsExclusive | utils/convert_md_to_html.py:146-153 | no line is both a bullet and a numbered item |
| ReportLists.ListLine | utils/convert_md_to_html.py:146-166 | an item line opens its list if that flag is off and adds `<li>`; any other line closes the open lists and is kept |
| ReportLists.CloseLists | utils/convert_md_to_html.py:168-171 | at the end, `</ul>` then `</ol>` are written for the open flags |
| ReportLists.ConvertLists | utils/convert_md_to_html.py:135-173 | the loop's output equals the rendering of maximal runs of list lines |
| ReportLists.ScanLines | utils/convert_md_to_html.py:142-166 | after each line, the result and flags are those of the run rendering so far |
| ReportLists.ScanOne | utils/convert_md_to_html.py:146-166 | one turn of the line loop keeps the result and flags equal to the run rendering of the lines seen so far |
| ReportLists.ListRunTags | utils/convert_md_to_html.py:146-171 | a run has one `<ul>` and one `</ul>` if it holds a bullet, and one `<ol>` and one `</ol>` if it holds a numbered line |
| ReportLists.ListRunItems | utils/convert_md_to_html.py:152-158 | without its list tags, a run is one `<li>content</li>` per source line, in order |
| ReportLists.ListLinesBalance | utils/convert_md_to_html.py:146-171 | the pass adds as many `<ul>` as `</ul>` and as many `<ol>` as `</ol>` |
| ReportLists.ListPassWithoutLists | utils/convert_md_to_html.py:159-166 | text without list lines passes through unchanged |
| ReportLists.MixedRun | utils/convert_md_to_html.py:146-171 | a bullet followed by a numbered line gives `<ul>`, item, `<ol>`, item, `</ul>`, `</ol>` |
| ReportParagraphs.IsParaText | utils/convert_md_to_html.py:183-191 | a line the wrapper treats as text; IsParaTextStripped states it in the source's terms |
| ReportParagraphs.ParagraphPass | utils/convert_md_to_html.py:176-205 | what `convert_paragraphs` returns, as the run rendering; ConvertParagraphs and ParagraphsUnwrap state it |
| ReportParagraphs.IsParaTextStripped | utils/convert_md_to_html.py:183-191 | a line is paragraph text exactly when its stripped form is non-empty and does not start with `<` |
| ReportParagraphs.TagsNotText | utils/convert_md_to_html.py:186-188 | the inserted `<p>` and `</p>` lines are not paragraph text |
| ReportParagraphs.ParaLine | utils/convert_md_to_html.py:183-200 | a text line opens a paragraph if none is open; a tag or blank line closes an open one; the line is always kept |
| ReportParagraphs.ConvertParagraphs | utils/convert_md_to_html.py:176-205 | the loop's output is the rendering that wraps each maximal run of text lines in `<p>` and `</p>` |
| ReportParagraphs.ScanParagraphs | utils/convert_md_to_html.py:182-200 | after the loop, the result and the `in_block` flag are those of the run rendering, with the last paragraph still open |
| ReportParagraphs.ParaOne | utils/convert_md_to_html.py:183-200 | one turn of the line loop keeps the result and flag equal to the run rendering of the lines seen so far |
| ReportParagraphs.ParagraphsUnwrap | utils/convert_md_to_html.py:176-205 | deleting the inserted `<p>` and `</p>` lines, recognised from the output alone, gives back the input lines exactly |
| ReportParagraphs.ParagraphTagCounts | utils/convert_md_to_html.py:187-203 | each paragraph adds exactly one `<p>` and one `</p>` |
| ReportParagraphs.ParagraphsBalance | utils/convert_md_to_html.py:187-203 | the pass adds as many `<p>` as `</p>`, one pair per paragraph |
| ReportParagraphs.ParagraphPassWithoutText | utils/convert_md_to_html.py:186-200 | text without paragraph lines passes through unchanged |
| ReportConverter.TitleAt | utils/convert_md_to_html.py:22 | a position matches exactly when it starts a line with `#` and `\s+(.+?)$` can follow; the title is then the rest of the line where the backed-off whitespace stops, non-empty and on one line |
| ReportConverter.FirstDate | utils/convert_md_to_html.py:25 | there is no date exactly when no position matches; otherwise it is the leftmost match |
| ReportConverter.FirstTitle | utils/convert_md_to_html.py:22 | there is no title exactly when no position matches; otherwise it is the leftmost capture |
| ReportConverter.ExtractTitleAndDate | utils/convert_md_to_html.py:20-28 | the title is the first capture, unstripped, else "Analysis Report"; the date is the first date, else today |
| ReportConverter.TitleOfReport | utils/convert_md_to_html.py:22-23 | `# Report` has the title `Report` |
| ReportConverter.DefaultsWithoutHeadingOrDate | utils/convert_md_to_html.py:20-28 | text with no `#` and no digit gets "Analysis Report" and today's date |
| ReportConverter.BeforeStatus | utils/convert_md_to_html.py:31-67 | the passes before the status classes, in the source's order: headings, rules, blockquotes, tables, code, lists, inline, paragraphs |
| ReportConverter.Converted | utils/convert_md_to_html.py:31-72 | `markdown_to_html` as written: the earlier passes, then the status substitution that drops the token |
| ReportConverter.ConvertedAsIntended | utils/convert_md_to_html.py:31-72 | `markdown_to_html` with the corrected status substitution that keeps the token |
| ReportConverter.ConvertedAsIntendedWithoutStatus | utils/convert_md_to_html.py:69-72 | the two pipelines agree, and leave the earlier passes' output unchanged, when that output holds no status token |
| ReportConverter.MarkdownToHtml | utils/convert_md_to_html.py:31-72 | the imperative passes, run in the source's order, return `markdown_to_html` as written, status substitution included |
| ReportConverter.TableSurvivesLaterPasses | utils/convert_md_to_html.py:49-67 | a text that is exactly one rendered table is left unchanged by the later list and paragraph passes |
| ToolsConverter.Collapse | src/scripts/tools/convert_md_to_html.py:54 | `re.sub(r"\s+", separator, s)`; CollapseRuns states it |
| ToolsConverter.SlugifyHeading | src/scripts/tools/convert_md_to_html.py:51-55 | `slugify_heading`; SlugShape and SlugIdempotent state it |
| ToolsConverter.CollapseRuns | src/scripts/tools/convert_md_to_html.py:54 | every maximal whitespace run becomes exactly one separator, and every other character is kept in order |
| ToolsConverter.SlugShape | src/scripts/tools/convert_md_to_html.py:51-55 | a slug holds only lower-case word characters, CJK, `-` and separator characters, and does not start or end with the separator |
| ToolsConverter.SlugIdempotent | src/scripts/tools/convert_md_to_html.py:51-55 | with the default separator, slugifying a slug changes nothing |
| ToolsConverter.ExtractTitleAndDate | src/scripts/tools/convert_md_to_html.py:58-70 | the title is the first capture stripped, else "Analysis Report"; the date is the text's first date, else the file name's, else today |
| ToolsConverter.AgreesWithReportConverter | src/scripts/tools/convert_md_to_html.py:58-70 | the title is the other converter's title stripped, and the dates agree unless only the file name holds one |
| ToolsConverter.DateFromFileName | src/scripts/tools/convert_md_to_html.py:64-68 | text without digits takes its date from the file name |
| ToolsConverter.TableAt | src/scripts/tools/convert_md_to_html.py:85-88 | `<table>.*?</table>` under `re.DOTALL` at one position; TableAtShape and TableAtWhereClosable state it |
| ToolsConverter.TableAtWhereClosable | src/scripts/tools/convert_md_to_html.py:88 | the pattern matches wherever a `<table>` tag has a `</table>` somewhere after it |
| ToolsConverter.WrapTablesWrapsEvery | src/scripts/tools/convert_md_to_html.py:85-88 | no character is kept where a closable `<table>` starts, so every such tag is wrapped or lies inside an earlier wrapped table |
| ToolsConverter.WrapTables | src/scripts/tools/convert_md_to_html.py:88 | the table substitution; WrapTablesShape, WrapTablesWrapsEvery and WrapTablesWithoutTable state it |
| ToolsConverter.CloseFrom | src/scripts/tools/convert_md_to_html.py:88 | the lazy `.*?` stops at the first `</table>`, across newlines |
| ToolsConverter.TableAtShape | src/scripts/tools/convert_md_to_html.py:85-88 | a match runs from `<table>` to the first `</table>` after it, and becomes that text inside the wrapper div |
| ToolsConverter.WrapTablesShape | src/scripts/tools/convert_md_to_html.py:85-88 | the pieces cover the input, so text outside the matches is kept; every wrapper holds one table, from its `<table>` up to the first `</table>` after it, and no second closing tag |
| ToolsConverter.WrapTablesWithoutTable | src/scripts/tools/convert_md_to_html.py:88 | text without `<table>` is unchanged |
| ToolsConverter.PercentAt | src/scripts/tools/convert_md_to_html.py:90-95 | the signed-percentage pattern at one position; PercentShape and PercentAtToken state it |
| ToolsConverter.PercentAtToken | src/scripts/tools/convert_md_to_html.py:90-95 | wherever a sign, digits, optionally `.` and digits, and `%` follow a character that is not a word character or `-`, the pattern matches that whole token and wraps it in a span of its class |
| ToolsConverter.WrapPercentagesWrapsEvery | src/scripts/tools/convert_md_to_html.py:95 | no character is kept where a free-standing signed percentage starts, so every such token is wrapped |
| ToolsConverter.WrapPercentages | src/scripts/tools/convert_md_to_html.py:95 | the percentage substitution; WrapPercentagesWrapsEvery and PercentagesNeedFreeSign state it |
| ToolsConverter.PostProcessHtml | src/scripts/tools/convert_md_to_html.py:82-96 | tables wrapped first, then percentages; PostProcessWrapsEvery and PostProcessUnchanged state it |
| ToolsConverter.PostProcessWrapsEvery | src/scripts/tools/convert_md_to_html.py:82-96 | every closable table of the page ends up in a wrapper, and then every free-standing signed percentage of the wrapped page ends up in a span |
| ToolsConverter.PercentParts | src/scripts/tools/convert_md_to_html.py:95 | a match is a sign, digits, optionally `.` and digits, then `%` |
| ToolsConverter.PercentShape | src/scripts/tools/convert_md_to_html.py:90-95 | a wrapped token has no word character or `-` before it, is kept exactly, and is positive exactly when its sign is `+` |
| ToolsConverter.PercentagesNeedFreeSign | src/scripts/tools/convert_md_to_html.py:95 | with no free-standing sign nothing is wrapped, so unsigned percentages never are |
| ToolsConverter.PostProcessUnchanged | src/scripts/tools/convert_md_to_html.py:82-96 | a page with no table and no free-standing sign is unchanged by post-processing |
| Holdings.IsMarker | scrapers/fetch_holdings_prices.py:47 | a line holding either section marker |
| Holdings.Collect | scrapers/fetch_holdings_prices.py:45-62 | the symbols collected from the lines, inside or outside the section; CollectShape and SectionUntil state it |
| Holdings.HoldingsOf | scrapers/fetch_holdings_prices.py:45-62 | what `extract_holdings_from_md` returns; HoldingsShape, HoldingsFromSection and NoSection state it |
| Holdings.TickerEnd | scrapers/fetch_holdings_prices.py:42 | the symbol is capital letters, optionally `.` and capital letters |
| Holdings.CellEnd | scrapers/fetch_holdings_prices.py:42 | a cell is a non-empty run of characters other than the bar, closed by a bar |
| Holdings.SymbolOf | scrapers/fetch_holdings_prices.py:42-58 | a row match starts with a bar, and its symbol is a ticker found right after the first bar and any spaces; RowMatchSymbol and SymbolOfMatches state it fully |
| Holdings.TickerEndAt | scrapers/fetch_holdings_prices.py:42 | a ticker followed by a character that cannot extend it is the symbol the pattern captures |
| Holdings.RowMatchSymbol | scrapers/fetch_holdings_prices.py:42-59 | a line that starts with bar, spaces, ticker, spaces, bar and two non-empty bar-closed cells is matched, and its symbol is exactly that ticker |
| Holdings.SymbolOfMatches | scrapers/fetch_holdings_prices.py:42-59 | a line is matched only when it has that shape, and the symbol is its ticker |
| Holdings.Contribution | scrapers/fetch_holdings_prices.py:56-62 | a section line adds at most one ticker, and never a header cell |
| Holdings.ContributionOfRow | scrapers/fetch_holdings_prices.py:56-62 | a matching row adds its symbol, unless the symbol is a header cell |
| Holdings.ContributionWithoutRow | scrapers/fetch_holdings_prices.py:57-58 | a line that does not match the row pattern adds nothing |
| Holdings.ExtractHoldings | scrapers/fetch_holdings_prices.py:45-62 | the loop, with its flag, `continue` and `break`, returns the collected symbols |
| Holdings.CollectShape | scrapers/fetch_holdings_prices.py:42-62 | every collected symbol is a ticker and not a header cell |
| Holdings.HoldingsShape | scrapers/fetch_holdings_prices.py:42-62 | every returned symbol is a ticker, and `SYMBOL` is never returned |
| Holdings.EnterSection | scrapers/fetch_holdings_prices.py:47-49 | lines up to and including the first marker add nothing, and collection starts after it |
| Holdings.NoSection | scrapers/fetch_holdings_prices.py:45-62 | without a marker line nothing is returned |
| Holdings.SectionUntil | scrapers/fetch_holdings_prices.py:51-53 | inside the section, only lines before the first non-marker `##` line contribute, in order |
| Holdings.ContributionsLength | scrapers/fetch_holdings_prices.py:56-62 | each line adds at most one symbol |
| Holdings.HoldingsFromSection | scrapers/fetch_holdings_prices.py:45-62 | the result is the section's contributions in line order, duplicates kept, at most one per section line |
| Holdings.RowContributes | scrapers/fetch_holdings_prices.py:57-62 | a row whose cells are A, b and c contributes `A` |
| Holdings.HeaderDropped | scrapers/fetch_holdings_prices.py:60-62 | a header row whose cells are SYMBOL, a and b matches the pattern but is dropped |

## Left out

- The `markdown` library call in the library-backed converter's `markdown_to_html`. It is a foreign library; only `post_process_html`, which runs on its output, is modelled.
- `create_html_page` in both converters. It is a static page template with browser scripts and no logic.
- `main`, `parse_args`, `read_file`, file checks and file writes. These are input and output.
- `localized_now` and `datetime.now` read the clock, the environment and the time zone. The date they give is the parameter `today`.
- `convert_code_blocks`. It is the parameter `codeBlocks`, and `ReportConverter.Converted` applies it after tables and before lists. Nothing is claimed about code escaping inline formatting, because the code does not prevent that.
- `fetch_stock_price` and `format_markdown_table`. They make network calls and format floating-point numbers.
- The analyzers and the legacy package. They wrap language-model services and do file input and output.
- Character classes:
  - `\d` is ASCII digits only.
  - `\w` is ASCII letters, digits, `_` and the CJK block U+4E00–U+9FFF.
  - `lower()` lowers ASCII letters only.
  - Python's versions cover all of Unicode.
  - `\s` and `strip()` follow Python's whitespace set exactly.
- ToolsConverter.SlugifyHeading: `re.sub(r"[^\w\s\-\u4e00-\u9fff]", "", value)` deletes single characters, so it is written as a character filter rather than through the scan.
- ToolsConverter.SlugIdempotent: stated for the default separator only. A separator holding whitespace or word characters is not a fixed point.
- ReportInline.QuoteShape and ReportConverter.TitleAt: `\s+` matches newlines. A `>` or `#` line followed only by whitespace can therefore capture text from a later line, and the model keeps this.
- The process's memory, file handles and exceptions in `extract_holdings_from_md`. The content string is the input.

## Findings

| source | as written | input that shows it | evidently intended | confidence | as-written member | corrected member |
|---|---|---|---|---|---|---|
| utils/convert_md_to_html.py:70 | the replacement is a non-raw f-string, so `\1` is the character U+0001 and the matched token is dropped | the cell text `>+1%<` becomes ` class="status-positive">` then U+0001 then `<` | ` class="status-positive">+1%<`, keeping the token after the class | high (not executed) | ReportInline.StatusAsWrittenLosesToken | ReportInline.StatusKeepsToken |
