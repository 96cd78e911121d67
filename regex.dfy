/** The parts of Python's `re` engine that the converters rely on: `re.sub`
    as a left-to-right scan for non-overlapping leftmost matches, `re.search`
    as the leftmost match, and the anchors and quantifier shapes the
    patterns share. A pattern is given as a matcher: `m(s, i)` is the match
    that the pattern, with its backtracking resolved, makes when tried at
    position `i` of `s`, if any. */
module Regex {
  import opened Text

  /** A match ending at `end`, and what `re.sub` writes in its place. */
  datatype Hit = Hit(end: nat, repl: string)

  type Matcher = (string, nat) -> Option<Hit>

  /** The result of a substitution, piece by piece: characters left alone and
      matched spans with their replacements. */
  datatype Piece = Keep(c: char) | Replace(matched: string, replacement: string)

  /** A hit that consumes at least one character; every pattern modelled here
      consumes at least one. */
  predicate Advances(h: Option<Hit>, s: string, i: nat) {
    h.Some? && i < h.value.end <= |s|
  }

  /** `re.sub` from position `i` on: at each position, a match is replaced
      and scanning resumes after it; otherwise one character is kept. */
  function Scan(m: Matcher, s: string, i: nat): seq<Piece>
    requires i <= |s|
    decreases |s| - i
  {
    if i == |s| then []
    else
      var h := m(s, i);
      if Advances(h, s, i) then [Replace(s[i..h.value.end], h.value.repl)] + Scan(m, s, h.value.end)
      else [Keep(s[i])] + Scan(m, s, i + 1)
  }

  /** The text the pieces produce. */
  function Output(ps: seq<Piece>): string {
    if ps == [] then ""
    else (match ps[0] case Keep(c) => [c] case Replace(_, r) => r) + Output(ps[1..])
  }

  /** The text the pieces were taken from. */
  function Source(ps: seq<Piece>): string {
    if ps == [] then ""
    else (match ps[0] case Keep(c) => [c] case Replace(matched, _) => matched) + Source(ps[1..])
  }

  /** `re.sub(pattern, replacement, s)`. */
  function Sub(m: Matcher, s: string): string {
    Output(Scan(m, s, 0))
  }

  /** The pieces of a substitution cover the input exactly, in order: text
      outside the matches is kept as it is. */
  lemma {:induction false} ScanCoversInput(m: Matcher, s: string, i: nat)
    requires i <= |s|
    ensures Source(Scan(m, s, i)) == s[i..]
    decreases |s| - i
  {
    if i < |s| {
      if Advances(m(s, i), s, i) {
        ScanCoversInput(m, s, m(s, i).value.end);
        CoversAfterMatch(m, s, i);
      } else {
        ScanCoversInput(m, s, i + 1);
        CoversAfterKeep(m, s, i);
      }
    }
  }

  lemma CoversAfterMatch(m: Matcher, s: string, i: nat)
    requires i < |s| && Advances(m(s, i), s, i)
    requires Source(Scan(m, s, m(s, i).value.end)) == s[m(s, i).value.end..]
    ensures Source(Scan(m, s, i)) == s[i..]
  {
    var h := m(s, i);
    var e := h.value.end;
    SourceCons(Replace(s[i..e], h.value.repl), Scan(m, s, e));
    assert s[i..] == s[i..e] + s[e..];
  }

  lemma CoversAfterKeep(m: Matcher, s: string, i: nat)
    requires i < |s| && !Advances(m(s, i), s, i)
    requires Source(Scan(m, s, i + 1)) == s[i + 1..]
    ensures Source(Scan(m, s, i)) == s[i..]
  {
    SourceCons(Keep(s[i]), Scan(m, s, i + 1));
    assert s[i..] == [s[i]] + s[i + 1..];
  }

  lemma SourceCons(p: Piece, ps: seq<Piece>)
    ensures Source([p] + ps) == (match p case Keep(c) => [c] case Replace(matched, _) => matched) + Source(ps)
  {
    assert ([p] + ps)[1..] == ps;
  }

  /** A substitution whose pattern matches nowhere leaves the text unchanged. */
  lemma {:induction false} ScanWithoutMatch(m: Matcher, s: string, i: nat)
    requires i <= |s|
    requires forall j :: i <= j < |s| ==> !Advances(m(s, j), s, j)
    ensures Output(Scan(m, s, i)) == s[i..]
    decreases |s| - i
  {
    if i < |s| {
      ScanWithoutMatch(m, s, i + 1);
      assert s[i..] == [s[i]] + s[i + 1..];
    }
  }

  /** A substitution whose pattern matches nowhere in `s` returns `s`. */
  lemma SubWithoutMatch(m: Matcher, s: string)
    requires forall j :: 0 <= j < |s| ==> !Advances(m(s, j), s, j)
    ensures Sub(m, s) == s
  {
    ScanWithoutMatch(m, s, 0);
  }

  /** A substitution whose pattern matches the whole of `s` at its start. */
  lemma SubWhole(m: Matcher, s: string)
    requires s != [] && m(s, 0) .Some? && m(s, 0).value.end == |s|
    ensures Sub(m, s) == m(s, 0).value.repl
  {
    assert s[0..|s|] == s;
    assert Scan(m, s, |s|) == [];
    assert Output([Replace(s, m(s, 0).value.repl)]) == m(s, 0).value.repl + Output([]);
  }

  /** Every replaced span is a match found at its own position. */
  lemma {:induction false} ScanReplacesMatches(m: Matcher, s: string, i: nat, q: (string, string) -> bool)
    requires i <= |s|
    requires forall j :: i <= j < |s| && Advances(m(s, j), s, j) ==> q(s[j..m(s, j).value.end], m(s, j).value.repl)
    ensures forall p :: p in Scan(m, s, i) && p.Replace? ==> q(p.matched, p.replacement)
    decreases |s| - i
  {
    if i < |s| {
      var h := m(s, i);
      if Advances(h, s, i) {
        ScanReplacesMatches(m, s, h.value.end, q);
      } else {
        ScanReplacesMatches(m, s, i + 1, q);
      }
    }
  }

  /** Every kept character stands at a position where the pattern does not match. */
  lemma {:induction false} ScanKeepsUnmatched(m: Matcher, s: string, i: nat, q: char -> bool)
    requires i <= |s|
    requires forall j :: i <= j < |s| && !Advances(m(s, j), s, j) ==> q(s[j])
    ensures forall p :: p in Scan(m, s, i) && p.Keep? ==> q(p.c)
    decreases |s| - i
  {
    if i < |s| {
      var h := m(s, i);
      if Advances(h, s, i) {
        ScanKeepsUnmatched(m, s, h.value.end, q);
      } else {
        ScanKeepsUnmatched(m, s, i + 1, q);
      }
    }
  }

  /** The text a piece was taken from. */
  function PieceSource(p: Piece): string {
    match p case Keep(c) => [c] case Replace(matched, _) => matched
  }

  /** `c` is the character at `j`, and the pattern does not match there. */
  predicate KeptAt(m: Matcher, s: string, j: nat, c: char) {
    j < |s| && c == s[j] && !Advances(m(s, j), s, j)
  }

  /** Each kept piece of `ps`, read as starting at `i`, is kept where the
      pattern does not match. */
  predicate KeepsOnlyUnmatched(m: Matcher, s: string, i: nat, ps: seq<Piece>) {
    forall k :: 0 <= k < |ps| && ps[k].Keep? ==> KeptAt(m, s, i + |Source(ps[..k])|, ps[k].c)
  }

  /** Every kept character stands, in the text, right after the source of the
      pieces before it, and the pattern does not match at that position: no
      match is passed over. */
  lemma {:induction false} ScanKeepsOnlyUnmatched(m: Matcher, s: string, i: nat)
    requires i <= |s|
    ensures KeepsOnlyUnmatched(m, s, i, Scan(m, s, i))
    decreases |s| - i
  {
    if i < |s| {
      var h := m(s, i);
      if Advances(h, s, i) {
        ScanKeepsOnlyUnmatched(m, s, h.value.end);
        KeepsOnlyUnmatchedCons(m, s, i, h.value.end, Replace(s[i..h.value.end], h.value.repl), Scan(m, s, h.value.end));
      } else {
        ScanKeepsOnlyUnmatched(m, s, i + 1);
        KeepsOnlyUnmatchedCons(m, s, i, i + 1, Keep(s[i]), Scan(m, s, i + 1));
      }
    }
  }

  lemma KeepsOnlyUnmatchedCons(m: Matcher, s: string, i: nat, next: nat, p: Piece, rest: seq<Piece>)
    requires i < next <= |s| && |PieceSource(p)| == next - i
    requires p.Keep? ==> KeptAt(m, s, i, p.c)
    requires KeepsOnlyUnmatched(m, s, next, rest)
    ensures KeepsOnlyUnmatched(m, s, i, [p] + rest)
  {
    var ps := [p] + rest;
    forall k | 0 <= k < |ps| && ps[k].Keep? ensures KeptAt(m, s, i + |Source(ps[..k])|, ps[k].c) {
      if k == 0 {
        assert ps[..0] == [];
      } else {
        SourcePrefixCons(p, rest, k);
        assert KeptAt(m, s, next + |Source(rest[..k - 1])|, rest[k - 1].c);
      }
    }
  }

  lemma SourcePrefixCons(p: Piece, rest: seq<Piece>, k: nat)
    requires 0 < k <= |rest|
    ensures |Source(([p] + rest)[..k])| == |PieceSource(p)| + |Source(rest[..k - 1])|
    ensures ([p] + rest)[k] == rest[k - 1]
  {
    assert ([p] + rest)[..k] == [p] + rest[..k - 1];
    SourceCons(p, rest[..k - 1]);
  }

  /** `re.search` from position `i`: the leftmost position where the pattern matches. */
  function Search<T>(m: (string, nat) -> Option<T>, s: string, i: nat): (r: Option<(nat, T)>)
    requires i <= |s| + 1
    ensures r.Some? ==> i <= r.value.0 <= |s| && m(s, r.value.0) == Some(r.value.1)
    ensures r.Some? ==> forall j :: i <= j < r.value.0 ==> m(s, j).None?
    ensures r.None? ==> forall j :: i <= j <= |s| ==> m(s, j).None?
    decreases |s| + 1 - i
  {
    if i > |s| then None
    else match m(s, i)
      case Some(v) => Some((i, v))
      case None => Search(m, s, i + 1)
  }

  /** `^` under `re.MULTILINE`. */
  predicate AtLineStart(s: string, i: nat) {
    i == 0 || (0 < i <= |s| && s[i - 1] == '\n')
  }

  /** Where the line holding position `k` ends: `$` under `re.MULTILINE`. */
  function LineEnd(s: string, k: nat): (r: nat)
    requires k <= |s|
    ensures k <= r <= |s| && (r == |s| || s[r] == '\n')
    ensures forall j :: k <= j < r ==> s[j] != '\n'
    decreases |s| - k
  {
    if k == |s| || s[k] == '\n' then k else LineEnd(s, k + 1)
  }

  /** Where the greedy run of characters satisfying `p` that starts at `i` ends. */
  function SpanEnd(s: string, i: nat, p: char -> bool): (r: nat)
    requires i <= |s|
    ensures i <= r <= |s| && (r == |s| || !p(s[r]))
    ensures forall j :: i <= j < r ==> p(s[j])
    decreases |s| - i
  {
    if i == |s| || !p(s[i]) then i else SpanEnd(s, i + 1, p)
  }

  /** `SpanEnd` is the first position, from `i`, whose character fails `p`. */
  lemma {:induction false} SpanEndAt(s: string, i: nat, e: nat, p: char -> bool)
    requires i <= e <= |s| && (e == |s| || !p(s[e]))
    requires forall j :: i <= j < e ==> p(s[j])
    ensures SpanEnd(s, i, p) == e
    decreases e - i
  {
    if i < e { SpanEndAt(s, i + 1, e, p); }
  }

  /** `.+?$` (or `.+$`) can match from `k`: at least one character before the line ends. */
  predicate LineRestFrom(s: string, k: nat) {
    k < |s| && s[k] != '\n'
  }

  /** Greedy backtracking of `\s+`: the longest whitespace prefix after `q`, up to `k`,
      after which `.+?$` still matches. */
  function BackOff(s: string, q: nat, k: nat): (r: Option<nat>)
    requires q <= k <= |s|
    ensures r.Some? ==> q < r.value <= k && LineRestFrom(s, r.value)
    ensures r.Some? ==> forall j :: r.value < j <= k ==> !LineRestFrom(s, j)
    ensures r.None? ==> forall j :: q < j <= k ==> !LineRestFrom(s, j)
    decreases k
  {
    if k == q then None
    else if LineRestFrom(s, k) then Some(k)
    else BackOff(s, q, k - 1)
  }

  /** The tail `\s+(.+?)$` of a pattern, tried at `q`: where the captured text starts.
      It runs from there to the end of its line. */
  function WsThenRest(s: string, q: nat): (r: Option<nat>)
    requires q <= |s|
    ensures r.Some? ==> q < r.value <= SpanEnd(s, q, IsSpace) && LineRestFrom(s, r.value)
    ensures r.Some? ==> forall j :: r.value < j <= SpanEnd(s, q, IsSpace) ==> !LineRestFrom(s, j)
    ensures r.None? ==> forall j :: q < j <= SpanEnd(s, q, IsSpace) ==> !LineRestFrom(s, j)
  {
    BackOff(s, q, SpanEnd(s, q, IsSpace))
  }

  /** When whitespace after `q` is followed by other text, the capture starts right
      there; only a run reaching the end of the input is backed off. */
  lemma WsThenRestStopsAtText(s: string, q: nat)
    requires q <= |s|
    requires q < SpanEnd(s, q, IsSpace) < |s|
    ensures WsThenRest(s, q) == Some(SpanEnd(s, q, IsSpace))
  {
  }
}
