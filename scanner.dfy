/**
 * The regular expressions Pdf2text matches with preg_match and preg_match_all, written as the
 * scanners they amount to. Every one is compiled with the flags i (ASCII case is ignored), s (a
 * dot matches any character) and U (quantifiers are lazy), and has the shape
 *
 *     <opening> <lazy body> <closing>
 *
 * where the opening and the closing can only match in one way at a given position (a lazy \s*
 * followed by a letter or a bracket takes the whole run of white space, as nothing shorter lets
 * the next token match). PCRE tries the start positions from left to right, and at a start
 * position the body lengths from short to long; preg_match_all starts again where a match ended.
 * The character class [\n|\r] of the source accepts '|' as well as the two line ends.
 */
module Scanner {
  import opened Php

  /** The patterns of Pdf2text.php that have a lazy body. */
  datatype Pattern =
    | Block(open: string, close: string)  // open[\n|\r](.*)close[\n|\r]: obj, stream, BT (keywords in lower case)
    | Angles                              // <<(.*)>>
    | TJArray                             // \[(.*)\]\s*TJ[\n|\r]
    | TdString                            // T[d|w|m|f]\s*(\(.*\))\s*Tj[\n|\r]
    | TdArray                             // T[d|w|m|f]\s*(\[.*\])\s*Tj[\n|\r]
    | Counted(keyword: string)            // ([0-9]+)\s+begin<keyword>(.*)end<keyword>

  /** What an opening matched: its capture groups, where the lazy body starts, where the capture starts. */
  datatype Opening = Opening(groups: seq<string>, bodyStart: nat, capStart: nat)

  /** What a closing matched: where the capture ends and where the whole match ends. */
  datatype Closing = Closing(capEnd: nat, end: nat)

  /** One match: its start, the groups before the body, the body's capture, where the closing was found, its end. */
  datatype Match = Match(start: nat, groups: seq<string>, capture: string, closeAt: nat, end: nat)

  /** [\n|\r] */
  predicate IsSep(c: char) { c == '\n' || c == '|' || c == '\r' }

  /** Length of the run of decimal digits that starts at index i. */
  function DigitRun(s: string, i: nat): (n: nat)
    ensures i + n <= |s| || (i > |s| && n == 0)
    ensures forall k :: i <= k < i + n ==> IsDigit(s[k])
    ensures i + n < |s| ==> !IsDigit(s[i + n])
    decreases |s| - i
  {
    if i < |s| && IsDigit(s[i]) then 1 + DigitRun(s, i + 1) else 0
  }

  /** `kw` then one separator character at index i. */
  predicate KeywordSepAt(s: string, i: nat, kw: string) {
    KeywordAt(s, i, kw) && i + |kw| < |s| && IsSep(s[i + |kw|])
  }

  /** T[d|w|m|f] at index i (the class holds '|' too). */
  predicate TdAt(s: string, i: nat) {
    i + 2 <= |s| && Lower(s[i]) == 't' &&
    (Lower(s[i + 1]) == 'd' || s[i + 1] == '|' || Lower(s[i + 1]) == 'w' || Lower(s[i + 1]) == 'm' || Lower(s[i + 1]) == 'f')
  }

  /** The opening of `pat` at index p, if it matches there. */
  function Open(pat: Pattern, s: string, p: nat): (r: Option<Opening>)
    ensures r.Some? ==> p <= r.value.capStart <= r.value.bodyStart <= |s| && p < r.value.bodyStart
  {
    match pat
    case Block(open, close) =>
      if |open| > 0 && KeywordSepAt(s, p, open) then Some(Opening([], p + |open| + 1, p + |open| + 1)) else None
    case Angles =>
      if p + 2 <= |s| && s[p] == '<' && s[p + 1] == '<' then Some(Opening([], p + 2, p + 2)) else None
    case TJArray =>
      if p < |s| && s[p] == '[' then Some(Opening([], p + 1, p + 1)) else None
    case TdString =>
      if TdAt(s, p) then
        var q := p + 2 + WsRun(s, p + 2);
        if q < |s| && s[q] == '(' then Some(Opening([], q + 1, q)) else None
      else None
    case TdArray =>
      if TdAt(s, p) then
        var q := p + 2 + WsRun(s, p + 2);
        if q < |s| && s[q] == '[' then Some(Opening([], q + 1, q)) else None
      else None
    case Counted(keyword) =>
      var d := DigitRun(s, p);
      var w := if p + d <= |s| then WsRun(s, p + d) else 0;
      if d > 0 && w > 0 && KeywordAt(s, p + d + w, "begin" + keyword) then
        Some(Opening([s[p..p + d]], p + d + w + |"begin" + keyword|, p + d + w + |"begin" + keyword|))
      else None
  }

  /** The closing of `pat` at index k, if it matches there. */
  function Close(pat: Pattern, s: string, k: nat): (r: Option<Closing>)
    ensures r.Some? ==> k <= r.value.capEnd <= r.value.end <= |s| && k < r.value.end
  {
    match pat
    case Block(open, close) =>
      if KeywordSepAt(s, k, close) then Some(Closing(k, k + |close| + 1)) else None
    case Angles =>
      if k + 2 <= |s| && s[k] == '>' && s[k + 1] == '>' then Some(Closing(k, k + 2)) else None
    case TJArray =>
      if k < |s| && s[k] == ']' then
        var t := k + 1 + WsRun(s, k + 1);
        if KeywordSepAt(s, t, "tj") then Some(Closing(k, t + 3)) else None
      else None
    case TdString =>
      if k < |s| && s[k] == ')' then
        var t := k + 1 + WsRun(s, k + 1);
        if KeywordSepAt(s, t, "tj") then Some(Closing(k + 1, t + 3)) else None
      else None
    case TdArray =>
      if k < |s| && s[k] == ']' then
        var t := k + 1 + WsRun(s, k + 1);
        if KeywordSepAt(s, t, "tj") then Some(Closing(k + 1, t + 3)) else None
      else None
    case Counted(keyword) =>
      if KeywordAt(s, k, "end" + keyword) then Some(Closing(k, k + |"end" + keyword|)) else None
  }

  /** The lazy body: the first index from k on where the closing matches. */
  function FindClose(pat: Pattern, s: string, k: nat): (r: Option<nat>)
    ensures r.Some? ==> k <= r.value < |s| && Close(pat, s, r.value).Some?
    ensures r.Some? ==> forall j :: k <= j < r.value ==> Close(pat, s, j).None?
    ensures r.None? ==> forall j :: k <= j < |s| ==> Close(pat, s, j).None?
    decreases |s| - k
  {
    if k >= |s| then None
    else if Close(pat, s, k).Some? then Some(k)
    else FindClose(pat, s, k + 1)
  }

  /** The match PCRE finds when it tries start position p, if any. */
  function MatchAt(pat: Pattern, s: string, p: nat): (r: Option<Match>)
    ensures r.Some? ==> r.value.start == p < r.value.end <= |s|
  {
    match Open(pat, s, p)
    case None => None
    case Some(o) =>
      match FindClose(pat, s, o.bodyStart)
      case None => None
      case Some(k) =>
        var c := Close(pat, s, k).value;
        Some(Match(p, o.groups, s[o.capStart..c.capEnd], k, c.end))
  }

  /** The match tried at every start position of s. */
  function Table(pat: Pattern, s: string): (t: seq<Option<Match>>)
    ensures |t| == |s| && forall q :: 0 <= q < |s| ==> t[q] == MatchAt(pat, s, q)
    ensures WellFormed(t)
  {
    seq(|s|, q requires 0 <= q < |s| => MatchAt(pat, s, q))
  }

  /** A table of tries: the match at q, if any, starts at q and ends after it, within the text. */
  predicate WellFormed(t: seq<Option<Match>>)
  {
    forall q :: 0 <= q < |t| && t[q].Some? ==> t[q].value.start == q < t[q].value.end <= |t|
  }

  /** preg_match_all from index p: leftmost matches, each search resuming where the last match ended. */
  function AllMatches(pat: Pattern, s: string, p: nat): seq<Match>
  {
    AllFrom(Table(pat, s), p)
  }

  function AllFrom(t: seq<Option<Match>>, p: nat): (ms: seq<Match>)
    requires WellFormed(t)
    decreases |t| - p
  {
    if p >= |t| then []
    else match t[p]
      case None => AllFrom(t, p + 1)
      case Some(m) => [m] + AllFrom(t, m.end)
  }

  /** preg_match: the first match. */
  function FirstMatch(pat: Pattern, s: string): Option<Match>
  {
    var ms := AllMatches(pat, s, 0);
    if |ms| == 0 then None else Some(ms[0])
  }

  /** The capture of every match, in order ($matches[1] of preg_match_all). */
  function Captures(ms: seq<Match>): (r: seq<string>)
    ensures |r| == |ms| && forall i :: 0 <= i < |ms| ==> r[i] == ms[i].capture
  {
    seq(|ms|, i requires 0 <= i < |ms| => ms[i].capture)
  }

  // ---------------------------------------------------------------------------------------------
  // What a match is

  /**
   * A match at p is an opening at p, the shortest body after it that a closing follows, and that
   * closing; the capture is the text between them.
   */
  lemma MatchAtShape(pat: Pattern, s: string, p: nat)
    requires MatchAt(pat, s, p).Some?
    ensures var m := MatchAt(pat, s, p).value;
      var o := Open(pat, s, p).value;
      var c := Close(pat, s, m.closeAt).value;
      Open(pat, s, p).Some? && Close(pat, s, m.closeAt).Some? &&
      o.bodyStart <= m.closeAt && m.capture == s[o.capStart..c.capEnd] && m.end == c.end &&
      (forall j :: o.bodyStart <= j < m.closeAt ==> Close(pat, s, j).None?)
  {
  }

  /** PCRE finds a match at p whenever the opening matches there and a closing follows. */
  lemma MatchAtFound(pat: Pattern, s: string, p: nat, k: nat)
    requires Open(pat, s, p).Some? && Open(pat, s, p).value.bodyStart <= k && Close(pat, s, k).Some?
    ensures MatchAt(pat, s, p).Some? && MatchAt(pat, s, p).value.closeAt <= k
  {
    var r := FindClose(pat, s, Open(pat, s, p).value.bodyStart);
    assert k < |s|;
    assert r.Some?;
  }

  /**
   * The leftmost, non-overlapping sequence of matches from p on: each match is the first one at
   * or after the end of the previous, and no match starts in between.
   */
  predicate Leftmost(t: seq<Option<Match>>, p: nat, ms: seq<Match>)
    decreases |ms|
  {
    if |ms| == 0 then forall q :: p <= q < |t| ==> t[q].None?
    else
      p <= ms[0].start < |t| && t[ms[0].start] == Some(ms[0]) &&
      (forall q :: p <= q < ms[0].start ==> t[q].None?) &&
      Leftmost(t, ms[0].end, ms[1..])
  }

  /** preg_match_all returns the leftmost sequence. */
  lemma {:induction false} AllMatchesLeftmost(t: seq<Option<Match>>, p: nat)
    requires WellFormed(t)
    ensures Leftmost(t, p, AllFrom(t, p))
    decreases |t| - p
  {
    if p < |t| {
      match t[p]
      case None =>
        AllMatchesLeftmost(t, p + 1);
      case Some(m) =>
        AllMatchesLeftmost(t, m.end);
        assert ([m] + AllFrom(t, m.end))[1..] == AllFrom(t, m.end);
    }
  }

  /** ... and no other sequence is leftmost. */
  lemma {:induction false} LeftmostUnique(t: seq<Option<Match>>, p: nat, ms: seq<Match>)
    requires WellFormed(t) && Leftmost(t, p, ms)
    ensures ms == AllFrom(t, p)
    decreases |t| - p
  {
    if p < |t| {
      match t[p]
      case None =>
        if |ms| > 0 {
          assert ms[0].start != p;
        }
        LeftmostUnique(t, p + 1, ms);
      case Some(m) =>
        assert |ms| > 0 && ms[0].start == p;
        LeftmostUnique(t, m.end, ms[1..]);
        assert ms == [ms[0]] + ms[1..];
    }
  }

  /** A match anywhere from p on makes preg_match_all from p find something. */
  lemma {:induction false} SomeMatchFound(t: seq<Option<Match>>, p: nat, q: nat)
    requires WellFormed(t) && p <= q < |t| && t[q].Some?
    ensures |AllFrom(t, p)| > 0
    decreases q - p
  {
    if t[p].None? {
      SomeMatchFound(t, p + 1, q);
    }
  }

  /** Every match preg_match_all returns is the match PCRE finds at its start. */
  lemma {:induction false} AllFromMember(t: seq<Option<Match>>, p: nat, i: nat)
    requires WellFormed(t) && i < |AllFrom(t, p)|
    ensures var m := AllFrom(t, p)[i]; p <= m.start < |t| && t[m.start] == Some(m)
    decreases |t| - p
  {
    if p < |t| {
      match t[p]
      case None =>
        AllFromMember(t, p + 1, i);
      case Some(m) =>
        if i > 0 {
          AllFromMember(t, m.end, i - 1);
        }
    }
  }

  /** Inside a match of T?\s*[...]\s*Tj sits an opening of \[...\]\s*TJ ... */
  lemma OpenTdArray(s: string, p: nat)
    requires Open(TdArray, s, p).Some?
    ensures var o := Open(TdArray, s, p).value;
      o.bodyStart == o.capStart + 1 && Open(TJArray, s, o.capStart).Some? &&
      Open(TJArray, s, o.capStart).value.bodyStart == o.bodyStart
  {
  }

  /** ... and its closing. */
  lemma CloseTdArray(s: string, k: nat)
    requires Close(TdArray, s, k).Some?
    ensures Close(TJArray, s, k).Some?
  {
  }

  /** The capture of T?\s*(\(.*\))\s*Tj starts at its '(' ... */
  lemma OpenTdString(s: string, p: nat)
    requires Open(TdString, s, p).Some?
    ensures var o := Open(TdString, s, p).value; o.bodyStart == o.capStart + 1 && s[o.capStart] == '('
  {
  }

  /** ... and ends after its ')'. */
  lemma CloseTdString(s: string, k: nat)
    requires Close(TdString, s, k).Some?
    ensures Close(TdString, s, k).value.capEnd == k + 1 && s[k] == ')'
  {
  }
}
