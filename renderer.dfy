/**
 * getTextUsingTransformations (Pdf2text.php lines 482-559): every text collected from the BT...ET
 * containers is read character by character. "<...>" gathers hex digits, which '>' turns into one
 * character entity per chunk of multibyte digits, a chunk that the transformation table knows
 * being replaced by its entry first; "(...)" gathers plain text, which ')' appends; a backslash
 * starts an escape. Each text ends with a newline.
 *
 * html_entity_decode is a parameter of the model, with the flags it is called with.
 */
module Renderer {
  import opened Php

  /** html_entity_decode($text, $flags). */
  type EntityDecoder = (string, int) -> string

  /** ENT_QUOTES, the initial value of $convertQuotes. */
  const EntQuotes: int := 3

  /** The flags html_entity_decode takes when none are passed: ENT_QUOTES | ENT_SUBSTITUTE | ENT_HTML401. */
  const DefaultEntityFlags: int := 11

  /** What the rendering reads besides the texts: the table, the chunk width and the entity decoder. */
  datatype Setting = Setting(table: map<string, string>, multibyte: nat, decode: EntityDecoder, quotes: int)

  predicate ValidSetting(r: Setting)
  {
    r.multibyte > 0
  }

  /** The variables of the inner loop besides the document: the two modes and the two buffers. */
  datatype State = State(isHex: bool, isPlain: bool, hex: string, plain: string)

  /** The state at the start of a text (lines 487-490). */
  const Start := State(false, false, "", "")

  /** The character one hex chunk stands for (lines 505-509). */
  function ChunkText(chunk: string, r: Setting): string
  {
    var key := StrPadRight(chunk, 4, '0');
    var code := if key in r.table then r.table[key] else key;
    r.decode("&#x" + code + ";", DefaultEntityFlags)
  }

  /** What '>' appends for the first n chunks of the hex buffer. */
  function HexText(chunks: seq<string>, n: nat, r: Setting): string
    requires n <= |chunks|
  {
    if n == 0 then "" else HexText(chunks, n - 1, r) + ChunkText(chunks[n - 1], r)
  }

  /** What '>' appends for the hex buffer hex. */
  function HexOut(hex: string, r: Setting): string
    requires ValidSetting(r)
  {
    var chunks := StrSplit(hex, r.multibyte);
    HexText(chunks, |chunks|, r)
  }

  /** preg_replace("#[^0-9]#", '', $s). */
  function KeepDigits(s: string): (d: string)
    ensures |d| <= |s| && forall i :: 0 <= i < |d| ==> IsDigit(d[i])
    decreases |s|
  {
    if |s| == 0 then ""
    else (if IsDigit(s[0]) then [s[0]] else "") + KeepDigits(s[1..])
  }

  /** The cleanup keeps each digit as often as it occurs, and nothing else. */
  lemma {:induction false} KeepDigitsCounts(s: string)
    ensures forall c :: multiset(KeepDigits(s))[c] == if IsDigit(c) then multiset(s)[c] else 0
    decreases |s|
  {
    if |s| > 0 {
      KeepDigitsCounts(s[1..]);
      assert s == [s[0]] + s[1..];
    }
  }

  /** The digits of a + b are those of a, then those of b: the order of the digits is kept. */
  lemma {:induction false} KeepDigitsAppend(a: string, b: string)
    ensures KeepDigits(a + b) == KeepDigits(a) + KeepDigits(b)
    decreases |a|
  {
    if |a| == 0 {
      assert a + b == b;
    } else {
      assert (a + b)[1..] == a[1..] + b;
      KeepDigitsAppend(a[1..], b);
    }
  }

  /** The octal escape at index j: the digits among the three characters after the backslash. */
  function OctalDigits(text: string, j: nat): string
  {
    KeepDigits(Substr(text, j + 1, 3))
  }

  /** One pass of the inner loop at index j: the index of the next pass, the new state and what it appends to the document. */
  function Next(text: string, j: nat, st: State, r: Setting): (n: (nat, State, string))
    requires j < |text| && ValidSetting(r)
    ensures n.0 > j
  {
    var c := text[j];
    if c == '<' then (j + 1, st.(hex := "", isHex := true, isPlain := false), "")
    else if c == '>' then (j + 1, st.(isHex := false), HexOut(st.hex, r))
    else if c == '(' then (j + 1, st.(plain := "", isPlain := true, isHex := false), "")
    else if c == ')' then (j + 1, st.(isPlain := false), st.plain)
    else if c == '\\' then (Escape(text, j, st, r).0, Escape(text, j, st, r).1, "")
    else if st.isHex then (j + 1, st.(hex := st.hex + [c]), "")
    else if st.isPlain then (j + 1, st.(plain := st.plain + [c]), "")
    else (j + 1, st, "")
  }

  /** The backslash case (lines 522-544): an out-of-range next character reads as "". */
  function Escape(text: string, j: nat, st: State, r: Setting): (n: (nat, State))
    ensures n.0 > j
  {
    var c2 := CharAt(text, j + 1);
    if c2 == "\\" || c2 == "(" || c2 == ")" then (j + 2, st.(plain := st.plain + c2))
    else if c2 == "n" || c2 == "r" || c2 == "t" || c2 == "b" || c2 == "f" then (j + 2, st.(plain := st.plain + "\\" + c2))
    else if |c2| == 1 && IsDigit(c2[0]) then
      var oct := OctalDigits(text, j);
      (j + |oct| + 1, st.(plain := st.plain + r.decode("&#" + DecString(OctDec(oct)) + ";", r.quotes)))
    else (j + 2, st)
  }

  /** What the inner loop appends from index j on. */
  function Run(text: string, j: nat, st: State, r: Setting): string
    requires ValidSetting(r)
    decreases |text| - j
  {
    if j >= |text| then ""
    else
      var n := Next(text, j, st, r);
      n.2 + Run(text, n.0, n.1, r)
  }

  /** What one text renders to, before its newline. */
  function TextOut(text: string, r: Setting): string
    requires ValidSetting(r)
  {
    Run(text, 0, Start, r)
  }

  /** What getTextUsingTransformations returns for the first n texts. */
  function Rendered(texts: seq<string>, n: nat, r: Setting): string
    requires n <= |texts| && ValidSetting(r)
  {
    if n == 0 then "" else Rendered(texts, n - 1, r) + TextOut(texts[n - 1], r) + "\n"
  }

  // ---------------------------------------------------------------------------------------------
  // The loops

  /** Lines 502-509: one entity per chunk of the hex buffer. */
  method AppendHex(document: string, hex: string, r: Setting) returns (d: string)
    requires ValidSetting(r)
    ensures d == document + HexOut(hex, r)
  {
    var hexs := StrSplit(hex, r.multibyte);
    d := document;
    var k := 0;
    while k < |hexs|
      invariant k <= |hexs|
      invariant d == document + HexText(hexs, k, r)
    {
      var chex := StrPadRight(hexs[k], 4, '0');
      if chex in r.table {
        chex := r.table[chex];
      }
      d := d + r.decode("&#x" + chex + ";", DefaultEntityFlags);
      k := k + 1;
    }
  }

  /** The body of the inner loop, lines 493-551, with the loop's own j++. */
  method Step(text: string, j: nat, st: State, document: string, r: Setting) returns (j': nat, st': State, d: string)
    requires j < |text| && ValidSetting(r)
    ensures (j', st') == (Next(text, j, st, r).0, Next(text, j, st, r).1)
    ensures d == document + Next(text, j, st, r).2
  {
    var c := text[j];
    st' := st;
    d := document;
    j' := j + 1;
    if c == '<' {
      st' := st.(hex := "", isHex := true, isPlain := false);
    } else if c == '>' {
      d := AppendHex(document, st.hex, r);
      st' := st.(isHex := false);
    } else if c == '(' {
      st' := st.(plain := "", isPlain := true, isHex := false);
    } else if c == ')' {
      d := document + st.plain;
      st' := st.(isPlain := false);
    } else if c == '\\' {
      var jj: int := j;
      var c2 := CharAt(text, j + 1);
      if c2 == "\\" || c2 == "(" || c2 == ")" {
        st' := st.(plain := st.plain + c2);
      } else if c2 == "n" || c2 == "r" || c2 == "t" || c2 == "b" || c2 == "f" {
        st' := st.(plain := st.plain + "\\" + c2);
      } else if |c2| == 1 && IsDigit(c2[0]) {
        var oct := KeepDigits(Substr(text, j + 1, 3));
        jj := jj + |oct| - 1;
        st' := st.(plain := st.plain + r.decode("&#" + DecString(OctDec(oct)) + ";", r.quotes));
      }
      jj := jj + 1;
      j' := jj + 1;
    } else if st.isHex {
      st' := st.(hex := st.hex + [c]);
    } else if st.isPlain {
      st' := st.(plain := st.plain + [c]);
    }
  }

  /** The inner loop of lines 492-553: one text appended to the document. */
  method AppendText(document: string, text: string, r: Setting) returns (d: string)
    requires ValidSetting(r)
    ensures d == document + TextOut(text, r)
  {
    d := document;
    var st := Start;
    var j: nat := 0;
    while j < |text|
      invariant d + Run(text, j, st, r) == document + TextOut(text, r)
      decreases |text| - j
    {
      ghost var n := Next(text, j, st, r);
      assert Run(text, j, st, r) == n.2 + Run(text, n.0, n.1, r);
      j, st, d := Step(text, j, st, d, r);
    }
  }

  /** getTextUsingTransformations, lines 482-559. */
  method GetTextUsingTransformations(texts: seq<string>, r: Setting) returns (document: string)
    requires ValidSetting(r)
    ensures document == Rendered(texts, |texts|, r)
  {
    document := "";
    var i := 0;
    while i < |texts|
      invariant i <= |texts|
      invariant document == Rendered(texts, i, r)
    {
      document := AppendText(document, texts[i], r);
      document := document + "\n";
      i := i + 1;
    }
  }

  // ---------------------------------------------------------------------------------------------
  // Properties

  /** No state carries over from one text to the next: the document of a list is the documents of its parts. */
  lemma {:induction false} RenderedSplit(texts: seq<string>, n: nat, r: Setting)
    requires n <= |texts| && ValidSetting(r)
    ensures Rendered(texts, |texts|, r) == Rendered(texts[..n], n, r) + Rendered(texts[n..], |texts| - n, r)
    decreases |texts|
  {
    if |texts| > n {
      var m := |texts| - 1;
      RenderedSplit(texts[..m], n, r);
      RenderedPrefix(texts, m, r);
      RenderedPrefix(texts[n..], m - n, r);
      assert texts[..m][..n] == texts[..n];
      assert texts[..m][n..] == texts[n..][..m - n];
      assert texts[n..][m - n] == texts[m];
    } else {
      assert texts[..n] == texts;
      RenderedPrefix(texts, n, r);
    }
  }

  /** The document of the first n texts only reads those texts. */
  lemma {:induction false} RenderedPrefix(texts: seq<string>, n: nat, r: Setting)
    requires n <= |texts| && ValidSetting(r)
    ensures Rendered(texts[..n], n, r) == Rendered(texts, n, r)
    decreases n
  {
    if n > 0 {
      assert texts[..n][..n - 1] == texts[..n - 1];
      RenderedPrefix(texts[..n], n - 1, r);
      RenderedPrefix(texts, n - 1, r);
      assert texts[..n][n - 1] == texts[n - 1];
    }
  }

  /** A character with no role of its own. */
  predicate Ordinary(c: char)
  {
    c != '<' && c != '>' && c != '(' && c != ')' && c != '\\'
  }

  /** In plain mode, ordinary characters go to the plain buffer as they are, and nothing to the document. */
  lemma {:induction false} PlainChars(text: string, j: nat, k: nat, st: State, r: Setting)
    requires j <= k <= |text| && ValidSetting(r) && st.isPlain && !st.isHex
    requires forall i :: j <= i < k ==> Ordinary(text[i])
    ensures Run(text, j, st, r) == Run(text, k, st.(plain := st.plain + text[j..k]), r)
    decreases k - j
  {
    if j < k {
      var st1 := st.(plain := st.plain + [text[j]]);
      assert Next(text, j, st, r) == (j + 1, st1, "");
      PlainChars(text, j + 1, k, st1, r);
      assert st1.plain + text[j + 1..k] == st.plain + text[j..k];
    } else {
      assert st.(plain := st.plain + text[j..k]) == st;
    }
  }

  /** In hex mode, ordinary characters go to the hex buffer as they are, and nothing to the document. */
  lemma {:induction false} HexChars(text: string, j: nat, k: nat, st: State, r: Setting)
    requires j <= k <= |text| && ValidSetting(r) && st.isHex
    requires forall i :: j <= i < k ==> Ordinary(text[i])
    ensures Run(text, j, st, r) == Run(text, k, st.(hex := st.hex + text[j..k]), r)
    decreases k - j
  {
    if j < k {
      var st1 := st.(hex := st.hex + [text[j]]);
      assert Next(text, j, st, r) == (j + 1, st1, "");
      HexChars(text, j + 1, k, st1, r);
      assert st1.hex + text[j + 1..k] == st.hex + text[j..k];
    } else {
      assert st.(hex := st.hex + text[j..k]) == st;
    }
  }

  /** "(p)" renders p verbatim. */
  lemma PlainVerbatim(p: string, r: Setting)
    requires ValidSetting(r) && forall i :: 0 <= i < |p| ==> Ordinary(p[i])
    ensures TextOut("(" + p + ")", r) == p
  {
    var text := "(" + p + ")";
    var st := State(false, true, "", "");
    var st1 := State(false, true, "", p);
    PlainRun(p, ")", r);
    assert Next(text, 1 + |p|, st1, r) == (|text|, st1.(isPlain := false), p);
    assert Run(text, 1 + |p|, st1, r) == p + "";
  }

  /** ')' appends the plain buffer even when it was appended already: "(p))" renders p twice. */
  lemma StalePlainFlushed(p: string, r: Setting)
    requires ValidSetting(r) && forall i :: 0 <= i < |p| ==> Ordinary(p[i])
    ensures TextOut("(" + p + "))", r) == p + p
  {
    var text := "(" + p + "))";
    var st1 := State(false, true, "", p);
    var st2 := State(false, false, "", p);
    PlainRun(p, "))", r);
    assert Next(text, 2 + |p|, st2, r) == (|text|, st2, p);
    assert Run(text, 2 + |p|, st2, r) == p + "";
    assert Next(text, 1 + |p|, st1, r) == (2 + |p|, st2, p);
    assert Run(text, 1 + |p|, st1, r) == p + p;
  }

  /** After "(p", the plain buffer holds p and nothing was appended. */
  lemma PlainRun(p: string, rest: string, r: Setting)
    requires ValidSetting(r) && forall i :: 0 <= i < |p| ==> Ordinary(p[i])
    ensures TextOut("(" + p + rest, r) == Run("(" + p + rest, 1 + |p|, State(false, true, "", p), r)
  {
    var text := "(" + p + rest;
    var st := State(false, true, "", "");
    assert Next(text, 0, Start, r) == (1, st, "");
    assert Run(text, 0, Start, r) == "" + Run(text, 1, st, r);
    assert text[1..1 + |p|] == p;
    PlainChars(text, 1, 1 + |p|, st, r);
    assert st.(plain := st.plain + text[1..1 + |p|]) == State(false, true, "", p);
  }

  /** After "<h", the hex buffer holds h and nothing was appended. */
  lemma HexRun(h: string, rest: string, r: Setting)
    requires ValidSetting(r) && forall i :: 0 <= i < |h| ==> Ordinary(h[i])
    ensures TextOut("<" + h + rest, r) == Run("<" + h + rest, 1 + |h|, State(true, false, h, ""), r)
  {
    var text := "<" + h + rest;
    var st := State(true, false, "", "");
    assert Next(text, 0, Start, r) == (1, st, "");
    assert Run(text, 0, Start, r) == "" + Run(text, 1, st, r);
    assert text[1..1 + |h|] == h;
    HexChars(text, 1, 1 + |h|, st, r);
    assert st.(hex := st.hex + text[1..1 + |h|]) == State(true, false, h, "");
  }

  /** "<h>" renders the hex digits h chunk by chunk. */
  lemma HexVerbatim(h: string, r: Setting)
    requires ValidSetting(r) && forall i :: 0 <= i < |h| ==> Ordinary(h[i])
    ensures TextOut("<" + h + ">", r) == HexOut(h, r)
  {
    var text := "<" + h + ">";
    var st1 := State(true, false, h, "");
    HexRun(h, ">", r);
    assert Next(text, 1 + |h|, st1, r) == (|text|, State(false, false, h, ""), HexOut(h, r));
    assert Run(text, 1 + |h|, st1, r) == HexOut(h, r) + "";
  }

  /** '>' renders the hex buffer even when it was rendered already: "<h>>" renders it twice. */
  lemma StaleHexFlushed(h: string, r: Setting)
    requires ValidSetting(r) && forall i :: 0 <= i < |h| ==> Ordinary(h[i])
    ensures TextOut("<" + h + ">>", r) == HexOut(h, r) + HexOut(h, r)
  {
    var text := "<" + h + ">>";
    var st1 := State(true, false, h, "");
    var st2 := State(false, false, h, "");
    HexRun(h, ">>", r);
    assert Next(text, 2 + |h|, st2, r) == (|text|, st2, HexOut(h, r));
    assert Run(text, 2 + |h|, st2, r) == HexOut(h, r) + "";
    assert Next(text, 1 + |h|, st1, r) == (2 + |h|, st2, HexOut(h, r));
    assert Run(text, 1 + |h|, st1, r) == HexOut(h, r) + HexOut(h, r);
  }

  lemma {:induction false} HexTextCons(c: string, cs: seq<string>, n: nat, r: Setting)
    requires n <= |cs|
    ensures HexText([c] + cs, n + 1, r) == ChunkText(c, r) + HexText(cs, n, r)
    decreases n
  {
    if n > 0 {
      HexTextCons(c, cs, n - 1, r);
      assert ([c] + cs)[n] == cs[n - 1];
    }
  }

  /** A hex buffer of at most multibyte digits is one character. */
  lemma HexOutOneChunk(h: string, r: Setting)
    requires ValidSetting(r) && 1 <= |h| <= r.multibyte
    ensures HexOut(h, r) == ChunkText(h, r)
  {
    assert StrSplit(h, r.multibyte) == [h];
    assert HexText([h], 1, r) == "" + ChunkText(h, r);
  }

  /** A hex buffer is cut into chunks of multibyte digits from the left. */
  lemma HexOutAppend(a: string, b: string, r: Setting)
    requires ValidSetting(r) && |a| == r.multibyte
    ensures HexOut(a + b, r) == ChunkText(a, r) + HexOut(b, r)
  {
    var w := r.multibyte;
    var s := a + b;
    if |b| == 0 {
      assert s == a;
      assert StrSplit(b, w) == [];
      HexOutOneChunk(a, r);
    } else {
      assert s[..w] == a && s[w..] == b;
      var cs := StrSplit(b, w);
      assert StrSplit(s, w) == [a] + cs;
      HexTextCons(a, cs, |cs|, r);
    }
  }

  /** A two-digit hex code is looked up right-padded, as bfchar stores it: "41" reads the entry of "4100". */
  lemma ShortChunkPaddedRight(r: Setting)
    requires "4100" in r.table
    ensures ChunkText("41", r) == r.decode("&#x" + r.table["4100"] + ";", DefaultEntityFlags)
  {
    assert StrPadRight("41", 4, '0') == "4100";
  }

  /** \\, \( and \) add the character after the backslash to the plain buffer, whatever the mode. */
  lemma EscapedDelimiter(text: string, j: nat, st: State, r: Setting)
    requires j + 1 < |text| && ValidSetting(r) && text[j] == '\\'
    requires text[j + 1] == '\\' || text[j + 1] == '(' || text[j + 1] == ')'
    ensures Next(text, j, st, r) == (j + 2, st.(plain := st.plain + [text[j + 1]]), "")
  {
  }

  /** \n, \r, \t, \b and \f add the backslash and the letter, two characters, to the plain buffer. */
  lemma EscapedLetter(text: string, j: nat, st: State, r: Setting)
    requires j + 1 < |text| && ValidSetting(r) && text[j] == '\\'
    requires text[j + 1] in "nrtbf"
    ensures Next(text, j, st, r) == (j + 2, st.(plain := st.plain + ['\\', text[j + 1]]), "")
  {
    var c2 := CharAt(text, j + 1);
    assert c2 == [text[j + 1]];
    assert c2 == "n" || c2 == "r" || c2 == "t" || c2 == "b" || c2 == "f";
    assert st.plain + "\\" + c2 == st.plain + ['\\', text[j + 1]];
  }

  /**
   * Any other character after a backslash, such as a quote, is dropped together with the
   * backslash: neither reaches the plain buffer.
   */
  lemma UnknownEscapeDropped(text: string, j: nat, st: State, r: Setting)
    requires j + 1 < |text| && ValidSetting(r) && text[j] == '\\'
    requires text[j + 1] !in "\\()nrtbf" && !IsDigit(text[j + 1])
    ensures Next(text, j, st, r) == (j + 2, st, "")
  {
    var c2 := CharAt(text, j + 1);
    assert c2 == [text[j + 1]];
  }

  /** Three digits after a backslash are one octal escape: its entity goes to the plain buffer. */
  lemma OctalEscape(text: string, j: nat, st: State, r: Setting)
    requires j + 3 < |text| && ValidSetting(r) && text[j] == '\\'
    requires IsDigit(text[j + 1]) && IsDigit(text[j + 2]) && IsDigit(text[j + 3])
    ensures Next(text, j, st, r) ==
      (j + 4, st.(plain := st.plain + r.decode("&#" + DecString(OctDec(text[j + 1..j + 4])) + ";", r.quotes)), "")
  {
    var s := text[j + 1..j + 4];
    assert Substr(text, j + 1, 3) == s;
    KeepThreeDigits(s);
  }

  lemma KeepThreeDigits(s: string)
    requires |s| == 3 && IsDigit(s[0]) && IsDigit(s[1]) && IsDigit(s[2])
    ensures KeepDigits(s) == s
  {
    assert KeepDigits(s[2..]) == s[2..];
    assert KeepDigits(s[1..]) == s[1..];
  }

  /**
   * A non-digit inside an octal escape is dropped, yet the index only moves on by the digits kept:
   * in "\\1a2" the '2' is read a second time, as an ordinary character.
   */
  lemma OctalRereads(text: string, j: nat, st: State, r: Setting)
    requires j + 3 < |text| && ValidSetting(r) && text[j] == '\\'
    requires IsDigit(text[j + 1]) && !IsDigit(text[j + 2]) && IsDigit(text[j + 3])
    ensures Next(text, j, st, r).0 == j + 3
  {
    var s := text[j + 1..j + 4];
    assert Substr(text, j + 1, 3) == s;
    assert KeepDigits(s[2..]) == s[2..];
    assert KeepDigits(s[1..]) == s[2..];
  }
}
