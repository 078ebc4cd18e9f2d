/**
 * The ASCIIHexDecode filter as Pdf2text::decodeAsciiHex implements it (ISO 32000-1, section 7.4.2,
 * describes the filter; the code departs from it in the ways stated below).
 *
 * - The switch compares each character with '\0', '\t', '\r', '\f' and '\n' written in single
 *   quotes, which in PHP are two-character strings, so only ' ' is skipped as white space.
 * - '%' sets a comment flag that is never cleared (same reason) and never consulted: the
 *   characters after a '%' are decoded like any other.
 * - After the closing '>' the code pads when an EVEN number of digits was read (including none),
 *   appending chr(16 * last high nibble), where the high nibble starts at -1.
 */
module AsciiHex {
  import opened Php

  /** The characters the decoder skips. */
  predicate Skipped(c: char) { c == ' ' || c == '%' }

  /** The characters among the first n of s that the decoder treats as digits, in order. */
  function Digits(s: string, n: nat): (d: string)
    requires n <= |s|
    ensures |d| <= n
    ensures forall i :: 0 <= i < |d| ==> !Skipped(d[i])
  {
    if n == 0 then ""
    else if Skipped(s[n - 1]) then Digits(s, n - 1)
    else Digits(s, n - 1) + [s[n - 1]]
  }

  predicate AllHex(d: string) { forall i :: 0 <= i < |d| ==> IsHexDigit(d[i]) }

  /** The byte a pair of hex digits stands for, high nibble first. */
  function Byte(hi: char, lo: char): (b: char)
    requires IsHexDigit(hi) && IsHexDigit(lo)
  {
    Chr(HexValue(hi) * 16 + HexValue(lo))
  }

  /** One byte per complete pair of digits; an odd last digit is dropped. */
  function Pairs(d: string): (r: string)
    requires AllHex(d)
    ensures |r| == |d| / 2
    decreases |d|
  {
    if |d| % 2 == 1 then Pairs(d[..|d| - 1])
    else if |d| == 0 then ""
    else Pairs(d[..|d| - 2]) + [Byte(d[|d| - 2], d[|d| - 1])]
  }

  /** The k-th byte of Pairs(d) is made of the digits 2k and 2k+1. */
  lemma {:induction false} PairsAt(d: string, k: nat)
    requires AllHex(d) && k < |d| / 2
    ensures Pairs(d)[k] == Byte(d[2 * k], d[2 * k + 1])
    decreases |d|
  {
    if |d| % 2 == 1 {
      PairsAt(d[..|d| - 1], k);
    } else if k < |d| / 2 - 1 {
      PairsAt(d[..|d| - 2], k);
    }
  }

  /** The high nibble the decoder holds after reading d: -1 before any digit. */
  function LastHigh(d: string): int
    requires AllHex(d)
  {
    if |d| == 0 then -1 else HexValue(d[2 * ((|d| - 1) / 2)])
  }

  /** What decodeAsciiHex returns for `input`. */
  function Decoded(input: string): string
  {
    match FirstIndex(input, '>')
    case None => ""
    case Some(t) =>
      var d := Digits(input, t);
      if !AllHex(d) then ""
      else Pairs(d) + (if |d| % 2 == 0 then [Chr(LastHigh(d) * 16)] else [])
  }

  /** hexdec() of one character is zero exactly for '0' and for the characters that are not hex digits. */
  lemma HexDecOne(c: char)
    ensures IsHexDigit(c) ==> HexDec([c]) == HexValue(c)
    ensures (HexDec([c]) == 0 && c != '0') <==> !IsHexDigit(c)
  {
    assert [c][..0] == "";
  }

  lemma AllHexStep(d: string, c: char)
    requires AllHex(d) && IsHexDigit(c)
    ensures AllHex(d + [c])
  {
    var e := d + [c];
    forall i | 0 <= i < |e| ensures IsHexDigit(e[i]) {
      if i < |d| { assert e[i] == d[i]; }
    }
  }

  /** A digit read after an odd number of digits completes a pair. */
  lemma PairsStepOdd(d: string, c: char)
    requires AllHex(d) && IsHexDigit(c) && |d| % 2 == 1
    ensures AllHex(d + [c]) && |d + [c]| % 2 == 0
    ensures Pairs(d + [c]) == Pairs(d) + [Byte(d[|d| - 1], c)]
    ensures LastHigh(d + [c]) == LastHigh(d) == HexValue(d[|d| - 1])
  {
    AllHexStep(d, c);
    var e := d + [c];
    assert e[..|e| - 2] == d[..|d| - 1];
    assert 2 * ((|d| - 1) / 2) == |d| - 1 == 2 * ((|e| - 1) / 2);
  }

  /** A digit read after an even number of digits only becomes the new high nibble. */
  lemma PairsStepEven(d: string, c: char)
    requires AllHex(d) && IsHexDigit(c) && |d| % 2 == 0
    ensures AllHex(d + [c]) && |d + [c]| % 2 == 1
    ensures Pairs(d + [c]) == Pairs(d)
    ensures LastHigh(d + [c]) == HexValue(c)
  {
    AllHexStep(d, c);
    var e := d + [c];
    assert e[..|e| - 1] == d;
    assert 2 * ((|e| - 1) / 2) == |d|;
  }

  /** The decoder's variables after a prefix: whether the next digit is a high nibble, the high nibble, the output. */
  datatype HexState = HexState(isOdd: bool, codeHigh: int, output: string)

  /** One character read by the loop; None when the character makes the decoder give up. */
  function Step(st: HexState, c: char): Option<HexState>
  {
    if Skipped(c) then Some(st)
    else if !IsHexDigit(c) then None
    else if st.isOdd then Some(HexState(false, HexValue(c), st.output))
    else Some(HexState(true, st.codeHigh, st.output + [Chr(st.codeHigh * 16 + HexValue(c))]))
  }

  /** The loop run over the first n characters of s. */
  function Scan(s: string, n: nat): Option<HexState>
    requires n <= |s|
  {
    if n == 0 then Some(HexState(true, -1, ""))
    else match Scan(s, n - 1)
      case None => None
      case Some(st) => Step(st, s[n - 1])
  }

  lemma {:induction false} NotAllHexStep(d: string, c: char)
    requires !AllHex(d)
    ensures !AllHex(d + [c])
  {
    var i :| 0 <= i < |d| && !IsHexDigit(d[i]);
    assert (d + [c])[i] == d[i];
  }

  /**
   * A loop state agrees with digits d when it has given up exactly if some digit is not a hex
   * digit, and otherwise holds the parity of the digit count, the last high nibble and the pairs.
   */
  predicate Agrees(st: Option<HexState>, d: string)
  {
    (st.Some? <==> AllHex(d)) &&
    (st.Some? ==> AllHex(d) && st.value == HexState(|d| % 2 == 0, LastHigh(d), Pairs(d)))
  }

  function Then(st: Option<HexState>, c: char): Option<HexState>
  {
    match st
    case None => None
    case Some(x) => Step(x, c)
  }

  lemma StepAgreesDigit(st: HexState, d: string, c: char)
    requires Agrees(Some(st), d) && IsHexDigit(c)
    ensures Agrees(Step(st, c), d + [c])
  {
    if |d| % 2 == 0 {
      PairsStepEven(d, c);
    } else {
      PairsStepOdd(d, c);
    }
  }

  /** Reading one character keeps a state in agreement with the digits read. */
  lemma StepAgrees(st: Option<HexState>, d: string, c: char)
    requires Agrees(st, d)
    ensures Agrees(Then(st, c), if Skipped(c) then d else d + [c])
  {
    if Skipped(c) {
    } else if st.None? {
      NotAllHexStep(d, c);
    } else if !IsHexDigit(c) {
      assert (d + [c])[|d|] == c;
    } else {
      StepAgreesDigit(st.value, d, c);
    }
  }

  /** The loop agrees with the declarative reading of the input. */
  lemma {:induction false} ScanDigits(s: string, n: nat)
    requires n <= |s|
    ensures Agrees(Scan(s, n), Digits(s, n))
  {
    if n > 0 {
      ScanDigits(s, n - 1);
      StepAgrees(Scan(s, n - 1), Digits(s, n - 1), s[n - 1]);
    }
  }

  /** Once the loop has given up it stays given up. */
  lemma {:induction false} ScanNoneSticks(s: string, i: nat, t: nat)
    requires i <= t <= |s| && Scan(s, i).None?
    ensures Scan(s, t).None?
    decreases t
  {
    if i < t {
      ScanNoneSticks(s, i, t - 1);
    }
  }

  /** A character that makes the loop give up before any '>' empties the result. */
  lemma GiveUpRejects(input: string, i: nat)
    requires i < |input| && forall j :: 0 <= j <= i ==> input[j] != '>'
    requires Scan(input, i + 1).None?
    ensures Decoded(input) == ""
  {
    match FirstIndex(input, '>')
    case None =>
    case Some(t) =>
      ScanNoneSticks(input, i + 1, t);
      ScanDigits(input, t);
  }

  /** decodeAsciiHex, lines 174-228. */
  method DecodeAsciiHex(input: string) returns (output: string)
    ensures output == Decoded(input)
  {
    output := "";
    var isOdd := true;
    var isComment := false;
    var codeHigh: int := -1;
    var i := 0;
    while i < |input| && input[i] != '>'
      invariant 0 <= i <= |input|
      invariant forall j :: 0 <= j < i ==> input[j] != '>'
      invariant Scan(input, i) == Some(HexState(isOdd, codeHigh, output))
    {
      var c := input[i];
      OneCharIsNoEscape(c);
      if isComment {
        if [c] == "\\r" || [c] == "\\n" {
          isComment := false;
        }
      }
      if [c] == "\\0" || [c] == "\\t" || [c] == "\\r" || [c] == "\\f" || [c] == "\\n" || c == ' ' {
      } else if c == '%' {
        isComment := true;
      } else {
        var code := HexDec([c]);
        HexDecOne(c);
        if code == 0 && c != '0' {
          GiveUpRejects(input, i);
          return "";
        }
        if isOdd {
          codeHigh := code;
        } else {
          output := output + [Chr(codeHigh * 16 + code)];
        }
        isOdd := !isOdd;
      }
      i := i + 1;
    }
    if CharAt(input, i) != ">" {
      assert FirstIndex(input, '>') == None;
      return "";
    }
    assert FirstIndex(input, '>') == Some(i);
    ScanDigits(input, i);
    if isOdd {
      output := output + [Chr(codeHigh * 16)];
    }
  }
}

module AsciiHexProperties {
  import opened Php
  import opened AsciiHex

  /** Two upper-case hex digits per byte, high nibble first: the encoding the filter expects. */
  function Hexes(b: string): (h: string)
    requires IsBytes(b)
    ensures |h| == 2 * |b| && AllHex(h)
    decreases |b|
  {
    if |b| == 0 then ""
    else
      var v := b[|b| - 1] as int;
      Hexes(b[..|b| - 1]) + [UpperHexDigit(v / 16), UpperHexDigit(v % 16)]
  }

  lemma {:induction false} DigitsNoSkip(s: string, n: nat)
    requires n <= |s| && forall j :: 0 <= j < n ==> !Skipped(s[j])
    ensures Digits(s, n) == s[..n]
  {
    if n > 0 {
      DigitsNoSkip(s, n - 1);
      assert s[..n] == s[..n - 1] + [s[n - 1]];
    }
  }

  /** The two digits of a byte decode to that byte. */
  lemma ByteOfDigits(c: char)
    requires IsByte(c)
    ensures Byte(UpperHexDigit(c as int / 16), UpperHexDigit(c as int % 16)) == c
  {
    var v := c as int;
    var hi, lo := v / 16, v % 16;
    assert HexValue(UpperHexDigit(hi)) == hi && HexValue(UpperHexDigit(lo)) == lo;
    assert hi * 16 + lo == v;
    assert Chr(v) == c;
  }

  lemma HexesStep(b: string)
    requires IsBytes(b) && |b| > 0
    ensures Hexes(b) == Hexes(b[..|b| - 1]) + [UpperHexDigit(b[|b| - 1] as int / 16), UpperHexDigit(b[|b| - 1] as int % 16)]
  {
  }

  /** The pairs of an encoding are the encoded bytes. */
  lemma {:induction false} PairsHexes(b: string)
    requires IsBytes(b)
    ensures Pairs(Hexes(b)) == b
    decreases |b|
  {
    if |b| > 0 {
      var p := b[..|b| - 1];
      var x := b[|b| - 1];
      var h := Hexes(b);
      HexesStep(b);
      PairsHexes(p);
      assert h[..|h| - 2] == Hexes(p);
      ByteOfDigits(x);
      assert Pairs(h) == Pairs(Hexes(p)) + [Byte(h[|h| - 2], h[|h| - 1])];
      assert b == p + [x];
    }
  }

  /** The last high nibble of an encoding is the last byte's high nibble. */
  lemma LastHighHexes(b: string)
    requires IsBytes(b) && |b| > 0
    ensures LastHigh(Hexes(b)) == b[|b| - 1] as int / 16
  {
    var h := Hexes(b);
    var v := b[|b| - 1] as int;
    HexesStep(b);
    assert |h| == 2 * |b|;
    assert (|h| - 1) / 2 == |b| - 1;
    assert h[|h| - 2] == UpperHexDigit(v / 16);
    assert HexValue(h[|h| - 2]) == v / 16;
  }

  lemma FirstIndexAfterHex(h: string, tail: string)
    requires AllHex(h) && |tail| > 0 && tail[0] == '>'
    ensures FirstIndex(h + tail, '>') == Some(|h|)
    ensures Digits(h + tail, |h|) == h
  {
    var s := h + tail;
    assert s[..|h|] == h;
    forall j | 0 <= j < |h| ensures h[j] != '>' {
      assert IsHexDigit(h[j]);
    }
    forall j | 0 <= j < |h| ensures !Skipped(s[j]) {
      assert s[j] == h[j] && IsHexDigit(h[j]);
    }
    DigitsNoSkip(s, |h|);
  }

  /** A run of hex digits closed by '>' decodes to its pairs, padded after an even count. */
  lemma DecodedHexRun(h: string)
    requires AllHex(h)
    ensures Decoded(h + ">") == Pairs(h) + (if |h| % 2 == 0 then [Chr(LastHigh(h) * 16)] else [])
  {
    FirstIndexAfterHex(h, ">");
  }

  /**
   * Decoding an encoding gives the bytes back followed by one more byte: after an even number of
   * digits the decoder always pads, with 16 times the last high nibble (chr(-16) when there are none).
   */
  lemma RoundTrip(b: string)
    requires IsBytes(b)
    ensures Decoded(Hexes(b) + ">") ==
      b + [Chr(if |b| == 0 then -16 else b[|b| - 1] as int / 16 * 16)]
  {
    DecodedHexRun(Hexes(b));
    PairsHexes(b);
    if |b| > 0 {
      LastHighHexes(b);
    }
  }

  /** A trailing odd digit is dropped rather than padded with '0'. */
  lemma OddDigitDropped(b: string, x: char)
    requires IsBytes(b) && IsHexDigit(x)
    ensures Decoded(Hexes(b) + [x] + ">") == b
  {
    var h := Hexes(b) + [x];
    AllHexStep(Hexes(b), x);
    DecodedHexRun(h);
    PairsHexes(b);
    assert h[..|h| - 1] == Hexes(b);
    assert Pairs(h) == b;
  }

  /** Without a closing '>' nothing is decoded. */
  lemma NoTerminator(input: string)
    requires '>' !in input
    ensures Decoded(input) == ""
  {
  }
}
