/**
 * The PHP built-ins that Pdf2text.php relies on, stated over byte strings.
 * A PHP binary string is a `string` whose characters are all below 256.
 */
module Php {

  datatype Option<+T> = None | Some(value: T)

  /** The result of a PHP call that either returns a value or raises an exception nobody catches. */
  datatype Outcome<+T> = Value(value: T) | Thrown

  predicate IsByte(c: char) { c as int < 256 }

  predicate IsBytes(s: string) { forall i :: 0 <= i < |s| ==> IsByte(s[i]) }

  /** chr($x): PHP keeps the low eight bits, so chr(-16) is "\xF0". */
  function Chr(x: int): (c: char)
    ensures IsByte(c) && c as int == x % 256
  {
    (x % 256) as char
  }

  /** chr() keeps the low byte. */
  lemma ChrLowByte(q: int, r: int)
    requires 0 <= r < 256
    ensures Chr(q * 256 + r) == r as char
  {
    DivUnique(q * 256 + r, 256, q, r);
  }

  /** $s[$i] read under a notice: one character, or "" past the end. */
  function CharAt(s: string, i: int): (r: string)
    ensures |r| <= 1
    ensures 0 <= i < |s| ==> r == [s[i]]
  {
    if 0 <= i < |s| then [s[i]] else ""
  }

  /** substr($s, $start, $len) for a start and a length that are not negative. */
  function Substr(s: string, start: nat, len: nat): (r: string)
    ensures |r| <= len
    ensures start + len <= |s| ==> r == s[start..start + len]
  {
    if start >= |s| then "" else if start + len <= |s| then s[start..start + len] else s[start..]
  }

  /** Index of the first occurrence of `c` in `s`. */
  function FirstIndex(s: string, c: char): (r: Option<nat>)
    ensures r.None? <==> c !in s
    ensures r.Some? ==> r.value < |s| && s[r.value] == c && c !in s[..r.value]
  {
    if |s| == 0 then None
    else if s[0] == c then Some(0)
    else match FirstIndex(s[1..], c)
      case None => None
      case Some(k) => assert s[1..][..k] == s[1..k + 1]; Some(k + 1)
  }

  /** The first occurrence is the one with no earlier occurrence. */
  lemma FirstIndexAt(s: string, c: char, t: nat)
    requires t < |s| && s[t] == c && forall j :: 0 <= j < t ==> s[j] != c
    ensures FirstIndex(s, c) == Some(t)
  {
    assert s[t] == c;
  }

  // ---------------------------------------------------------------------------------------------
  // Character classes

  /**
   * A single character never equals '\0', '\t', '\r', '\f' or '\n' written in single quotes, which
   * in PHP are the two-character texts backslash-letter.
   */
  lemma OneCharIsNoEscape(c: char)
    ensures [c] != "\\0" && [c] != "\\t" && [c] != "\\r" && [c] != "\\f" && [c] != "\\n"
  {
  }

  /** PCRE's \s without the u modifier: space, tab, line feed, vertical tab, form feed, return. */
  predicate IsWs(c: char) {
    c == ' ' || c == '\t' || c == '\n' || c == '\r' || c as int == 11 || c as int == 12
  }

  /** The characters trim() and ltrim() strip by default: note NUL is one and form feed is not. */
  predicate IsTrimChar(c: char) {
    c == ' ' || c == '\t' || c == '\n' || c == '\r' || c == '\0' || c as int == 11
  }

  /** ASCII lower-casing, as PCRE's /i applies it outside UTF mode. */
  function Lower(c: char): (r: char)
    ensures 'A' <= c <= 'Z' ==> r as int == c as int + 32
    ensures !('A' <= c <= 'Z') ==> r == c
  {
    if 'A' <= c <= 'Z' then (c as int + 32) as char else c
  }

  /** `kw` (written in lower case) occurs at index i of s, ignoring ASCII case. */
  predicate KeywordAt(s: string, i: nat, kw: string) {
    i + |kw| <= |s| && forall k :: 0 <= k < |kw| ==> Lower(s[i + k]) == kw[k]
  }

  predicate IsDigit(c: char) { '0' <= c <= '9' }

  predicate IsHexDigit(c: char) { '0' <= c <= '9' || 'a' <= c <= 'f' || 'A' <= c <= 'F' }

  predicate IsOctDigit(c: char) { '0' <= c <= '7' }

  function HexValue(c: char): (v: nat)
    requires IsHexDigit(c)
    ensures v < 16
  {
    if '0' <= c <= '9' then c as int - '0' as int
    else if 'a' <= c <= 'f' then c as int - 'a' as int + 10
    else c as int - 'A' as int + 10
  }

  /** The upper-case hex digit of a value below 16, as sprintf's %X writes it. */
  function UpperHexDigit(v: nat): (c: char)
    requires v < 16
    ensures IsHexDigit(c) && HexValue(c) == v
    ensures !('a' <= c <= 'f')
  {
    if v < 10 then ('0' as int + v) as char else ('A' as int + v - 10) as char
  }

  // ---------------------------------------------------------------------------------------------
  // Number conversions

  /** hexdec(): the hex digits of s read in order; every other character is ignored. */
  function HexDec(s: string): (v: nat)
    decreases |s|
  {
    if |s| == 0 then 0
    else if IsHexDigit(s[|s| - 1]) then HexDec(s[..|s| - 1]) * 16 + HexValue(s[|s| - 1])
    else HexDec(s[..|s| - 1])
  }

  /** octdec(): the octal digits of s read in order; every other character is ignored. */
  function OctDec(s: string): (v: nat)
    decreases |s|
  {
    if |s| == 0 then 0
    else if IsOctDigit(s[|s| - 1]) then OctDec(s[..|s| - 1]) * 8 + (s[|s| - 1] as int - '0' as int)
    else OctDec(s[..|s| - 1])
  }

  /** The value of a run of decimal digits, as PHP reads a numeric string. */
  function DecValue(s: string): (v: nat)
    requires forall i :: 0 <= i < |s| ==> IsDigit(s[i])
    decreases |s|
  {
    if |s| == 0 then 0
    else
      assert IsDigit(s[|s| - 1]);
      DecValue(s[..|s| - 1]) * 10 + (s[|s| - 1] as int - '0' as int)
  }

  /** PHP's conversion of a non-negative int to its decimal string. */
  function DecString(n: nat): (s: string)
    ensures 1 <= |s| && forall i :: 0 <= i < |s| ==> IsDigit(s[i])
    decreases n
  {
    if n < 10 then [('0' as int + n) as char] else DecString(n / 10) + [('0' as int + n % 10) as char]
  }

  /** pow($b, $e) for an int base and a non-negative int exponent, which PHP computes as an int. */
  function Pow(b: int, e: nat): (r: int)
    ensures b > 0 ==> r > 0
  {
    if e == 0 then 1 else b * Pow(b, e - 1)
  }

  lemma {:induction false} PowAdd(b: int, m: nat, n: nat)
    ensures Pow(b, m + n) == Pow(b, m) * Pow(b, n)
  {
    if m > 0 {
      PowAdd(b, m - 1, n);
      assert Pow(b, m + n) == b * Pow(b, m - 1 + n);
      MulAssoc(b, Pow(b, m - 1), Pow(b, n));
    }
  }

  lemma MulAssoc(a: int, b: int, c: int)
    ensures a * (b * c) == (a * b) * c
  {
  }

  /** The powers of two that shifts by whole bytes divide by. */
  lemma Pow2Bytes()
    ensures Pow(2, 8) == 0x100 && Pow(2, 16) == 0x1_0000 && Pow(2, 24) == 0x100_0000
  {
    assert Pow(2, 8) == 0x100;
    PowAdd(2, 8, 8);
    PowAdd(2, 16, 8);
  }

  /** $x >> $n: an arithmetic shift right, one halving (rounded down) per bit. */
  function Shr(x: int, n: nat): int
  {
    if n == 0 then x else Shr(x, n - 1) / 2
  }

  /** Shifting right by n bits is floor division by 2^n. */
  lemma {:induction false} ShrDiv(x: int, n: nat)
    ensures Shr(x, n) == x / Pow(2, n)
  {
    if n > 0 {
      ShrDiv(x, n - 1);
      DivDiv(x, Pow(2, n - 1), 2);
    }
  }

  /** Dividing by a and then by b is dividing by a * b. */
  lemma DivDiv(x: int, a: int, b: int)
    requires a > 0 && b > 0
    ensures x / a / b == x / (a * b)
  {
    var q, r := x / a, x % a;
    var q2, r2 := q / b, q % b;
    MulSplit(a, b, q2, r2);
    MulBelow(a, r2, b);
    DivUnique(x, a * b, q2, a * r2 + r);
  }

  lemma MulSplit(a: int, b: int, q2: int, r2: int)
    ensures a * (b * q2 + r2) == (a * b) * q2 + a * r2
  {
  }

  lemma MulBelow(a: int, r2: int, b: int)
    requires a > 0 && 0 <= r2 < b
    ensures 0 <= a * r2 <= a * b - a
  {
    assert a * b - a == a * (b - 1);
  }

  /** The quotient of Euclidean division by a positive divisor is the only q leaving a remainder in [0, d). */
  lemma DivUnique(x: int, d: int, q: int, r: int)
    requires d > 0 && x == d * q + r && 0 <= r < d
    ensures x / d == q
  {
    var q0, r0 := x / d, x % d;
    assert x == d * q0 + r0;
    if q0 < q {
      MulAtLeast(d, q - q0);
    } else if q0 > q {
      MulAtLeast(d, q0 - q);
    }
  }

  lemma MulAtLeast(d: int, k: int)
    requires d > 0 && k >= 1
    ensures d * k >= d
  {
  }

  /** The shortest upper-case hex numeral of n. */
  function UpperHex(n: nat): (s: string)
    ensures 1 <= |s| && forall i :: 0 <= i < |s| ==> IsHexDigit(s[i])
    decreases n
  {
    if n < 16 then [UpperHexDigit(n)] else UpperHex(n / 16) + [UpperHexDigit(n % 16)]
  }

  /** sprintf("%04X", $n): upper-case hex, left-padded with zeros to at least four digits. */
  function Hex4(n: nat): (s: string)
    ensures |s| >= 4 && forall i :: 0 <= i < |s| ==> IsHexDigit(s[i]) && !('a' <= s[i] <= 'f')
    ensures n < 0x10000 ==> |s| == 4
  {
    UpperHexLength(n);
    var h := UpperHex(n);
    UpperHexUpper(n);
    if |h| < 4 then Repeat('0', 4 - |h|) + h else h
  }

  lemma {:induction false} UpperHexUpper(n: nat)
    ensures forall i :: 0 <= i < |UpperHex(n)| ==> !('a' <= UpperHex(n)[i] <= 'f')
    decreases n
  {
    if n >= 16 { UpperHexUpper(n / 16); }
  }

  lemma {:induction false} UpperHexLength(n: nat)
    ensures n < 0x10 ==> |UpperHex(n)| <= 1
    ensures n < 0x100 ==> |UpperHex(n)| <= 2
    ensures n < 0x1000 ==> |UpperHex(n)| <= 3
    ensures n < 0x10000 ==> |UpperHex(n)| <= 4
    decreases n
  {
    if n >= 16 { UpperHexLength(n / 16); }
  }

  function Repeat(c: char, n: nat): (s: string)
    ensures |s| == n && forall i :: 0 <= i < n ==> s[i] == c
  {
    seq(n, _ => c)
  }

  /** hexdec() of n characters is below 16 to the n. */
  lemma {:induction false} HexDecBelow(s: string)
    ensures HexDec(s) < Pow(16, |s|)
    decreases |s|
  {
    if |s| > 0 {
      var n := |s| - 1;
      HexDecBelow(s[..n]);
      assert HexDec(s) <= HexDec(s[..n]) * 16 + 15;
    }
  }

  /** hexdec() of four characters fits in sixteen bits. */
  lemma HexDecFour(s: string)
    requires |s| == 4
    ensures HexDec(s) < 0x10000
  {
    HexDecBelow(s);
    assert Pow(16, 4) == 0x10000;
  }

  /** The zeros that only lengthen a numeral leave its hexdec() value alone. */
  lemma {:induction false} HexDecLeadingZeros(n: nat, s: string)
    ensures HexDec(Repeat('0', n) + s) == HexDec(s)
    decreases |s|
  {
    if |s| == 0 {
      ZerosHexDec(n);
      assert Repeat('0', n) + s == Repeat('0', n);
    } else {
      var z := Repeat('0', n);
      assert (z + s)[..|z + s| - 1] == z + s[..|s| - 1];
      HexDecLeadingZeros(n, s[..|s| - 1]);
    }
  }

  lemma {:induction false} ZerosHexDec(n: nat)
    ensures HexDec(Repeat('0', n)) == 0
  {
    if n > 0 {
      assert Repeat('0', n)[..n - 1] == Repeat('0', n - 1);
      ZerosHexDec(n - 1);
    }
  }

  lemma {:induction false} HexDecUpperHex(n: nat)
    ensures HexDec(UpperHex(n)) == n
    decreases n
  {
    if n >= 16 {
      var h := UpperHex(n);
      assert h[..|h| - 1] == UpperHex(n / 16);
      HexDecUpperHex(n / 16);
    } else {
      assert UpperHex(n)[..0] == "";
    }
  }

  /** sprintf("%04X") and hexdec() are inverse: the cmap table's keys and values can be read back. */
  lemma HexDecHex4(n: nat)
    ensures HexDec(Hex4(n)) == n
  {
    HexDecUpperHex(n);
    var h := UpperHex(n);
    if |h| < 4 { HexDecLeadingZeros(4 - |h|, h); }
  }

  // ---------------------------------------------------------------------------------------------
  // String functions

  /** str_pad($s, $n, '0'): pads on the RIGHT (the default STR_PAD_RIGHT). */
  function StrPadRight(s: string, n: nat, pad: char): (r: string)
    ensures |s| >= n ==> r == s
    ensures |s| < n ==> |r| == n && r[..|s|] == s && forall i :: |s| <= i < n ==> r[i] == pad
  {
    if |s| >= n then s else s + Repeat(pad, n - |s|)
  }

  /** str_split($s, $w) as PHP 8.2 has it: chunks of w characters, the last one shorter; "" gives none. */
  function StrSplit(s: string, w: nat): (r: seq<string>)
    requires w > 0
    ensures forall k :: 0 <= k < |r| ==> 1 <= |r[k]| <= w
    ensures forall k :: 0 <= k < |r| - 1 ==> |r[k]| == w
    ensures Concat(r) == s
    decreases |s|
  {
    if |s| == 0 then []
    else if |s| <= w then [s]
    else [s[..w]] + StrSplit(s[w..], w)
  }

  function Concat(ss: seq<string>): (r: string)
    decreases |ss|
  {
    if |ss| == 0 then "" else ss[0] + Concat(ss[1..])
  }

  lemma {:induction false} ConcatAppend(a: seq<string>, b: seq<string>)
    ensures Concat(a + b) == Concat(a) + Concat(b)
    decreases |a|
  {
    if |a| == 0 {
      assert a + b == b;
    } else {
      assert (a + b)[1..] == a[1..] + b;
      ConcatAppend(a[1..], b);
    }
  }

  /** ltrim(): drops the leading characters of IsTrimChar. */
  function LTrim(s: string): (r: string)
    ensures |r| <= |s| && r == s[|s| - |r|..]
    ensures forall i :: 0 <= i < |s| - |r| ==> IsTrimChar(s[i])
    ensures |r| > 0 ==> !IsTrimChar(r[0])
    decreases |s|
  {
    if |s| > 0 && IsTrimChar(s[0]) then LTrim(s[1..]) else s
  }

  /** rtrim(): drops the trailing characters of IsTrimChar. */
  function RTrim(s: string): (r: string)
    ensures |r| <= |s| && r == s[..|r|]
    ensures forall i :: |r| <= i < |s| ==> IsTrimChar(s[i])
    ensures |r| > 0 ==> !IsTrimChar(r[|r| - 1])
    decreases |s|
  {
    if |s| > 0 && IsTrimChar(s[|s| - 1]) then RTrim(s[..|s| - 1]) else s
  }

  /** trim() */
  function Trim(s: string): (r: string)
    ensures |r| <= |s|
    ensures |r| > 0 ==> !IsTrimChar(r[0]) && !IsTrimChar(r[|r| - 1])
  {
    RTrim(LTrim(s))
  }

  /** Length of the run of \s characters that starts at index i. */
  function WsRun(s: string, i: nat): (n: nat)
    ensures i + n <= |s| || (i > |s| && n == 0)
    ensures forall k :: i <= k < i + n ==> IsWs(s[k])
    ensures i + n < |s| ==> !IsWs(s[i + n])
    decreases |s| - i
  {
    if i < |s| && IsWs(s[i]) then 1 + WsRun(s, i + 1) else 0
  }

  /** The characters of s that are not \s, in order. */
  function NoWs(s: string): (r: string)
    ensures forall i :: 0 <= i < |r| ==> !IsWs(r[i])
    decreases |s|
  {
    if |s| == 0 then "" else (if IsWs(s[0]) then "" else [s[0]]) + NoWs(s[1..])
  }

  /** The number of runs of \s in s; prevWs says whether the character before s was one. */
  function WsRuns(s: string, prevWs: bool): nat
    decreases |s|
  {
    if |s| == 0 then 0 else (if IsWs(s[0]) && !prevWs then 1 else 0) + WsRuns(s[1..], IsWs(s[0]))
  }

  /** Inside a run of \s that ends at n, the rest of the run adds no text and no new run. */
  lemma {:induction false} SkipWsRun(s: string, k: nat, n: nat)
    requires 1 <= k <= n <= |s| && (forall i :: 0 <= i < n ==> IsWs(s[i])) && (n < |s| ==> !IsWs(s[n]))
    ensures NoWs(s[k..]) == NoWs(s[n..]) && WsRuns(s[k..], true) == WsRuns(s[n..], false)
    decreases n - k
  {
    if k < n {
      assert s[k..][1..] == s[k + 1..];
      SkipWsRun(s, k + 1, n);
    } else if n < |s| {
      assert s[n..][1..] == s[n + 1..];
    }
  }

  /** preg_replace("#\s+#", ' ', $s): every run of \s becomes one space. */
  function CollapseWs(s: string): (r: string)
    ensures |r| <= |s|
    ensures forall i :: 0 <= i < |r| ==> !IsWs(r[i]) || r[i] == ' '
    ensures forall i :: 0 <= i < |r| - 1 ==> !(r[i] == ' ' && r[i + 1] == ' ')
    ensures |r| > 0 && |s| > 0 ==> (r[0] == ' ' <==> IsWs(s[0]))
    decreases |s|
  {
    if |s| == 0 then ""
    else if IsWs(s[0]) then
      var n := WsRun(s, 0);
      var rest := CollapseWs(s[n..]);
      assert |rest| > 0 ==> rest[0] != ' ' by {
        if |rest| > 0 { assert !IsWs(s[n..][0]); }
      }
      " " + rest
    else
      var rest := CollapseWs(s[1..]);
      [s[0]] + rest
  }

  /** Collapsing keeps every other character, in order, and leaves one space for each run of \s. */
  lemma {:induction false} CollapseWsKeepsText(s: string)
    ensures NoWs(CollapseWs(s)) == NoWs(s)
    ensures multiset(CollapseWs(s))[' '] == WsRuns(s, false)
    decreases |s|
  {
    if |s| > 0 {
      if IsWs(s[0]) {
        var n := WsRun(s, 0);
        CollapseWsKeepsText(s[n..]);
        SkipWsRun(s, 1, n);
        NoWsCons(' ', CollapseWs(s[n..]));
      } else {
        CollapseWsKeepsText(s[1..]);
        NoWsCons(s[0], CollapseWs(s[1..]));
      }
    }
  }

  lemma NoWsCons(c: char, s: string)
    ensures NoWs([c] + s) == (if IsWs(c) then "" else [c]) + NoWs(s)
    ensures WsRuns([c] + s, false) == (if IsWs(c) then 1 else 0) + WsRuns(s, IsWs(c))
    ensures multiset([c] + s)[' '] == (if c == ' ' then 1 else 0) + multiset(s)[' ']
  {
    assert ([c] + s)[1..] == s;
  }

  /** explode($d, $s): the pieces between the occurrences of d. */
  function Explode(d: char, s: string): (r: seq<string>)
    ensures |r| >= 1 && (d in s ==> |r| >= 2)
    ensures forall k :: 0 <= k < |r| ==> d !in r[k]
    decreases |s|
  {
    match FirstIndex(s, d)
    case None => [s]
    case Some(i) => [s[..i]] + Explode(d, s[i + 1..])
  }

  /** implode($d, $pieces) */
  function Join(d: char, pieces: seq<string>): string
    requires |pieces| >= 1
    decreases |pieces|
  {
    if |pieces| == 1 then pieces[0] else pieces[0] + [d] + Join(d, pieces[1..])
  }

  /** explode() loses nothing: joining the pieces back gives the input. */
  lemma {:induction false} JoinExplode(d: char, s: string)
    ensures Join(d, Explode(d, s)) == s
    decreases |s|
  {
    match FirstIndex(s, d)
    case None =>
    case Some(i) =>
      JoinExplode(d, s[i + 1..]);
      assert Explode(d, s)[1..] == Explode(d, s[i + 1..]);
      assert s == s[..i] + [d] + s[i + 1..];
  }

  /** preg_split("#\s+#", $s): the pieces between the runs of \s. */
  function SplitWs(s: string): (r: seq<string>)
    ensures |r| >= 1
    ensures forall k :: 0 <= k < |r| ==> forall i :: 0 <= i < |r[k]| ==> !IsWs(r[k][i])
    decreases |s|
  {
    if forall i :: 0 <= i < |s| ==> !IsWs(s[i]) then [s]
    else
      var i := FirstWs(s);
      var n := WsRun(s, i);
      [s[..i]] + SplitWs(s[i + n..])
  }

  /** Index of the first \s character of s. */
  function FirstWs(s: string): (i: nat)
    requires exists i :: 0 <= i < |s| && IsWs(s[i])
    ensures i < |s| && IsWs(s[i]) && forall k :: 0 <= k < i ==> !IsWs(s[k])
    decreases |s|
  {
    if IsWs(s[0]) then 0
    else
      var k :| 0 <= k < |s| && IsWs(s[k]);
      assert IsWs(s[1..][k - 1]);
      1 + FirstWs(s[1..])
  }
}
