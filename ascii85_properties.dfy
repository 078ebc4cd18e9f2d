/**
 * What the ASCII85 decoder of Pdf2text computes, stated against an encoder: complete groups and
 * a final partial group come back exactly (unless a last byte is the character '0'), and the
 * inputs where the code departs from ISO 32000-1, section 7.4.3.
 */
module Ascii85Properties {
  import opened Php
  import opened Ascii85

  // ---------------------------------------------------------------------------------------------
  // The main loop over a piece of input

  /** The main loop run over w, starting from st. */
  function Run(st: Option<A85State>, w: string): (r: Option<A85State>)
    requires st.Some? ==> st.value.Valid()
    ensures r.Some? ==> r.value.Valid()
    decreases |w|
  {
    if |w| == 0 then st
    else match Run(st, w[..|w| - 1])
      case None => None
      case Some(x) => Step(x, w[|w| - 1])
  }

  lemma {:induction false} ScanRun(s: string, n: nat)
    requires n <= |s|
    ensures Scan(s, n) == Run(Some(Start), s[..n])
  {
    if n > 0 {
      ScanRun(s, n - 1);
      assert s[..n][..n - 1] == s[..n - 1];
    }
  }

  /** Running over a + b is running over a, then over b. */
  lemma {:induction false} RunAppend(st: Option<A85State>, a: string, b: string)
    requires st.Some? ==> st.value.Valid()
    ensures Run(st, a + b) == Run(Run(st, a), b)
    decreases |b|
  {
    if |b| == 0 {
      assert a + b == a;
    } else {
      assert (a + b)[..|a + b| - 1] == a + b[..|b| - 1];
      RunAppend(st, a, b[..|b| - 1]);
    }
  }

  lemma RunOne(st: Option<A85State>, c: char)
    requires st.Some? ==> st.value.Valid()
    ensures Run(st, [c]) == if st.None? then None else Step(st.value, c)
  {
    assert [c][..0] == "";
  }

  // ---------------------------------------------------------------------------------------------
  // Arithmetic of groups

  lemma {:induction false} Times85PowShift(x: int, e: nat)
    ensures Times85Pow(x, e + 1) == Times85Pow(x * 85, e)
  {
    if e > 0 {
      Times85PowShift(x, e - 1);
    }
  }

  lemma {:induction false} Times85PowAdd(x: int, y: int, e: nat)
    ensures Times85Pow(x, e) + Times85Pow(y, e) == Times85Pow(x + y, e)
  {
    if e > 0 {
      Times85PowAdd(x, y, e - 1);
    }
  }

  lemma HornerSnoc(ords: seq<int>, d: int)
    ensures Horner(ords + [d]) == Horner(ords) * 85 + d
  {
    assert (ords + [d])[..|ords|] == ords;
  }

  /** Before the last digit, the tail sum is the value so far scaled to its place. */
  lemma {:induction false} TailSumPrefix(ords: seq<int>, n: nat, k: nat)
    requires k < n <= |ords| <= 5
    ensures TailSum(ords, n, k) == Times85Pow(Horner(ords[..k]), 5 - k)
  {
    if k > 0 {
      TailSumPrefix(ords, n, k - 1);
      Times85PowShift(Horner(ords[..k - 1]), 4 - (k - 1));
      Times85PowAdd(Horner(ords[..k - 1]) * 85, ords[k - 1], 4 - (k - 1));
      assert ords[..k] == ords[..k - 1] + [ords[k - 1]];
      HornerSnoc(ords[..k - 1], ords[k - 1]);
    }
  }

  /**
   * The completion of a final partial group of n digits: their value plus one, scaled by 85^(5-n).
   * Padding with 'u' digits, as the standard does, gives this value minus one.
   */
  lemma TailSumClosed(ords: seq<int>, n: nat)
    requires 1 <= n <= |ords| <= 5
    ensures TailSum(ords, n, n) == Times85Pow(Horner(ords[..n]) + 1, 5 - n)
    ensures TailSum(ords, n, n) == Horner(ords[..n] + UPad(5 - n)) + 1
  {
    TailSumScaled(ords, n);
    HornerUPad(ords[..n], 5 - n);
  }

  lemma TailSumScaled(ords: seq<int>, n: nat)
    requires 1 <= n <= |ords| <= 5
    ensures TailSum(ords, n, n) == Times85Pow(Horner(ords[..n]) + 1, 5 - n)
  {
    var h := Horner(ords[..n - 1]);
    var d := ords[n - 1] + 1;
    TailSumPrefix(ords, n, n - 1);
    TailSumLast(ords, n);
    Times85PowShift(h, 5 - n);
    Times85PowAdd(h * 85, d, 5 - n);
    HornerLast(ords[..n]);
    assert ords[..n][..n - 1] == ords[..n - 1];
  }

  lemma TailSumLast(ords: seq<int>, n: nat)
    requires 1 <= n <= |ords| <= 5
    ensures TailSum(ords, n, n) == TailSum(ords, n, n - 1) + Times85Pow(ords[n - 1] + 1, 5 - n)
  {
  }

  lemma HornerLast(ords: seq<int>)
    requires |ords| > 0
    ensures Horner(ords) == Horner(ords[..|ords| - 1]) * 85 + ords[|ords| - 1]
  {
  }

  /** m digits 'u', the largest digit (84). */
  function UPad(m: nat): (r: seq<int>)
    ensures |r| == m && forall i :: 0 <= i < m ==> r[i] == 84
  {
    seq(m, _ => 84)
  }

  lemma {:induction false} HornerUPad(ords: seq<int>, m: nat)
    ensures Horner(ords + UPad(m)) + 1 == Times85Pow(Horner(ords) + 1, m)
  {
    if m > 0 {
      HornerUPad(ords, m - 1);
      assert UPad(m) == UPad(m - 1) + [84];
      assert ords + UPad(m) == (ords + UPad(m - 1)) + [84];
      HornerSnoc(ords + UPad(m - 1), 84);
      var t := Times85Pow(Horner(ords) + 1, m - 1);
      assert Horner(ords + UPad(m)) == (t - 1) * 85 + 84;
    } else {
      assert ords + UPad(m) == ords;
    }
  }

  // ---------------------------------------------------------------------------------------------
  // An encoder for whole groups

  /** The value of four bytes, most significant first. */
  function Value32(g: string): (v: nat)
    requires |g| == 4 && IsBytes(g)
    ensures v < 0x1_0000_0000
  {
    g[0] as int * 0x100_0000 + g[1] as int * 0x1_0000 + g[2] as int * 0x100 + g[3] as int
  }

  /** The n base-85 digits of v, most significant first. */
  function Base85(v: nat, n: nat): (ds: seq<int>)
    ensures |ds| == n && forall i :: 0 <= i < n ==> 0 <= ds[i] < 85
  {
    if n == 0 then [] else Base85(v / 85, n - 1) + [v % 85]
  }

  /** The digits of a group as characters, '!' standing for 0 and 'u' for 84. */
  function DigitChars(ds: seq<int>): (s: string)
    requires forall i :: 0 <= i < |ds| ==> 0 <= ds[i] < 85
    ensures |s| == |ds| && forall i :: 0 <= i < |ds| ==> s[i] as int == ds[i] + 33
  {
    seq(|ds|, i requires 0 <= i < |ds| => (ds[i] + 33) as char)
  }

  /** A group of four bytes: 'z' when all are zero, five digits otherwise. */
  function EncodeGroup(g: string): (s: string)
    requires |g| == 4 && IsBytes(g)
    ensures forall i :: 0 <= i < |s| ==> '!' <= s[i] <= 'z'
  {
    if Value32(g) == 0 then "z" else DigitChars(Base85(Value32(g), 5))
  }

  /** Whole groups of four bytes, one after the other. */
  function Encode(b: string): (s: string)
    requires |b| % 4 == 0 && IsBytes(b)
    ensures forall i :: 0 <= i < |s| ==> '!' <= s[i] <= 'z'
    decreases |b|
  {
    if |b| == 0 then "" else Encode(b[..|b| - 4]) + EncodeGroup(b[|b| - 4..])
  }

  lemma {:induction false} HornerBase85(v: nat, n: nat)
    requires v < Pow(85, n)
    ensures Horner(Base85(v, n)) == v
  {
    if n > 0 {
      assert v / 85 < Pow(85, n - 1);
      HornerBase85(v / 85, n - 1);
      HornerSnoc(Base85(v / 85, n - 1), v % 85);
    }
  }

  /** The bytes of a group's value are the group. */
  lemma GroupBytesValue32(g: string)
    requires |g| == 4 && IsBytes(g)
    ensures GroupBytes(Value32(g)) == g
  {
    ByteAt0(g);
    ByteAt1(g);
    ByteAt2(g);
    ByteAt3(g);
  }

  lemma ByteAt0(g: string)
    requires |g| == 4 && IsBytes(g)
    ensures ByteAt(Value32(g), 0) == g[0]
  {
    var v := Value32(g);
    ShrDiv(v, 24);
    Pow2Bytes();
    DivUnique(v, 0x100_0000, g[0] as int, g[1] as int * 0x1_0000 + g[2] as int * 0x100 + g[3] as int);
    ChrLowByte(0, g[0] as int);
  }

  lemma ByteAt1(g: string)
    requires |g| == 4 && IsBytes(g)
    ensures ByteAt(Value32(g), 1) == g[1]
  {
    var v := Value32(g);
    ShrDiv(v, 16);
    Pow2Bytes();
    DivUnique(v, 0x1_0000, g[0] as int * 0x100 + g[1] as int, g[2] as int * 0x100 + g[3] as int);
    ChrLowByte(g[0] as int, g[1] as int);
  }

  lemma ByteAt2(g: string)
    requires |g| == 4 && IsBytes(g)
    ensures ByteAt(Value32(g), 2) == g[2]
  {
    var v := Value32(g);
    ShrDiv(v, 8);
    Pow2Bytes();
    DivUnique(v, 0x100, g[0] as int * 0x1_0000 + g[1] as int * 0x100 + g[2] as int, g[3] as int);
    ChrLowByte(g[0] as int * 0x100 + g[1] as int, g[2] as int);
  }

  lemma ByteAt3(g: string)
    requires |g| == 4 && IsBytes(g)
    ensures ByteAt(Value32(g), 3) == g[3]
  {
    assert Shr(Value32(g), 0) == Value32(g);
    ChrLowByte(g[0] as int * 0x1_0000 + g[1] as int * 0x100 + g[2] as int, g[3] as int);
  }

  // ---------------------------------------------------------------------------------------------
  // Decoding whole groups

  /** A digit character outside a comment is stored at position `state` of the group. */
  lemma StepDigit(st: A85State, c: char, d: int)
    requires st.Valid() && !st.isComment && c as int == d + 33 && 0 <= d < 85 && d != 4
    ensures var ords := SetAt(st.ords, st.state, d);
      Step(st, c) ==
        if st.state + 1 == 5 then Some(st.(output := st.output + GroupBytes(Horner(ords)), ords := ords, state := 0))
        else Some(st.(ords := ords, state := st.state + 1))
  {
    assert c != ' ' && c != '%' && c != 'z' && '!' <= c <= 'u';
    assert c as int % 256 - '!' as int == d;
  }

  /** The ords array once the first k digits of ds have been written over an empty array or a whole earlier group. */
  function Written(ords: seq<int>, ds: seq<int>, k: nat): (w: seq<int>)
    requires k <= |ds| == 5 && (|ords| == 0 || |ords| == 5)
    ensures |w| == if |ords| == 0 then k else 5
  {
    if |ords| == 0 then ds[..k] else ds[..k] + ords[k..]
  }

  /** Five digits, none of the first k of them the comment character's digit 4. */
  predicate DigitsBefore(ds: seq<int>, k: nat)
  {
    |ds| == 5 && (forall i :: 0 <= i < 5 ==> 0 <= ds[i] < 85) && forall i :: 0 <= i < k <= 5 ==> ds[i] != 4
  }

  predicate GroupDigits(ds: seq<int>)
  {
    DigitsBefore(ds, 5)
  }

  lemma {:induction false} RunDigits(out: string, ords: seq<int>, ds: seq<int>, k: nat)
    requires DigitsBefore(ds, k) && (|ords| == 0 || |ords| == 5) && k <= 4
    ensures Run(Some(A85State(out, ords, 0, false)), DigitChars(ds)[..k]) ==
      Some(A85State(out, Written(ords, ds, k), k, false))
  {
    var cs := DigitChars(ds);
    if k == 0 {
      assert cs[..0] == "";
      assert Written(ords, ds, 0) == ords;
    } else {
      RunDigits(out, ords, ds, k - 1);
      RunPrefix(Some(A85State(out, ords, 0, false)), cs, k);
      var w := Written(ords, ds, k - 1);
      StepDigit(A85State(out, w, k - 1, false), cs[k - 1], ds[k - 1]);
      WrittenStep(ords, ds, k);
    }
  }

  /** Running over the first k characters is running over the first k - 1, then one step. */
  lemma RunPrefix(st: Option<A85State>, w: string, k: nat)
    requires st.Some? ==> st.value.Valid()
    requires 0 < k <= |w|
    ensures Run(st, w[..k]) == match Run(st, w[..k - 1]) case None => None case Some(x) => Step(x, w[k - 1])
  {
    assert w[..k][..k - 1] == w[..k - 1];
  }

  lemma WrittenStep(ords: seq<int>, ds: seq<int>, k: nat)
    requires 0 < k <= |ds| == 5 && (|ords| == 0 || |ords| == 5)
    ensures SetAt(Written(ords, ds, k - 1), k - 1, ds[k - 1]) == Written(ords, ds, k)
  {
    var w := Written(ords, ds, k - 1);
    var r := SetAt(w, k - 1, ds[k - 1]);
    assert |r| == |Written(ords, ds, k)|;
    forall i | 0 <= i < |r| ensures r[i] == Written(ords, ds, k)[i] {
      if i < k - 1 {
        assert r[i] == w[i];
      }
    }
  }

  /** Five digits read at the start of a group give the four bytes of their value. */
  lemma RunGroupDigits(out: string, ords: seq<int>, ds: seq<int>)
    requires GroupDigits(ds) && (|ords| == 0 || |ords| == 5)
    ensures Run(Some(A85State(out, ords, 0, false)), DigitChars(ds)) ==
      Some(A85State(out + GroupBytes(Horner(ds)), ds, 0, false))
  {
    var cs := DigitChars(ds);
    RunDigits(out, ords, ds, 4);
    assert cs[..5] == cs;
    var w := Written(ords, ds, 4);
    StepDigit(A85State(out, w, 4, false), cs[4], ds[4]);
    assert SetAt(w, 4, ds[4]) == ds;
  }

  /** The ords array after a group: 'z' leaves it alone, five digits overwrite it. */
  function AfterGroup(ords: seq<int>, g: string): (r: seq<int>)
    requires |g| == 4 && IsBytes(g) && (|ords| == 0 || |ords| == 5)
    ensures |r| == 0 || |r| == 5
  {
    if Value32(g) == 0 then ords else Base85(Value32(g), 5)
  }

  /** An encoded group without a '%' decodes to the group. */
  lemma RunGroup(out: string, ords: seq<int>, g: string)
    requires |g| == 4 && IsBytes(g) && (|ords| == 0 || |ords| == 5) && '%' !in EncodeGroup(g)
    ensures Run(Some(A85State(out, ords, 0, false)), EncodeGroup(g)) ==
      Some(A85State(out + g, AfterGroup(ords, g), 0, false))
  {
    var v := Value32(g);
    RunOne(Some(A85State(out, ords, 0, false)), 'z');
    if v == 0 {
      assert g == FourZeros;
    } else {
      var ds := Base85(v, 5);
      var cs := DigitChars(ds);
      forall i | 0 <= i < 5 ensures ds[i] != 4 {
        assert cs[i] in EncodeGroup(g);
      }
      RunGroupDigits(out, ords, ds);
      assert Pow(85, 5) == 4437053125;
      HornerBase85(v, 5);
      GroupBytesValue32(g);
    }
  }

  /** An encoding without a '%' decodes to the bytes it encodes, whatever the ords array held before. */
  lemma {:induction false} RunEncode(out: string, ords: seq<int>, b: string) returns (after: seq<int>)
    requires |b| % 4 == 0 && IsBytes(b) && (|ords| == 0 || |ords| == 5) && '%' !in Encode(b)
    ensures |after| == 0 || |after| == 5
    ensures Run(Some(A85State(out, ords, 0, false)), Encode(b)) == Some(A85State(out + b, after, 0, false))
    decreases |b|, 1
  {
    if |b| == 0 {
      after := ords;
      assert Encode(b) == "" && out + b == out;
    } else {
      after := RunEncodeStep(out, ords, b);
    }
  }

  /** The groups before the last, then the last one. */
  lemma RunEncodeStep(out: string, ords: seq<int>, b: string) returns (after: seq<int>)
    requires |b| % 4 == 0 && |b| > 0 && IsBytes(b) && (|ords| == 0 || |ords| == 5) && '%' !in Encode(b)
    ensures |after| == 0 || |after| == 5
    ensures Run(Some(A85State(out, ords, 0, false)), Encode(b)) == Some(A85State(out + b, after, 0, false))
    decreases |b|, 0
  {
    var p, g := EncodeSplit(b);
    var mid := RunEncode(out, ords, p);
    after := RunEncodeLast(out, ords, p, g, mid);
    AppendAssoc(out, p, g);
  }

  lemma AppendAssoc(a: string, b: string, c: string)
    ensures a + b + c == a + (b + c)
  {
  }

  /** One more group after the ones already decoded. */
  lemma RunEncodeLast(out: string, ords: seq<int>, p: string, g: string, mid: seq<int>) returns (after: seq<int>)
    requires |p| % 4 == 0 && IsBytes(p) && |g| == 4 && IsBytes(g) && '%' !in EncodeGroup(g)
    requires (|ords| == 0 || |ords| == 5) && (|mid| == 0 || |mid| == 5)
    requires Run(Some(A85State(out, ords, 0, false)), Encode(p)) == Some(A85State(out + p, mid, 0, false))
    ensures |after| == 0 || |after| == 5
    ensures Run(Some(A85State(out, ords, 0, false)), Encode(p) + EncodeGroup(g)) == Some(A85State(out + p + g, after, 0, false))
  {
    RunAppend(Some(A85State(out, ords, 0, false)), Encode(p), EncodeGroup(g));
    RunGroup(out + p, mid, g);
    after := AfterGroup(mid, g);
  }

  /** The last group of a non-empty encoding, and everything before it. */
  lemma EncodeSplit(b: string) returns (p: string, g: string)
    requires |b| % 4 == 0 && |b| > 0 && IsBytes(b)
    ensures |p| % 4 == 0 && IsBytes(p) && |g| == 4 && IsBytes(g) && b == p + g
    ensures Encode(b) == Encode(p) + EncodeGroup(g)
    ensures '%' !in Encode(b) ==> '%' !in Encode(p) && '%' !in EncodeGroup(g)
  {
    p, g := b[..|b| - 4], b[|b| - 4..];
    forall i | 0 <= i < |p| ensures IsByte(p[i]) { assert p[i] == b[i]; }
    forall i | 0 <= i < |g| ensures IsByte(g[i]) { assert g[i] == b[|b| - 4 + i]; }
  }

  /**
   * Whole groups round-trip: decoding the encoding of b, closed by "~>", gives b back, provided
   * no digit of the encoding is '%' (the digit of value 4, which the decoder takes for a comment).
   */
  lemma RoundTrip(b: string)
    requires |b| % 4 == 0 && IsBytes(b) && '%' !in Encode(b)
    ensures Decoded(Encode(b) + "~>") == Value(b)
  {
    var e := Encode(b);
    var input := e + "~>";
    FirstIndexAt(input, '~', |e|);
    ScanRun(input, |e|);
    assert input[..|e|] == e;
    var after := RunEncode("", [], b);
    assert "" + b == b;
  }

  // ---------------------------------------------------------------------------------------------
  // A final partial group

  /** One to three bytes filled up to a group of four with zero bytes. */
  function PadGroup(t: string): (g: string)
    requires |t| <= 4 && IsBytes(t)
    ensures |g| == 4 && IsBytes(g) && g[..|t|] == t && forall i :: |t| <= i < 4 ==> g[i] == 0 as char
  {
    t + seq(4 - |t|, _ => 0 as char)
  }

  /** A final partial group of n bytes: the first n + 1 digits of the group padded with zero bytes. */
  function EncodeTail(t: string): (s: string)
    requires 1 <= |t| <= 3 && IsBytes(t)
    ensures |s| == |t| + 1 && forall i :: 0 <= i < |s| ==> '!' <= s[i] <= 'u'
  {
    DigitChars(Base85(Value32(PadGroup(t)), 5))[..|t| + 1]
  }

  /**
   * A final partial group comes back too: whole groups followed by the encoding of one to three
   * more bytes, closed by "~>", decode to all the bytes, unless one of the last bytes is the
   * character '0', which makes the decoder throw.
   */
  lemma PartialRoundTrip(b: string, t: string)
    requires |b| % 4 == 0 && IsBytes(b) && 1 <= |t| <= 3 && IsBytes(t) && '%' !in Encode(b) + EncodeTail(t)
    ensures Decoded(Encode(b) + EncodeTail(t) + "~>") == if '0' in t then Thrown else Value(b + t)
  {
    var e, tail := Encode(b), EncodeTail(t);
    forall i | 0 <= i < |e + tail| ensures (e + tail)[i] != '~' {
      if i >= |e| {
        assert (e + tail)[i] == tail[i - |e|];
      }
    }
    DecodedBody(e + tail);
    var w := RunTail(b, t);
    FinishTail(b, t, w);
  }

  /** Whole groups, then the digits of a partial group: the bytes so far and |t| + 1 digits waiting. */
  lemma RunTail(b: string, t: string) returns (w: seq<int>)
    requires |b| % 4 == 0 && IsBytes(b) && 1 <= |t| <= 3 && IsBytes(t) && '%' !in Encode(b) + EncodeTail(t)
    ensures |t| + 1 <= |w| <= 5 && w[..|t| + 1] == Base85(Value32(PadGroup(t)), 5)[..|t| + 1]
    ensures Run(Some(Start), Encode(b) + EncodeTail(t)) == Some(A85State(b, w, |t| + 1, false))
  {
    var e, tail, m := Encode(b), EncodeTail(t), |t|;
    assert '%' !in e by {
      forall i | 0 <= i < |e| ensures e[i] != '%' {
        assert (e + tail)[i] == e[i];
      }
    }
    RunAppend(Some(Start), e, tail);
    var after := RunEncode("", [], b);
    assert "" + b == b;
    var ds := Base85(Value32(PadGroup(t)), 5);
    forall i | 0 <= i < m + 1 ensures ds[i] != 4 {
      assert (e + tail)[|e| + i] == tail[i];
    }
    RunDigits(b, after, ds, m + 1);
    w := Written(after, ds, m + 1);
  }

  lemma FinishTail(b: string, t: string, w: seq<int>)
    requires 1 <= |t| <= 3 && IsBytes(t)
    requires |t| + 1 <= |w| <= 5 && w[..|t| + 1] == Base85(Value32(PadGroup(t)), 5)[..|t| + 1]
    ensures Finish(A85State(b, w, |t| + 1, false)) == if '0' in t then Thrown else Value(b + t)
  {
    var g := PadGroup(t);
    TailSumClosed(w, |t| + 1);
    PaddedLowZero(t);
    GroupTailBytes(g, |t|);
    assert g[..|t|] == t;
  }

  /**
   * The completion of the first m + 1 digits of a group whose last 4 - m bytes are zero lies above
   * the group's value by at most 85^(4-m), less than 256^(4-m): its first m bytes are the group's.
   */
  lemma GroupTailBytes(g: string, m: nat)
    requires |g| == 4 && IsBytes(g) && 1 <= m <= 3 && Value32(g) % Pow(2, 8 * (4 - m)) == 0
    ensures GroupBytes(Times85Pow(Horner(Base85(Value32(g), 5)[..m + 1]) + 1, 4 - m))[..m] == g[..m]
  {
    var v, e := Value32(g), 4 - m;
    var q := v / Pow(85, e);
    DigitsKept(v, e);
    assert Horner(Base85(v, 5)[..m + 1]) == q;
    CompletionAbove(v, e);
    Pow85Below(e);
    GroupBytesNear(g, m, Times85Pow(q + 1, e));
  }

  /** The first 5 - e digits of a group's value are the digits of the value divided by 85^e. */
  lemma DigitsKept(v: nat, e: nat)
    requires 1 <= e <= 3 && v < 0x1_0000_0000
    ensures Horner(Base85(v, 5)[..5 - e]) == v / Pow(85, e)
  {
    var d := Pow(85, e);
    Base85Prefix(v, 5 - e, e);
    PowAdd(85, 5 - e, e);
    assert Pow(85, 5) == 4437053125;
    DivBelow(v, d, Pow(85, 5 - e));
    HornerBase85(v / d, 5 - e);
  }

  /** Rounding a value up past its last e base-85 digits adds between 1 and 85^e. */
  lemma CompletionAbove(v: nat, e: nat)
    ensures v < Times85Pow(v / Pow(85, e) + 1, e) <= v + Pow(85, e)
  {
    var d, q := Pow(85, e), v / Pow(85, e);
    MulPow85(q + 1, e);
    assert (q + 1) * d == q * d + d;
  }

  lemma Pow85Below(e: nat)
    requires 1 <= e <= 3
    ensures Pow(85, e) < Pow(2, 8 * e)
  {
    Pow2Bytes();
    assert Pow(85, 1) == 85 && Pow(85, 2) == 7225 && Pow(85, 3) == 614125;
  }

  /** A value at most 2^(8(4-m)) above a group whose last 4 - m bytes are zero has the group's first m bytes. */
  lemma GroupBytesNear(g: string, m: nat, s: int)
    requires |g| == 4 && IsBytes(g) && 1 <= m <= 3
    requires Value32(g) % Pow(2, 8 * (4 - m)) == 0 && Value32(g) <= s < Value32(g) + Pow(2, 8 * (4 - m))
    ensures GroupBytes(s)[..m] == g[..m]
  {
    var v := Value32(g);
    GroupBytesValue32(g);
    forall i | 0 <= i < m ensures GroupBytes(s)[i] == g[i] {
      SameHighBits(v, s, 8 * (4 - m), (3 - i) * 8);
      assert GroupBytes(v)[i] == g[i];
    }
  }

  lemma {:induction false} Base85Prefix(v: nat, k: nat, e: nat)
    ensures Base85(v, k + e)[..k] == Base85(v / Pow(85, e), k)
    decreases e
  {
    if e > 0 {
      Base85Prefix(v / 85, k, e - 1);
      DivDiv(v, 85, Pow(85, e - 1));
      assert Base85(v, k + e)[..k] == Base85(v / 85, k + e - 1)[..k];
    }
  }

  lemma DivBelow(x: int, p: int, q: int)
    requires p > 0 && 0 <= x < p * q
    ensures x / p < q
  {
    var r := x / p;
    assert p * r <= x;
    assert p * (q - r) == p * q - p * r;
  }

  /** The padding bytes are zero: the value is a multiple of 2^(8(4-n)). */
  lemma PaddedLowZero(t: string)
    requires 1 <= |t| <= 3 && IsBytes(t)
    ensures Value32(PadGroup(t)) % Pow(2, 8 * (4 - |t|)) == 0
  {
    var g := PadGroup(t);
    Pow2Bytes();
    if |t| == 1 {
      DivUnique(Value32(g), 0x100_0000, g[0] as int, 0);
    } else if |t| == 2 {
      DivUnique(Value32(g), 0x1_0000, g[0] as int * 0x100 + g[1] as int, 0);
    } else {
      DivUnique(Value32(g), 0x100, g[0] as int * 0x1_0000 + g[1] as int * 0x100 + g[2] as int, 0);
    }
  }

  /** Adding less than 2^a to a multiple of 2^a leaves every bit from a up as it was. */
  lemma SameHighBits(v: int, s: int, a: nat, n: nat)
    requires a <= n && v >= 0 && v % Pow(2, a) == 0 && v <= s < v + Pow(2, a)
    ensures Shr(s, n) == Shr(v, n)
  {
    var p := Pow(2, a);
    DivUnique(s, p, v / p, s - v);
    PowAdd(2, a, n - a);
    DivDiv(s, p, Pow(2, n - a));
    DivDiv(v, p, Pow(2, n - a));
    ShrDiv(s, n);
    ShrDiv(v, n);
  }

  // ---------------------------------------------------------------------------------------------
  // Where the decoder parts from the standard

  /** Once a comment has started, nothing the main loop reads changes its state. */
  lemma {:induction false} CommentSticks(st: A85State, w: string)
    requires st.Valid() && st.isComment
    ensures Run(Some(st), w) == Some(st)
    decreases |w|
  {
    if |w| > 0 {
      CommentSticks(st, w[..|w| - 1]);
    }
  }

  /** Decoding a body closed by "~>" is running the main loop over the body, then finishing. */
  lemma DecodedBody(body: string)
    requires '~' !in body
    ensures Decoded(body + "~>") == match Run(Some(Start), body) case None => Value("") case Some(st) => Finish(st)
  {
    var input := body + "~>";
    forall j | 0 <= j < |body| ensures input[j] != '~' {
      assert input[j] == body[j];
    }
    FirstIndexAt(input, '~', |body|);
    ScanRun(input, |body|);
    assert input[..|body|] == body;
  }

  /** A value below 256 has three zero bytes before its last one. */
  lemma SmallValueBytes(v: nat)
    requires v < 256
    ensures GroupBytes(v)[..3] == [0 as char, 0 as char, 0 as char]
  {
    Pow2Bytes();
    ShrDiv(v, 24);
    ShrDiv(v, 16);
    ShrDiv(v, 8);
  }

  /** From the start, the ords array holds the digits of the current group, or a whole group. */
  lemma {:induction false} RunShape(w: string)
    ensures match Run(Some(Start), w) case None => true case Some(st) => |st.ords| == 5 || |st.ords| == st.state
    decreases |w|
  {
    if |w| > 0 {
      RunShape(w[..|w| - 1]);
    }
  }

  lemma {:induction false} RunNoneSticks(w: string)
    ensures Run(None, w) == None
    decreases |w|
  {
    if |w| > 0 {
      RunNoneSticks(w[..|w| - 1]);
    }
  }

  /** Running over pre + [c] + rest is running over pre, then c, then rest. */
  lemma RunSplit(pre: string, c: char, rest: string)
    ensures Run(Some(Start), pre + [c] + rest) == Run(Run(Run(Some(Start), pre), [c]), rest)
  {
    RunAppend(Some(Start), pre + [c], rest);
    RunAppend(Some(Start), pre, [c]);
  }

  /**
   * A '%' outside a comment starts one that lasts until '~': line ends do not close it, and
   * what follows it is never decoded.
   */
  lemma CommentRunsToEnd(pre: string, st: A85State, rest: string)
    requires '~' !in pre && '~' !in rest && Run(Some(Start), pre) == Some(st) && !st.isComment
    ensures Decoded(pre + ['%'] + rest + "~>") == Finish(st)
  {
    DecodedBody(pre + ['%'] + rest);
    RunSplit(pre, '%', rest);
    RunOne(Some(st), '%');
    CommentSticks(st.(isComment := true), rest);
  }

  /**
   * A character below '!' other than ' ' (a line feed, a carriage return, a tab), or one above
   * 'u' other than 'z' and '~', makes the decoder give up and return '' outside a comment.
   */
  lemma ControlCharRejected(pre: string, st: A85State, c: char, rest: string)
    requires '~' !in pre && '~' !in rest && Run(Some(Start), pre) == Some(st) && !st.isComment
    requires c != ' ' && c != '~' && (c < '!' || (c > 'u' && c != 'z'))
    ensures Decoded(pre + [c] + rest + "~>") == Value("")
  {
    DecodedBody(pre + [c] + rest);
    RunSplit(pre, c, rest);
    assert Step(st, c).None?;
    RunOne(Some(st), c);
    assert Run(Run(Some(Start), pre), [c]) == None;
    RunNoneSticks(rest);
  }

  /** Between groups, 'z' stands for four zero bytes and decoding goes on after it. */
  lemma ZeroGroupShortcut(pre: string, st: A85State, rest: string)
    requires '~' !in pre && '~' !in rest && Run(Some(Start), pre) == Some(st) && st.state == 0 && !st.isComment
    ensures Decoded(pre + ['z'] + rest + "~>") ==
      match Run(Some(st.(output := st.output + FourZeros)), rest)
      case None => Value("")
      case Some(s) => Finish(s)
  {
    DecodedBody(pre + ['z'] + rest);
    RunSplit(pre, 'z', rest);
    RunOne(Some(st), 'z');
  }

  /** Inside a group, 'z' is above 'u': the decoder gives up and returns ''. */
  lemma ZeroInsideGroupRejected(pre: string, st: A85State, rest: string)
    requires '~' !in pre && '~' !in rest && Run(Some(Start), pre) == Some(st) && st.state > 0 && !st.isComment
    ensures Decoded(pre + ['z'] + rest + "~>") == Value("")
  {
    DecodedBody(pre + ['z'] + rest);
    RunSplit(pre, 'z', rest);
    RunOne(Some(st), 'z');
    RunNoneSticks(rest);
  }

  /** A final group of a single digit makes the result '', whatever was decoded before it. */
  lemma SingleDigitTailDiscards(pre: string, st: A85State, c: char)
    requires '~' !in pre && Run(Some(Start), pre) == Some(st) && st.state == 0 && !st.isComment
    requires '!' <= c <= 'u' && c != '%'
    ensures Decoded(pre + [c] + "~>") == Value("")
  {
    DecodedBody(pre + [c]);
    RunAppend(Some(Start), pre, [c]);
    RunOne(Some(st), c);
    assert Step(st, c).Some? && Step(st, c).value.state == 1;
  }

  /** A final group "0E" decodes to the byte '0', which makes the decoder throw. */
  lemma ZeroCharTailThrows(pre: string, st: A85State)
    requires '~' !in pre && Run(Some(Start), pre) == Some(st) && st.state == 0 && !st.isComment
    ensures Decoded(pre + ['0', 'E'] + "~>") == Thrown
  {
    DecodedBody(pre + ['0', 'E']);
    RunAppend(Some(Start), pre, ['0', 'E']);
    assert ['0'] + ['E'] == ['0', 'E'];
    RunAppend(Some(st), ['0'], ['E']);
    RunOne(Some(st), '0');
    StepDigit(st, '0', 15);
    var st1 := st.(ords := SetAt(st.ords, 0, 15), state := 1);
    RunOne(Some(st1), 'E');
    StepDigit(st1, 'E', 36);
    ZeroCharTail(st.output, SetAt(st1.ords, 1, 36));
  }

  lemma ZeroCharTail(out: string, ords: seq<int>)
    requires 2 <= |ords| <= 5 && ords[0] == 15 && ords[1] == 36
    ensures Finish(A85State(out, ords, 2, false)) == Thrown
  {
    assert TailSum(ords, 2, 1) == Times85Pow(15, 4) == 783009375;
    assert TailSum(ords, 2, 2) == 783009375 + Times85Pow(37, 3) == 805732000;
    Pow2Bytes();
    ShrDiv(805732000, 24);
    assert GroupBytes(805732000)[..1] == ['0'];
  }

  const PercentGroup: string := [0 as char, 0 as char, 0 as char, 4 as char]

  /** The bytes 00 00 00 04 encode to "!!!!%": their last digit is the comment character. */
  lemma PercentDigitEncoding()
    ensures EncodeGroup(PercentGroup) == DigitChars([0, 0, 0, 0, 4]) == "!!!!%"
  {
    assert Value32(PercentGroup) == 4;
    Base85Four();
    var s := DigitChars([0, 0, 0, 0, 4]);
    assert |s| == 5;
    assert s == "!!!!%";
  }

  lemma Base85Four()
    ensures Base85(4, 5) == [0, 0, 0, 0, 4]
  {
    assert Base85(0, 0) == [];
    assert Base85(0, 1) == [0];
    assert Base85(0, 2) == [0, 0];
    assert Base85(0, 3) == [0, 0, 0];
    assert Base85(0, 4) == [0, 0, 0, 0];
    assert 4 / 85 == 0 && 4 % 85 == 4;
    assert Base85(4, 5) == Base85(0, 4) + [4];
  }

  /**
   * The encoding of 00 00 00 04 decodes to three zero bytes: the '%' cuts the group short and
   * the four digits before it are finished as a partial group.
   */
  lemma PercentDigitCutsGroup(pre: string, st: A85State)
    requires '~' !in pre && Run(Some(Start), pre) == Some(st) && st.state == 0 && !st.isComment
    ensures Decoded(pre + EncodeGroup(PercentGroup) + "~>") == Value(st.output + [0 as char, 0 as char, 0 as char])
  {
    var cs := EncodeGroup(PercentGroup);
    DecodedBody(pre + cs);
    RunAppend(Some(Start), pre, cs);
    RunShape(pre);
    var w := RunPercentGroup(st);
    PercentTail(st.output, w);
  }

  /** The digits "!!!!" go into the ords array, then '%' starts a comment. */
  lemma RunPercentGroup(st: A85State) returns (w: seq<int>)
    requires st.Valid() && st.state == 0 && !st.isComment && (|st.ords| == 0 || |st.ords| == 5)
    ensures 4 <= |w| <= 5 && w[0] == w[1] == w[2] == w[3] == 0
    ensures Run(Some(st), EncodeGroup(PercentGroup)) == Some(A85State(st.output, w, 4, true))
  {
    var ds := [0, 0, 0, 0, 4];
    var cs := DigitChars(ds);
    PercentDigitEncoding();
    RunDigits(st.output, st.ords, ds, 4);
    assert cs == cs[..4] + [cs[4]];
    RunAppend(Some(st), cs[..4], [cs[4]]);
    w := Written(st.ords, ds, 4);
    RunOne(Some(A85State(st.output, w, 4, false)), cs[4]);
  }

  lemma PercentTail(out: string, w: seq<int>)
    requires 4 <= |w| <= 5 && w[0] == w[1] == w[2] == w[3] == 0
    ensures Finish(A85State(out, w, 4, true)) == Value(out + [0 as char, 0 as char, 0 as char])
  {
    Times85PowZero(4);
    Times85PowZero(3);
    Times85PowZero(2);
    assert TailSum(w, 4, 1) == 0;
    assert TailSum(w, 4, 2) == 0;
    assert TailSum(w, 4, 3) == 0;
    assert TailSum(w, 4, 4) == 85;
    SmallValueBytes(85);
  }

  lemma {:induction false} Times85PowZero(e: nat)
    ensures Times85Pow(0, e) == 0
  {
    if e > 0 {
      Times85PowZero(e - 1);
    }
  }
}
