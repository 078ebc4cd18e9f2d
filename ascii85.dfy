/**
 * The ASCII85Decode filter as Pdf2text::decodeAscii85 implements it (ISO 32000-1, section 7.4.3,
 * describes the filter; the code departs from it in the ways stated below).
 *
 * - As in decodeAsciiHex, '\r', '\n', '\t', '\f' and '\0' are written in single quotes and are two
 *   characters long in PHP, so only ' ' is skipped, and a '%' comment, once started, is never
 *   ended: every character after it up to '~' is ignored.
 * - '%' is also the digit of value 4, so a group holding that digit is cut short.
 * - A final partial group of n digits (2 to 4) is completed as the sum of (digit + 1 for the last
 *   digit) * 85^(4 - i), one more than the value the standard's padding with 'u' gives.
 * - A final partial group of one digit discards everything decoded so far.
 * - A byte of a final partial group that is the character '0' is falsy in PHP, and the exception
 *   raised for it is not caught (the catch names Exception inside the Pdf2text namespace, a class
 *   that does not exist), so decoding ends in an uncaught exception.
 */
module Ascii85 {
  import opened Php

  /**
   * The decoder's variables between two characters. `ords` is the PHP array the digits of a group
   * are stored in and `state` the number stored in the current group; entries from an earlier
   * group stay in the array past `state`.
   */
  datatype A85State = A85State(output: string, ords: seq<int>, state: nat, isComment: bool)
  {
    predicate Valid() { state < 5 && state <= |ords| <= 5 }
  }

  const Start := A85State("", [], 0, false)

  /** The value of a group of digits, most significant first, as the decoder's Horner loop sums it. */
  function Horner(ords: seq<int>): int
  {
    if |ords| == 0 then 0 else Horner(ords[..|ords| - 1]) * 85 + ords[|ords| - 1]
  }

  /** The k-th byte (most significant first) of a four-byte value: chr($sum >> ((3 - k) * 8)). */
  function ByteAt(sum: int, k: nat): (c: char)
    requires k < 4
    ensures IsByte(c)
  {
    Chr(Shr(sum, (3 - k) * 8))
  }

  /** The four bytes a complete group stands for. */
  function GroupBytes(sum: int): (r: string)
    ensures |r| == 4
  {
    [ByteAt(sum, 0), ByteAt(sum, 1), ByteAt(sum, 2), ByteAt(sum, 3)]
  }

  const FourZeros: string := [0 as char, 0 as char, 0 as char, 0 as char]

  /** $a[$k] = $v on a PHP list of at least k entries: overwrites entry k, or appends when k is its length. */
  function SetAt(a: seq<int>, k: nat, v: int): (r: seq<int>)
    requires k <= |a|
    ensures |r| == if k < |a| then |a| else k + 1
    ensures r[..k] == a[..k] && r[k] == v
  {
    if k < |a| then a[k := v] else a + [v]
  }

  /** One character read by the main loop; None when the decoder gives up and returns ''. */
  function Step(st: A85State, c: char): (r: Option<A85State>)
    requires st.Valid()
    ensures r.Some? ==> r.value.Valid()
  {
    if st.isComment then Some(st)
    else if c == ' ' then Some(st)
    else if c == '%' then Some(st.(isComment := true))
    else if c == 'z' && st.state == 0 then Some(st.(output := st.output + FourZeros))
    else if c < '!' || c > 'u' then None
    else
      var ords := SetAt(st.ords, st.state, c as int % 256 - '!' as int);
      if st.state + 1 == 5 then Some(st.(output := st.output + GroupBytes(Horner(ords)), ords := ords, state := 0))
      else Some(st.(ords := ords, state := st.state + 1))
  }

  /** The main loop run over the first n characters of s. */
  function Scan(s: string, n: nat): (r: Option<A85State>)
    requires n <= |s|
    ensures r.Some? ==> r.value.Valid()
  {
    if n == 0 then Some(Start)
    else match Scan(s, n - 1)
      case None => None
      case Some(st) => Step(st, s[n - 1])
  }

  /**
   * The tail sum after i of the n digits of a final partial group: each digit, plus one for the
   * last, times 85^(4 - position).
   */
  function TailSum(ords: seq<int>, n: nat, i: nat): int
    requires i <= n <= |ords| <= 5
  {
    if i == 0 then 0
    else TailSum(ords, n, i - 1) + Times85Pow(ords[i - 1] + (if i - 1 == n - 1 then 1 else 0), 4 - (i - 1))
  }

  /** x * 85^e, as e multiplications by 85. */
  function Times85Pow(x: int, e: nat): int
  {
    if e == 0 then x else Times85Pow(x, e - 1) * 85
  }

  lemma {:induction false} MulPow85(x: int, e: nat)
    ensures x * Pow(85, e) == Times85Pow(x, e)
  {
    if e > 0 {
      MulPow85(x, e - 1);
      assert x * Pow(85, e) == x * Pow(85, e - 1) * 85;
    }
  }

  /** What the decoder does once the loop has stopped at '~' or at the end of the input. */
  function Finish(st: A85State): Outcome<string>
    requires st.Valid()
  {
    var n := st.state;
    if n == 1 then Value("")
    else if n > 1 then
      var tail := GroupBytes(TailSum(st.ords, n, n))[..n - 1];
      if '0' in tail then Thrown else Value(st.output + tail)
    else Value(st.output)
  }

  /** The characters the main loop reads: everything before the first '~'. */
  function BodyLength(input: string): (t: nat)
    ensures t <= |input|
  {
    match FirstIndex(input, '~')
    case None => |input|
    case Some(t) => t
  }

  /** What decodeAscii85 returns for `input`, or Thrown when it raises an exception. */
  function Decoded(input: string): Outcome<string>
  {
    match Scan(input, BodyLength(input))
    case None => Value("")
    case Some(st) => Finish(st)
  }

  /** The loop of lines 282-284: the value of a complete group. */
  method GroupSum(ords: seq<int>) returns (sum: int)
    requires |ords| == 5
    ensures sum == Horner(ords)
  {
    sum := 0;
    var j := 0;
    while j < 5
      invariant 0 <= j <= 5
      invariant sum == Horner(ords[..j])
    {
      assert ords[..j + 1][..j] == ords[..j];
      sum := sum * 85 + ords[j];
      j := j + 1;
    }
    assert ords[..5] == ords;
  }

  /** The loop of lines 285-287: the four bytes of a complete group, most significant first. */
  method AppendGroup(output: string, sum: int) returns (out: string)
    ensures out == output + GroupBytes(sum)
  {
    out := output;
    var j := 3;
    while j >= 0
      invariant -1 <= j <= 3
      invariant out == output + GroupBytes(sum)[..3 - j]
    {
      assert GroupBytes(sum)[..4 - j] == GroupBytes(sum)[..3 - j] + [ByteAt(sum, 3 - j)];
      out := out + [Chr(Shr(sum, j * 8))];
      j := j - 1;
    }
    assert GroupBytes(sum)[..4] == GroupBytes(sum);
  }

  /** Lines 291-307: a final partial group of 2 to 4 digits. */
  method AppendTail(output: string, ords: seq<int>, state: nat) returns (r: Outcome<string>)
    requires 1 < state < 5 && state <= |ords| <= 5
    ensures r == Finish(A85State(output, ords, state, false))
  {
    var sum := 0;
    var i := 0;
    while i < state
      invariant 0 <= i <= state
      invariant sum == TailSum(ords, state, i)
    {
      MulPow85(ords[i] + (if i == state - 1 then 1 else 0), 4 - i);
      sum := sum + (ords[i] + (if i == state - 1 then 1 else 0)) * Pow(85, 4 - i);
      i := i + 1;
    }
    ghost var tail := GroupBytes(sum)[..state - 1];
    var out := output;
    i := 0;
    while i < state - 1
      invariant 0 <= i <= state - 1
      invariant out == output + tail[..i]
      invariant '0' !in tail[..i]
    {
      var o := Chr(Shr(sum, (3 - i) * 8));
      assert o == tail[i];
      if o == '0' {
        return Thrown;
      }
      assert tail[..i + 1] == tail[..i] + [o];
      out := out + [o];
      i := i + 1;
    }
    assert tail[..state - 1] == tail;
    return Value(out);
  }

  /** decodeAscii85, lines 236-310. */
  method DecodeAscii85(input: string) returns (r: Outcome<string>)
    ensures r == Decoded(input)
  {
    var output := "";
    var isComment := false;
    var ords: seq<int> := [];
    var state := 0;
    var i := 0;
    while i < |input| && input[i] != '~'
      invariant i <= BodyLength(input)
      invariant Scan(input, i) == Some(A85State(output, ords, state, isComment))
    {
      var c := input[i];
      BodyLengthStep(input, i);
      OneCharIsNoEscape(c);
      if isComment {
        if [c] == "\\r" || [c] == "\\n" {
          isComment := false;
        }
      } else if [c] == "\\0" || [c] == "\\t" || [c] == "\\r" || [c] == "\\f" || [c] == "\\n" || c == ' ' {
      } else if c == '%' {
        isComment := true;
      } else if c == 'z' && state == 0 {
        output := output + FourZeros;
      } else if c < '!' || c > 'u' {
        GiveUpRejects(input, i);
        return Value("");
      } else {
        var code := c as int % 256;
        ords := SetAt(ords, state, code - '!' as int);
        state := state + 1;
        if state == 5 {
          state := 0;
          var sum := GroupSum(ords);
          output := AppendGroup(output, sum);
        }
      }
      i := i + 1;
    }
    BodyLengthStep(input, i);
    if state == 1 {
      return Value("");
    } else if state > 1 {
      r := AppendTail(output, ords, state);
      return;
    }
    return Value(output);
  }

  /** The main loop goes on past i exactly when input[i] exists and is not '~'. */
  lemma BodyLengthStep(input: string, i: nat)
    requires i <= BodyLength(input)
    ensures i < BodyLength(input) <==> i < |input| && input[i] != '~'
  {
    match FirstIndex(input, '~')
    case None =>
    case Some(t) =>
      if i < t {
        assert input[..t][i] == input[i];
      }
  }

  /** Once the loop has given up it stays given up. */
  lemma {:induction false} ScanNoneSticks(s: string, i: nat, t: nat)
    requires i <= t <= |s| && Scan(s, i).None?
    ensures Scan(s, t).None?
    decreases t
  {
    if i < t {
      ScanNoneSticks(s, i, t - 1);
    }
  }

  /** A character that makes the loop give up before any '~' makes the result ''. */
  lemma GiveUpRejects(input: string, i: nat)
    requires i < BodyLength(input)
    requires Scan(input, i).Some? && Step(Scan(input, i).value, input[i]).None?
    ensures Decoded(input) == Value("")
  {
    assert Scan(input, i + 1).None?;
    ScanNoneSticks(input, i + 1, BodyLength(input));
  }
}
