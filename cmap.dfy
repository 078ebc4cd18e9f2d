/**
 * getCharTransformations (Pdf2text.php lines 427-473): the character maps of a stream. Every
 * "N beginbfchar ... endbfchar" block and then every "N beginbfrange ... endbfrange" block is
 * read line by line, at most N lines; each line that matches one of the line patterns writes
 * entries of the transformation table, a later write to a key replacing an earlier one.
 *
 * The line patterns have no U flag, so their quantifiers are greedy; as each hex-digit run is
 * followed by '>' and each white-space run by '<', a run matches whole or not at all, and a line
 * pattern matches at a position in at most one way. preg_match takes the leftmost position.
 */
module CMap {
  import opened Php
  import opened Scanner

  /** One entry written to the table: key, value. */
  type Write = (string, string)

  /** Length of the run of hex digits that starts at index i. */
  function HexRun(s: string, i: nat): (n: nat)
    ensures i + n <= |s| || (i > |s| && n == 0)
    decreases |s| - i
  {
    if i < |s| && IsHexDigit(s[i]) then 1 + HexRun(s, i + 1) else 0
  }

  /**
   * "<" hex{lo,hi} ">" at index i: the digits, and the index after the '>'.
   */
  function HexCode(s: string, i: nat, lo: nat, hi: nat): (r: Option<(string, nat)>)
    ensures r.Some? ==> i + 2 + lo <= r.value.1 <= |s| && |r.value.0| + i + 2 == r.value.1
    ensures r.Some? ==> lo <= |r.value.0| <= hi
  {
    if i < |s| && s[i] == '<' then
      var n := HexRun(s, i + 1);
      if lo <= n <= hi && i + 1 + n < |s| && s[i + 1 + n] == '>' then Some((s[i + 1..i + 1 + n], i + 2 + n))
      else None
    else None
  }

  /** <([0-9a-f]{2,4})>\s+<([0-9a-f]{4,512})> at index p. */
  function CharPairAt(s: string, p: nat): (r: Option<seq<string>>)
    ensures r.Some? ==> |r.value| == 2 && 2 <= |r.value[0]| <= 4 && 4 <= |r.value[1]| <= 512
  {
    match HexCode(s, p, 2, 4)
    case None => None
    case Some((a, q)) =>
      var w := WsRun(s, q);
      if w == 0 then None
      else match HexCode(s, q + w, 4, 512)
        case None => None
        case Some((b, _)) => Some([a, b])
  }

  /** <([0-9a-f]{4})>\s+<([0-9a-f]{4})>\s+<([0-9a-f]{4})> at index p. */
  function RangeTripleAt(s: string, p: nat): (r: Option<seq<string>>)
    ensures r.Some? ==> |r.value| == 3 && |r.value[0]| == 4 && |r.value[1]| == 4 && |r.value[2]| == 4
  {
    match HexCode(s, p, 4, 4)
    case None => None
    case Some((a, q)) =>
      var w := WsRun(s, q);
      if w == 0 then None
      else match HexCode(s, q + w, 4, 4)
        case None => None
        case Some((b, q2)) =>
          var w2 := WsRun(s, q2);
          if w2 == 0 then None
          else match HexCode(s, q2 + w2, 4, 4)
            case None => None
            case Some((c, _)) => Some([a, b, c])
  }

  /** <([0-9a-f]{4})>\s+<([0-9a-f]{4})>\s+\[(.*)\] at index p, flags ismU: the body ends at the first ']'. */
  function RangeArrayAt(s: string, p: nat): (r: Option<seq<string>>)
    ensures r.Some? ==> |r.value| == 3 && |r.value[0]| == 4 && |r.value[1]| == 4 && ']' !in r.value[2]
  {
    match HexCode(s, p, 4, 4)
    case None => None
    case Some((a, q)) =>
      var w := WsRun(s, q);
      if w == 0 then None
      else match HexCode(s, q + w, 4, 4)
        case None => None
        case Some((b, q2)) =>
          var w2 := WsRun(s, q2);
          var r := q2 + w2;
          if w2 == 0 || r >= |s| || s[r] != '[' then None
          else match FirstIndex(s[r + 1..], ']')
            case None => None
            case Some(k) => Some([a, b, s[r + 1..r + 1 + k]])
  }

  /** preg_match: the leftmost index from p on where the line pattern matches. */
  function Leftmost(at: (string, nat) -> Option<seq<string>>, s: string, p: nat): (r: Option<nat>)
    ensures r.Some? ==> p <= r.value < |s| && at(s, r.value).Some?
    ensures r.Some? ==> forall q :: p <= q < r.value ==> at(s, q).None?
    ensures r.None? ==> forall q :: p <= q < |s| ==> at(s, q).None?
    decreases |s| - p
  {
    if p >= |s| then None
    else if at(s, p).Some? then Some(p)
    else Leftmost(at, s, p + 1)
  }

  // ---------------------------------------------------------------------------------------------
  // The entries each kind of line writes

  /** A bfchar line: the source code, padded on the right with '0' to four digits, maps to the destination. */
  function CharLine(line: string): seq<Write>
  {
    match Leftmost(CharPairAt, line, 0)
    case None => []
    case Some(p) =>
      var g := CharPairAt(line, p).value;
      [(StrPadRight(g[0], 4, '0'), g[1])]
  }

  /** The codes from..to, each mapped to the next destination from dst on (lines 453-456). */
  function OffsetWrites(from: int, last: int, dst: int): seq<Write>
    requires from >= 0 && dst >= 0
    decreases if last < from then 0 else last - from + 1
  {
    if from > last then [] else [(Hex4(from), Hex4(dst))] + OffsetWrites(from + 1, last, dst + 1)
  }

  /** The codes from on, each mapped to the next value of the array, while both last (lines 463-468). */
  function ArrayWrites(from: int, last: int, parts: seq<string>): seq<Write>
    requires from >= 0
    decreases |parts|
  {
    if from > last || |parts| == 0 then []
    else [(Hex4(from), Hex4(HexDec(parts[0])))] + ArrayWrites(from + 1, last, parts[1..])
  }

  function Min(a: int, b: int): int { if a < b then a else b }

  /** A bfrange line: the three-code form, else the array form, else nothing. */
  function RangeLine(line: string): seq<Write>
  {
    match Leftmost(RangeTripleAt, line, 0)
    case Some(p) =>
      var g := RangeTripleAt(line, p).value;
      OffsetWrites(HexDec(g[0]), HexDec(g[1]), HexDec(g[2]))
    case None =>
      match Leftmost(RangeArrayAt, line, 0)
      case None => []
      case Some(p) =>
        var g := RangeArrayAt(line, p).value;
        ArrayWrites(HexDec(g[0]), HexDec(g[1]), SplitWs(Trim(g[2])))
  }

  /** Which block a line belongs to. */
  datatype BlockKind = Chars | Ranges

  function LineWrites(kind: BlockKind, line: string): seq<Write>
  {
    match kind
    case Chars => CharLine(line)
    case Ranges => RangeLine(line)
  }

  /** The table after the writes, in order. */
  function ApplyWrites(t: map<string, string>, w: seq<Write>): map<string, string>
    decreases |w|
  {
    if |w| == 0 then t else ApplyWrites(t[w[0].0 := w[0].1], w[1..])
  }

  /** The table after lines k to n - 1 of a block, each line trimmed. */
  function ApplyLines(t: map<string, string>, kind: BlockKind, lines: seq<string>, k: nat, n: nat): map<string, string>
    decreases n - k
  {
    if k >= n || k >= |lines| then t else ApplyLines(ApplyWrites(t, LineWrites(kind, Trim(lines[k]))), kind, lines, k + 1, n)
  }

  /** The lines a block reads: at most as many as its count says. */
  function LinesRead(count: nat, lines: seq<string>): (n: nat)
    ensures n <= |lines| && n <= count
    ensures n == count || n == |lines|
  {
    Min(count, |lines|)
  }

  /** The lines of a block's body. */
  function BlockLines(m: Match): seq<string>
  {
    Explode('\n', Trim(m.capture))
  }

  /** The count of a block, the digits before "begin". */
  function BlockCount(m: Match): nat
  {
    if |m.groups| == 1 && (forall i :: 0 <= i < |m.groups[0]| ==> IsDigit(m.groups[0][i])) then DecValue(m.groups[0]) else 0
  }

  /** The table after one block. */
  function ApplyBlock(t: map<string, string>, kind: BlockKind, m: Match): map<string, string>
  {
    var lines := BlockLines(m);
    ApplyLines(t, kind, lines, 0, LinesRead(BlockCount(m), lines))
  }

  /** The table after the blocks ms[j..], in order. */
  function ApplyBlocks(t: map<string, string>, kind: BlockKind, ms: seq<Match>, j: nat): map<string, string>
    decreases |ms| - j
  {
    if j >= |ms| then t else ApplyBlocks(ApplyBlock(t, kind, ms[j]), kind, ms, j + 1)
  }

  function Keyword(kind: BlockKind): string
  {
    match kind
    case Chars => "bfchar"
    case Ranges => "bfrange"
  }

  /** The blocks of one kind in a stream. */
  function Blocks(kind: BlockKind, stream: string): seq<Match>
  {
    AllMatches(Counted(Keyword(kind)), stream, 0)
  }

  /** What getCharTransformations leaves in $transformations: all bfchar blocks first, then all bfrange blocks. */
  function Transformations(t: map<string, string>, stream: string): map<string, string>
  {
    ApplyBlocks(ApplyBlocks(t, Chars, Blocks(Chars, stream), 0), Ranges, Blocks(Ranges, stream), 0)
  }

  // ---------------------------------------------------------------------------------------------
  // The loops of lines 433-472

  /** Lines 453-456: the three-code form of a bfrange line. */
  method WriteOffsets(t: map<string, string>, from: nat, last: nat, dst: nat) returns (r: map<string, string>)
    ensures r == ApplyWrites(t, OffsetWrites(from, last, dst))
  {
    r := t;
    var m := from;
    var n := 0;
    while m <= last
      invariant m == from + n
      invariant ApplyWrites(r, OffsetWrites(m, last, dst + n)) == ApplyWrites(t, OffsetWrites(from, last, dst))
      decreases last + 1 - m
    {
      r := r[Hex4(m) := Hex4(dst + n)];
      m := m + 1;
      n := n + 1;
    }
  }

  /** Lines 463-468: the array form of a bfrange line. */
  method WriteArray(t: map<string, string>, from: nat, last: nat, parts: seq<string>) returns (r: map<string, string>)
    ensures r == ApplyWrites(t, ArrayWrites(from, last, parts))
  {
    r := t;
    var m := from;
    var n := 0;
    while m <= last && n < |parts|
      invariant m == from + n && n <= |parts|
      invariant ApplyWrites(r, ArrayWrites(m, last, parts[n..])) == ApplyWrites(t, ArrayWrites(from, last, parts))
      decreases |parts| - n
    {
      assert parts[n..][0] == parts[n] && parts[n..][1..] == parts[n + 1..];
      r := r[Hex4(m) := Hex4(HexDec(parts[n]))];
      m := m + 1;
      n := n + 1;
    }
  }

  /** The body of the inner loops: one trimmed line of a block. */
  method WriteLine(t: map<string, string>, kind: BlockKind, line: string) returns (r: map<string, string>)
    ensures r == ApplyWrites(t, LineWrites(kind, line))
  {
    r := t;
    if kind == Chars {
      var p := Leftmost(CharPairAt, line, 0);
      if p.Some? {
        var groups := CharPairAt(line, p.value).value;
        r := r[StrPadRight(groups[0], 4, '0') := groups[1]];
      }
    } else {
      var p := Leftmost(RangeTripleAt, line, 0);
      if p.Some? {
        var groups := RangeTripleAt(line, p.value).value;
        r := WriteOffsets(r, HexDec(groups[0]), HexDec(groups[1]), HexDec(groups[2]));
      } else {
        p := Leftmost(RangeArrayAt, line, 0);
        if p.Some? {
          var groups := RangeArrayAt(line, p.value).value;
          var parts := SplitWs(Trim(groups[2]));
          r := WriteArray(r, HexDec(groups[0]), HexDec(groups[1]), parts);
        }
      }
    }
  }

  /** The inner loops of lines 436-442 and 447-470: the first count lines, each trimmed. */
  method WriteLines(t: map<string, string>, kind: BlockKind, count: nat, current: seq<string>) returns (r: map<string, string>)
    ensures r == ApplyLines(t, kind, current, 0, LinesRead(count, current))
  {
    ghost var n := LinesRead(count, current);
    r := t;
    var k: nat := 0;
    while k < count && k < |current|
      invariant k <= n
      decreases n - k
      invariant ApplyLines(r, kind, current, k, n) == ApplyLines(t, kind, current, 0, n)
    {
      r := WriteLine(r, kind, Trim(current[k]));
      k := k + 1;
    }
  }

  /** The loops of lines 433-443 and 444-471: the blocks of one kind, in order. */
  method WriteBlocks(t: map<string, string>, kind: BlockKind, blocks: seq<Match>) returns (r: map<string, string>)
    ensures r == ApplyBlocks(t, kind, blocks, 0)
  {
    r := t;
    var j: nat := 0;
    while j < |blocks|
      invariant ApplyBlocks(r, kind, blocks, j) == ApplyBlocks(t, kind, blocks, 0)
    {
      var block := blocks[j];
      r := WriteLines(r, kind, BlockCount(block), BlockLines(block));
      j := j + 1;
    }
  }

  /** getCharTransformations, lines 427-473: $transformations is passed by reference. */
  method GetCharTransformations(t: map<string, string>, stream: string) returns (r: map<string, string>)
    ensures r == Transformations(t, stream)
  {
    var chars := Blocks(Chars, stream);
    var ranges := Blocks(Ranges, stream);
    r := WriteBlocks(t, Chars, chars);
    r := WriteBlocks(r, Ranges, ranges);
  }

  // ---------------------------------------------------------------------------------------------
  // The stream's table as one list of writes

  /** The writes of lines k to n - 1 of a block, each line trimmed, in order. */
  function LinesWrites(kind: BlockKind, lines: seq<string>, k: nat, n: nat): seq<Write>
    decreases n - k
  {
    if k >= n || k >= |lines| then [] else LineWrites(kind, Trim(lines[k])) + LinesWrites(kind, lines, k + 1, n)
  }

  /** The writes of one block: the lines its count lets it read. */
  function BlockWrites(kind: BlockKind, m: Match): seq<Write>
  {
    var lines := BlockLines(m);
    LinesWrites(kind, lines, 0, LinesRead(BlockCount(m), lines))
  }

  /** The writes of the blocks ms[j..], in order. */
  function BlocksWrites(kind: BlockKind, ms: seq<Match>, j: nat): seq<Write>
    decreases |ms| - j
  {
    if j >= |ms| then [] else BlockWrites(kind, ms[j]) + BlocksWrites(kind, ms, j + 1)
  }

  /** Every write of a stream: those of its bfchar blocks, then those of its bfrange blocks. */
  function StreamWrites(stream: string): seq<Write>
  {
    BlocksWrites(Chars, Blocks(Chars, stream), 0) + BlocksWrites(Ranges, Blocks(Ranges, stream), 0)
  }

  lemma {:induction false} ApplyWritesAppend(t: map<string, string>, a: seq<Write>, b: seq<Write>)
    ensures ApplyWrites(t, a + b) == ApplyWrites(ApplyWrites(t, a), b)
    decreases |a|
  {
    if |a| == 0 {
      assert a + b == b;
    } else {
      assert (a + b)[1..] == a[1..] + b;
      ApplyWritesAppend(t[a[0].0 := a[0].1], a[1..], b);
    }
  }

  lemma {:induction false} ApplyLinesWrites(t: map<string, string>, kind: BlockKind, lines: seq<string>, k: nat, n: nat)
    ensures ApplyLines(t, kind, lines, k, n) == ApplyWrites(t, LinesWrites(kind, lines, k, n))
    decreases n - k
  {
    if k < n && k < |lines| {
      var w := LineWrites(kind, Trim(lines[k]));
      ApplyLinesWrites(ApplyWrites(t, w), kind, lines, k + 1, n);
      ApplyWritesAppend(t, w, LinesWrites(kind, lines, k + 1, n));
    }
  }

  lemma {:induction false} ApplyBlocksWrites(t: map<string, string>, kind: BlockKind, ms: seq<Match>, j: nat)
    ensures ApplyBlocks(t, kind, ms, j) == ApplyWrites(t, BlocksWrites(kind, ms, j))
    decreases |ms| - j
  {
    if j < |ms| {
      var lines := BlockLines(ms[j]);
      ApplyLinesWrites(t, kind, lines, 0, LinesRead(BlockCount(ms[j]), lines));
      ApplyBlocksWrites(ApplyBlock(t, kind, ms[j]), kind, ms, j + 1);
      ApplyWritesAppend(t, BlockWrites(kind, ms[j]), BlocksWrites(kind, ms, j + 1));
    }
  }

  /** The table a stream leaves is its one list of writes applied in order. */
  lemma TransformationsWrites(t: map<string, string>, stream: string)
    ensures Transformations(t, stream) == ApplyWrites(t, StreamWrites(stream))
  {
    var chars := BlocksWrites(Chars, Blocks(Chars, stream), 0);
    ApplyBlocksWrites(t, Chars, Blocks(Chars, stream), 0);
    ApplyBlocksWrites(ApplyWrites(t, chars), Ranges, Blocks(Ranges, stream), 0);
    ApplyWritesAppend(t, chars, BlocksWrites(Ranges, Blocks(Ranges, stream), 0));
  }

  /** Reading a + b from the end, b's writes come first. */
  lemma {:induction false} LastWriteAppend(a: seq<Write>, b: seq<Write>, k: string)
    ensures LastWrite(a + b, k) == if LastWrite(b, k).Some? then LastWrite(b, k) else LastWrite(a, k)
    decreases |b|
  {
    if |b| == 0 {
      assert a + b == a;
    } else {
      var n := |b| - 1;
      assert (a + b)[..|a + b| - 1] == a + b[..n];
      LastWriteAppend(a, b[..n], k);
    }
  }

  /** A bfrange write to a key wins over every bfchar write to it; without one, the last bfchar write counts. */
  lemma RangesOverChars(stream: string, key: string)
    ensures var ranges := BlocksWrites(Ranges, Blocks(Ranges, stream), 0);
      LastWrite(StreamWrites(stream), key) ==
        if LastWrite(ranges, key).Some? then LastWrite(ranges, key)
        else LastWrite(BlocksWrites(Chars, Blocks(Chars, stream), 0), key)
  {
    LastWriteAppend(BlocksWrites(Chars, Blocks(Chars, stream), 0), BlocksWrites(Ranges, Blocks(Ranges, stream), 0), key);
  }

  /**
   * After a stream, a key holds the last value the stream writes to it (a bfrange write over a
   * bfchar one), and a key the stream never writes keeps what it held, or stays missing.
   */
  lemma StreamTable(t: map<string, string>, stream: string, key: string)
    ensures LastWrite(StreamWrites(stream), key).Some? ==>
      key in Transformations(t, stream) && Transformations(t, stream)[key] == LastWrite(StreamWrites(stream), key).value
    ensures LastWrite(StreamWrites(stream), key).None? ==> SameAt(Transformations(t, stream), t, key)
  {
    TransformationsWrites(t, stream);
    ApplyWritesLookup(t, StreamWrites(stream), key);
  }

  // ---------------------------------------------------------------------------------------------
  // Properties

  /** The last value written to key k, if any: an independent reading of the writes from the end. */
  function LastWrite(w: seq<Write>, k: string): Option<string>
    decreases |w|
  {
    if |w| == 0 then None
    else if w[|w| - 1].0 == k then Some(w[|w| - 1].1)
    else LastWrite(w[..|w| - 1], k)
  }

  /** Two tables agree at key k. */
  predicate SameAt(a: map<string, string>, b: map<string, string>, k: string)
  {
    (k in a <==> k in b) && (k in a ==> a[k] == b[k])
  }

  lemma {:induction false} ApplyWritesSnoc(t: map<string, string>, w: seq<Write>, x: Write)
    ensures ApplyWrites(t, w + [x]) == ApplyWrites(t, w)[x.0 := x.1]
    decreases |w|
  {
    if |w| == 0 {
      assert (w + [x])[1..] == [];
    } else {
      assert (w + [x])[1..] == w[1..] + [x];
      ApplyWritesSnoc(t[w[0].0 := w[0].1], w[1..], x);
    }
  }

  /** After the writes, a key holds its last write, or what it held before when it was not written. */
  lemma {:induction false} ApplyWritesLookup(t: map<string, string>, w: seq<Write>, k: string)
    ensures LastWrite(w, k).Some? ==> k in ApplyWrites(t, w) && ApplyWrites(t, w)[k] == LastWrite(w, k).value
    ensures LastWrite(w, k).None? ==> SameAt(ApplyWrites(t, w), t, k)
    decreases |w|
  {
    if |w| > 0 {
      var n := |w| - 1;
      ApplyWritesLookup(t, w[..n], k);
      assert w == w[..n] + [w[n]];
      ApplyWritesSnoc(t, w[..n], w[n]);
    }
  }

  /** Reading the writes from the end, a write in front only counts when no later one names its key. */
  lemma {:induction false} LastWriteCons(x: Write, rest: seq<Write>, k: string)
    ensures LastWrite([x] + rest, k) ==
      if LastWrite(rest, k).Some? then LastWrite(rest, k) else if x.0 == k then Some(x.1) else None
    decreases |rest|
  {
    if |rest| > 0 {
      var n := |rest| - 1;
      assert ([x] + rest)[..|rest|] == [x] + rest[..n];
      LastWriteCons(x, rest[..n], k);
    } else {
      assert [x] + rest == [x];
    }
  }

  /** A key no write names is not written. */
  lemma {:induction false} LastWriteNone(w: seq<Write>, k: string)
    requires forall i :: 0 <= i < |w| ==> w[i].0 != k
    ensures LastWrite(w, k) == None
    decreases |w|
  {
    if |w| > 0 {
      LastWriteNone(w[..|w| - 1], k);
    }
  }

  /** sprintf("%04X") tells numbers apart. */
  lemma Hex4Injective(a: nat, b: nat)
    requires Hex4(a) == Hex4(b)
    ensures a == b
  {
    HexDecHex4(a);
    HexDecHex4(b);
  }

  /** No code below `from` is written by a bfrange line that starts at `from`. */
  lemma {:induction false} OffsetMissing(from: nat, last: nat, dst: nat, c: nat)
    requires c < from
    ensures LastWrite(OffsetWrites(from, last, dst), Hex4(c)).None?
    decreases if last < from then 0 else last - from + 1
  {
    if from <= last {
      OffsetMissing(from + 1, last, dst + 1, c);
      LastWriteCons((Hex4(from), Hex4(dst)), OffsetWrites(from + 1, last, dst + 1), Hex4(c));
      if Hex4(from) == Hex4(c) {
        Hex4Injective(from, c);
      }
    }
  }

  /** The first code of a three-code bfrange line keeps the first destination. */
  lemma OffsetFirst(from: nat, last: nat, dst: nat)
    requires from <= last
    ensures LastWrite(OffsetWrites(from, last, dst), Hex4(from)) == Some(Hex4(dst))
  {
    var x := (Hex4(from), Hex4(dst));
    var rest := OffsetWrites(from + 1, last, dst + 1);
    assert OffsetWrites(from, last, dst) == [x] + rest;
    OffsetMissing(from + 1, last, dst + 1, from);
    LastWriteCons(x, rest, Hex4(from));
  }

  /** A code written by the tail of a three-code bfrange line keeps that write. */
  lemma OffsetLater(from: nat, last: nat, dst: nat, k: string)
    requires from <= last && LastWrite(OffsetWrites(from + 1, last, dst + 1), k).Some?
    ensures LastWrite(OffsetWrites(from, last, dst), k) == LastWrite(OffsetWrites(from + 1, last, dst + 1), k)
  {
    var x := (Hex4(from), Hex4(dst));
    var rest := OffsetWrites(from + 1, last, dst + 1);
    assert OffsetWrites(from, last, dst) == [x] + rest;
    LastWriteCons(x, rest, k);
  }

  /** The writes of a three-code bfrange line leave code from + i mapped to dst + i. */
  lemma {:induction false} OffsetLast(from: nat, last: nat, dst: nat, i: nat)
    requires from + i <= last
    ensures LastWrite(OffsetWrites(from, last, dst), Hex4(from + i)) == Some(Hex4(dst + i))
    decreases i
  {
    if i == 0 {
      OffsetFirst(from, last, dst);
    } else {
      OffsetLast(from + 1, last, dst + 1, i - 1);
      OffsetLater(from, last, dst, Hex4(from + i));
    }
  }

  /** No code below `from` is written by an array bfrange line that starts at `from`. */
  lemma {:induction false} ArrayMissing(from: nat, last: nat, parts: seq<string>, c: nat)
    requires c < from
    ensures LastWrite(ArrayWrites(from, last, parts), Hex4(c)).None?
    decreases |parts|
  {
    if from <= last && |parts| > 0 {
      ArrayMissing(from + 1, last, parts[1..], c);
      LastWriteCons((Hex4(from), Hex4(HexDec(parts[0]))), ArrayWrites(from + 1, last, parts[1..]), Hex4(c));
      if Hex4(from) == Hex4(c) {
        Hex4Injective(from, c);
      }
    }
  }

  /** The array form writes one entry per code from..to that has a value: min(to - from + 1, count(parts)). */
  lemma {:induction false} ArrayWritesLength(from: nat, last: int, parts: seq<string>)
    ensures |ArrayWrites(from, last, parts)| == if last < from then 0 else Min(last - from + 1, |parts|)
    decreases |parts|
  {
    if from <= last && |parts| > 0 {
      ArrayWritesLength(from + 1, last, parts[1..]);
    }
  }

  /** The writes of an array bfrange line leave code from + i mapped to the i-th value. */
  lemma {:induction false} ArrayLast(from: nat, last: nat, parts: seq<string>, i: nat)
    requires from + i <= last && i < |parts|
    ensures LastWrite(ArrayWrites(from, last, parts), Hex4(from + i)) == Some(Hex4(HexDec(parts[i])))
    decreases i
  {
    var x := (Hex4(from), Hex4(HexDec(parts[0])));
    var rest := ArrayWrites(from + 1, last, parts[1..]);
    assert ArrayWrites(from, last, parts) == [x] + rest;
    if i == 0 {
      ArrayMissing(from + 1, last, parts[1..], from);
      assert LastWrite([x] + rest, Hex4(from)) == Some(x.1) by {
        LastWriteCons(x, rest, Hex4(from));
      }
    } else {
      ArrayLast(from + 1, last, parts[1..], i - 1);
      assert parts[1..][i - 1] == parts[i];
      assert LastWrite([x] + rest, Hex4(from + i)) == Some(Hex4(HexDec(parts[i]))) by {
        LastWriteCons(x, rest, Hex4(from + i));
      }
    }
  }

  /** A three-code bfrange line maps every code from..last to the destination offset by as much. */
  lemma OffsetTable(t: map<string, string>, from: nat, last: nat, dst: nat, i: nat)
    requires from + i <= last
    ensures Hex4(from + i) in ApplyWrites(t, OffsetWrites(from, last, dst))
    ensures ApplyWrites(t, OffsetWrites(from, last, dst))[Hex4(from + i)] == Hex4(dst + i)
  {
    OffsetLast(from, last, dst, i);
    ApplyWritesLookup(t, OffsetWrites(from, last, dst), Hex4(from + i));
  }

  /** An array bfrange line maps the i-th code from `from` on to the i-th value of the array. */
  lemma ArrayTable(t: map<string, string>, from: nat, last: nat, parts: seq<string>, i: nat)
    requires from + i <= last && i < |parts|
    ensures Hex4(from + i) in ApplyWrites(t, ArrayWrites(from, last, parts))
    ensures ApplyWrites(t, ArrayWrites(from, last, parts))[Hex4(from + i)] == Hex4(HexDec(parts[i]))
  {
    ArrayLast(from, last, parts, i);
    ApplyWritesLookup(t, ArrayWrites(from, last, parts), Hex4(from + i));
  }

  // Only four-digit codes are written

  predicate FourCharKeys(w: seq<Write>)
  {
    forall i :: 0 <= i < |w| ==> |w[i].0| == 4
  }

  lemma {:induction false} OffsetKeysFour(from: nat, last: nat, dst: nat)
    requires last < 0x10000
    ensures FourCharKeys(OffsetWrites(from, last, dst))
    decreases if last < from then 0 else last - from + 1
  {
    if from <= last {
      OffsetKeysFour(from + 1, last, dst + 1);
    }
  }

  lemma {:induction false} ArrayKeysFour(from: nat, last: nat, parts: seq<string>)
    requires last < 0x10000
    ensures FourCharKeys(ArrayWrites(from, last, parts))
    decreases |parts|
  {
    if from <= last && |parts| > 0 {
      ArrayKeysFour(from + 1, last, parts[1..]);
    }
  }

  /** Every key a bfchar or bfrange line writes has four characters. */
  lemma LineKeysFour(kind: BlockKind, line: string)
    ensures FourCharKeys(LineWrites(kind, line))
  {
    if kind == Ranges {
      match Leftmost(RangeTripleAt, line, 0)
      case Some(p) =>
        HexDecFour(RangeTripleAt(line, p).value[1]);
        var g := RangeTripleAt(line, p).value;
        OffsetKeysFour(HexDec(g[0]), HexDec(g[1]), HexDec(g[2]));
      case None =>
        match Leftmost(RangeArrayAt, line, 0)
        case None =>
        case Some(p) =>
          var g := RangeArrayAt(line, p).value;
          HexDecFour(g[1]);
          ArrayKeysFour(HexDec(g[0]), HexDec(g[1]), SplitWs(Trim(g[2])));
    }
  }

  /** Writes whose keys all have four characters leave every other key alone. */
  lemma ApplyWritesOther(t: map<string, string>, w: seq<Write>, k: string)
    requires FourCharKeys(w) && |k| != 4
    ensures SameAt(ApplyWrites(t, w), t, k)
  {
    LastWriteNone(w, k);
    ApplyWritesLookup(t, w, k);
  }

  lemma {:induction false} ApplyLinesOther(t: map<string, string>, kind: BlockKind, lines: seq<string>, k: nat, n: nat, key: string)
    requires |key| != 4
    ensures SameAt(ApplyLines(t, kind, lines, k, n), t, key)
    decreases n - k
  {
    if k < n && k < |lines| {
      var w := LineWrites(kind, Trim(lines[k]));
      LineKeysFour(kind, Trim(lines[k]));
      ApplyWritesOther(t, w, key);
      ApplyLinesOther(ApplyWrites(t, w), kind, lines, k + 1, n, key);
    }
  }

  lemma {:induction false} ApplyBlocksOther(t: map<string, string>, kind: BlockKind, ms: seq<Match>, j: nat, key: string)
    requires |key| != 4
    ensures SameAt(ApplyBlocks(t, kind, ms, j), t, key)
    decreases |ms| - j
  {
    if j < |ms| {
      var lines := BlockLines(ms[j]);
      ApplyLinesOther(t, kind, lines, 0, LinesRead(BlockCount(ms[j]), lines), key);
      ApplyBlocksOther(ApplyBlock(t, kind, ms[j]), kind, ms, j + 1, key);
    }
  }

  /** The character maps of a stream only add or replace four-digit codes. */
  lemma OnlyFourDigitCodes(t: map<string, string>, stream: string, key: string)
    requires |key| != 4
    ensures SameAt(Transformations(t, stream), t, key)
  {
    var mid := ApplyBlocks(t, Chars, Blocks(Chars, stream), 0);
    ApplyBlocksOther(t, Chars, Blocks(Chars, stream), 0, key);
    ApplyBlocksOther(mid, Ranges, Blocks(Ranges, stream), 0, key);
  }

  // Lines past the count

  lemma {:induction false} ApplyLinesPrefix(t: map<string, string>, kind: BlockKind, lines: seq<string>, extra: seq<string>, k: nat, n: nat)
    requires n <= |lines|
    ensures ApplyLines(t, kind, lines + extra, k, n) == ApplyLines(t, kind, lines, k, n)
    decreases n - k
  {
    if k < n {
      assert (lines + extra)[k] == lines[k];
      ApplyLinesPrefix(ApplyWrites(t, LineWrites(kind, Trim(lines[k]))), kind, lines, extra, k + 1, n);
    }
  }

  /** A block reads no more lines than its count: whatever follows them changes nothing. */
  lemma LinesPastCountIgnored(t: map<string, string>, kind: BlockKind, count: nat, lines: seq<string>, extra: seq<string>)
    requires count <= |lines|
    ensures ApplyLines(t, kind, lines + extra, 0, LinesRead(count, lines + extra)) ==
      ApplyLines(t, kind, lines, 0, LinesRead(count, lines))
  {
    ApplyLinesPrefix(t, kind, lines, extra, 0, count);
  }

  // The padding of short codes

  /** A two-digit bfchar code is padded with zeros on the right: "<41> <0041>" maps "4100", not "0041". */
  lemma ShortCodePaddedRight()
    ensures CharLine("<41> <0041>") == [("4100", "0041")]
  {
    var s := "<41> <0041>";
    assert HexRun(s, 3) == 0;
    assert HexRun(s, 1) == 2;
    assert s[1..3] == "41";
    assert HexCode(s, 0, 2, 4) == Some(("41", 4));
    assert WsRun(s, 5) == 0;
    assert WsRun(s, 4) == 1;
    assert HexRun(s, 10) == 0;
    assert HexRun(s, 6) == 4;
    assert s[6..10] == "0041";
    assert HexCode(s, 5, 4, 512) == Some(("0041", 11));
    assert CharPairAt(s, 0) == Some(["41", "0041"]);
    assert Leftmost(CharPairAt, s, 0) == Some(0);
    assert StrPadRight("41", 4, '0') == "4100";
  }
}
