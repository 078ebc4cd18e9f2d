/**
 * getObjectOptions (Pdf2text.php lines 329-351): the entries of the first "<<...>>" dictionary of
 * an object, kept as a PHP ordered array. Each piece between two '/' is trimmed and its runs of
 * white space are collapsed to one space; a piece with a space maps its first word to its second
 * word, any other piece maps itself to true. Assigning to a key that is already present keeps
 * the key's place in the order.
 */
module Options {
  import opened Php
  import opened Scanner

  /** A value of the array: true, or the second word of a piece. */
  datatype Value = Flag | Scalar(text: string)

  /** A PHP ordered array from strings to values. */
  type Dict = seq<(string, Value)>

  predicate DistinctKeys(d: Dict)
  {
    forall i, j :: 0 <= i < j < |d| ==> d[i].0 != d[j].0
  }

  function Keys(d: Dict): (ks: seq<string>)
    ensures |ks| == |d| && forall i :: 0 <= i < |d| ==> ks[i] == d[i].0
  {
    seq(|d|, i requires 0 <= i < |d| => d[i].0)
  }

  /** The index of key k in d. */
  function IndexOf(d: Dict, k: string): (i: nat)
    requires k in Keys(d)
    ensures i < |d| && d[i].0 == k && forall j :: 0 <= j < i ==> d[j].0 != k
  {
    if d[0].0 == k then 0
    else
      assert Keys(d[1..]) == Keys(d)[1..];
      1 + IndexOf(d[1..], k)
  }

  /** $d[$k], or None when the key is not set. */
  function Lookup(d: Dict, k: string): (r: Option<Value>)
    ensures r.None? <==> k !in Keys(d)
  {
    if k in Keys(d) then Some(d[IndexOf(d, k)].1) else None
  }

  /** With distinct keys, an entry with key k is the one Lookup finds. */
  lemma LookupAt(d: Dict, k: string, i: nat)
    requires DistinctKeys(d) && i < |d| && d[i].0 == k
    ensures Lookup(d, k) == Some(d[i].1)
  {
    assert Keys(d)[i] == k;
  }

  /** $d[$k] = $v: overwrites the entry in its place, or appends a new one. */
  function Put(d: Dict, k: string, v: Value): (r: Dict)
    requires DistinctKeys(d)
    ensures DistinctKeys(r)
    ensures k in Keys(d) ==> Keys(r) == Keys(d)
    ensures k !in Keys(d) ==> Keys(r) == Keys(d) + [k]
  {
    if k in Keys(d) then
      var i := IndexOf(d, k);
      var r := d[i := (k, v)];
      assert Keys(r) == Keys(d);
      r
    else
      var r := d + [(k, v)];
      assert Keys(r) == Keys(d) + [k];
      r
  }

  /** unset($d[$k]): drops the entry of k and keeps the order of the others. */
  function Remove(d: Dict, k: string): (r: Dict)
    requires DistinctKeys(d)
    ensures DistinctKeys(r) && k !in Keys(r)
    ensures |r| == if k in Keys(d) then |d| - 1 else |d|
  {
    if k in Keys(d) then
      var i := IndexOf(d, k);
      var r := d[..i] + d[i + 1..];
      assert forall m :: 0 <= m < |r| ==> r[m] == if m < i then d[m] else d[m + 1];
      r
    else d
  }

  /** The entry one piece of the dictionary's body stands for (lines 339-344). */
  function Entry(piece: string): (string, Value)
  {
    var p := CollapseWs(Trim(piece));
    if ' ' in p then
      var parts := Explode(' ', p);
      (parts[0], Scalar(parts[1]))
    else (p, Flag)
  }

  /** The array the loop of lines 338-345 builds from the pieces. */
  function Build(pieces: seq<string>): (d: Dict)
    ensures DistinctKeys(d)
    decreases |pieces|
  {
    if |pieces| == 0 then []
    else
      var e := Entry(pieces[|pieces| - 1]);
      Put(Build(pieces[..|pieces| - 1]), e.0, e.1)
  }

  /** The pieces of the body: everything between two '/', the text before the first '/' dropped. */
  function Pieces(body: string): seq<string>
  {
    Explode('/', body)[1..]
  }

  /** What getObjectOptions returns for an object. */
  function ObjectOptions(obj: string): Dict
  {
    match FirstMatch(Angles, obj)
    case None => []
    case Some(m) => Build(Pieces(m.capture))
  }

  /** getObjectOptions, lines 329-351. */
  method GetObjectOptions(obj: string) returns (options: Dict)
    ensures options == ObjectOptions(obj)
    ensures DistinctKeys(options)
  {
    options := [];
    var found := FirstMatch(Angles, obj);
    if found.Some? {
      options := BuildOptions(Pieces(found.value.capture));
    }
  }

  /** The loop of lines 338-345 over the pieces of the body. */
  method BuildOptions(pieces: seq<string>) returns (o: Dict)
    ensures o == Build(pieces)
  {
    o := [];
    var j := 0;
    while j < |pieces|
      invariant 0 <= j <= |pieces|
      invariant o == Build(pieces[..j])
    {
      var p := CollapseWs(Trim(pieces[j]));
      BuildSnoc(pieces, j);
      if ' ' in p {
        var parts := Explode(' ', p);
        o := Put(o, parts[0], Scalar(parts[1]));
      } else {
        o := Put(o, p, Flag);
      }
      j := j + 1;
    }
    assert pieces[..|pieces|] == pieces;
  }

  lemma BuildSnoc(pieces: seq<string>, j: nat)
    requires j < |pieces|
    ensures Build(pieces[..j + 1]) == Put(Build(pieces[..j]), Entry(pieces[j]).0, Entry(pieces[j]).1)
  {
    assert pieces[..j + 1][..j] == pieces[..j];
  }

  // ---------------------------------------------------------------------------------------------
  // Properties

  /** The value a key gets from a list of entries: the one of its last entry. */
  function LastFor(es: seq<(string, Value)>, k: string): Option<Value>
    decreases |es|
  {
    if |es| == 0 then None
    else if es[|es| - 1].0 == k then Some(es[|es| - 1].1)
    else LastFor(es[..|es| - 1], k)
  }

  /** The keys in order of their first appearance. */
  function FirstSeen(ks: seq<string>): seq<string>
    decreases |ks|
  {
    if |ks| == 0 then []
    else
      var prev := FirstSeen(ks[..|ks| - 1]);
      if ks[|ks| - 1] in prev then prev else prev + [ks[|ks| - 1]]
  }

  function Entries(pieces: seq<string>): (es: seq<(string, Value)>)
    ensures |es| == |pieces| && forall i :: 0 <= i < |pieces| ==> es[i] == Entry(pieces[i])
  {
    seq(|pieces|, i requires 0 <= i < |pieces| => Entry(pieces[i]))
  }

  /** Assigning $d[$k] changes what k maps to and nothing else. */
  lemma PutLookup(d: Dict, k: string, v: Value, j: string)
    requires DistinctKeys(d)
    ensures Lookup(Put(d, k, v), j) == if j == k then Some(v) else Lookup(d, j)
  {
    var r := Put(d, k, v);
    if j == k {
      if k in Keys(d) {
        LookupAt(r, k, IndexOf(d, k));
      } else {
        LookupAt(r, k, |d|);
      }
    } else if j in Keys(d) {
      var i := IndexOf(d, j);
      assert r[i] == d[i];
      LookupAt(r, j, i);
    } else {
      assert j !in Keys(r);
    }
  }

  /** unset($d[$k]) leaves the other keys' values alone. */
  lemma RemoveLookup(d: Dict, k: string, j: string)
    requires DistinctKeys(d) && j != k
    ensures Lookup(Remove(d, k), j) == Lookup(d, j)
  {
    var r := Remove(d, k);
    if j in Keys(d) {
      var i := IndexOf(d, j);
      if k in Keys(d) {
        var x := IndexOf(d, k);
        if i < x {
          assert r[i] == d[i];
          LookupAt(r, j, i);
        } else {
          assert r[i - 1] == d[i];
          LookupAt(r, j, i - 1);
        }
      } else {
        LookupAt(r, j, i);
      }
    }
  }

  /** A later piece with the same key overwrites an earlier one. */
  lemma {:induction false} BuildLookup(pieces: seq<string>, k: string)
    ensures Lookup(Build(pieces), k) == LastFor(Entries(pieces), k)
    decreases |pieces|
  {
    if |pieces| > 0 {
      var n := |pieces| - 1;
      BuildLookup(pieces[..n], k);
      assert Entries(pieces)[..n] == Entries(pieces[..n]);
      PutLookup(Build(pieces[..n]), Entry(pieces[n]).0, Entry(pieces[n]).1, k);
    }
  }

  /** A key keeps the place of its first piece. */
  lemma {:induction false} BuildKeys(pieces: seq<string>)
    ensures Keys(Build(pieces)) == FirstSeen(Keys(Entries(pieces)))
    decreases |pieces|
  {
    if |pieces| > 0 {
      var n := |pieces| - 1;
      BuildKeys(pieces[..n]);
      assert Entries(pieces)[..n] == Entries(pieces[..n]);
      assert Keys(Entries(pieces))[..n] == Keys(Entries(pieces[..n]));
    }
  }

  /** An object without "<<...>>" has no options. */
  lemma NoDictionary(obj: string)
    requires forall p :: 0 <= p < |obj| ==> MatchAt(Angles, obj, p).None?
    ensures ObjectOptions(obj) == []
  {
    var t := Table(Angles, obj);
    AllMatchesLeftmost(t, 0);
    LeftmostUnique(t, 0, []);
  }

  /** Only the second word of a piece is kept: "/Length 42 0 R" sets Length to "42". */
  lemma SecondWordOnly(piece: string, a: string, b: string, rest: string)
    requires CollapseWs(Trim(piece)) == a + " " + b + rest
    requires ' ' !in a && ' ' !in b && (|rest| == 0 || rest[0] == ' ')
    ensures Entry(piece) == (a, Scalar(b))
  {
    var s := a + " " + b + rest;
    assert s[|a|] == ' ';
    TwoWords(a, b, rest);
  }

  lemma TwoWords(a: string, b: string, rest: string)
    requires ' ' !in a && ' ' !in b && (|rest| == 0 || rest[0] == ' ')
    ensures |Explode(' ', a + " " + b + rest)| >= 2
    ensures Explode(' ', a + " " + b + rest)[..2] == [a, b]
  {
    var s := a + " " + b + rest;
    var tail := b + rest;
    assert s[|a| + 1..] == tail;
    assert s[..|a|] == a;
    FirstIndexAt(s, ' ', |a|);
    assert Explode(' ', s) == [a] + Explode(' ', tail);
    if |rest| == 0 {
      assert tail == b;
      assert Explode(' ', tail) == [b];
    } else {
      assert tail[..|b|] == b;
      FirstIndexAt(tail, ' ', |b|);
      assert Explode(' ', tail)[0] == b;
    }
  }
}
