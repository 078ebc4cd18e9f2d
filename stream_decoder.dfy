/**
 * getDecodedStream (Pdf2text.php lines 360-390): when the dictionary has a non-empty Filter entry,
 * the stream (cut to Length when that is set) goes through one decoder per key of the dictionary,
 * in the order of the keys; only the keys ASCIIHexDecode, ASCII85Decode and FlateDecode do
 * anything. The decompressor gzuncompress is a parameter of the model, with its failure (false)
 * taken as the empty string, which every later use in the class treats alike (strlen and the
 * decoders see false as '').
 */
module StreamDecoder {
  import opened Php
  import opened Options
  import AsciiHex
  import Ascii85
  import AsciiHexProperties
  import Ascii85Properties

  /** empty($options[$k]): the key is missing, or its value is '' or '0'. */
  predicate IsEmpty(v: Option<Value>)
  {
    v.None? || v == Some(Scalar("")) || v == Some(Scalar("0"))
  }

  predicate AllDigits(s: string)
  {
    forall i :: 0 <= i < |s| ==> IsDigit(s[i])
  }

  /**
   * The Length entries the model covers: missing, true (the int 1), empty, or a decimal number.
   * Any other text makes substr raise or count from the end, which the model leaves out.
   */
  predicate LengthCovered(options: Dict)
  {
    match Lookup(options, "Length")
    case None => true
    case Some(Flag) => true
    case Some(Scalar(s)) => AllDigits(s)
  }

  /** The length the stream is cut to (lines 367-369). */
  function CutLength(stream: string, options: Dict): (n: nat)
    requires LengthCovered(options)
    ensures Lookup(options, "Length").None? ==> n == |stream|
  {
    var v := Lookup(options, "Length");
    if IsEmpty(v) then |stream|
    else match v.value
      case Flag => 1
      case Scalar(s) => DecValue(s)
  }

  /** One pass of the foreach of lines 371-384. */
  function Apply(key: string, data: string, inflate: string -> string): Outcome<string>
  {
    if key == "ASCIIHexDecode" then Value(AsciiHex.Decoded(data))
    else if key == "ASCII85Decode" then Ascii85.Decoded(data)
    else if key == "FlateDecode" then Value(inflate(data))
    else Value(data)
  }

  /** The foreach run over the keys, stopping at an exception. */
  function Chain(keys: seq<string>, data: string, inflate: string -> string): Outcome<string>
    decreases |keys|
  {
    if |keys| == 0 then Value(data)
    else match Chain(keys[..|keys| - 1], data, inflate)
      case Thrown => Thrown
      case Value(d) => Apply(keys[|keys| - 1], d, inflate)
  }

  /** What getDecodedStream returns, or Thrown when a decoder raises an exception. */
  function DecodedStream(stream: string, options: Dict, inflate: string -> string): Outcome<string>
    requires LengthCovered(options)
  {
    if IsEmpty(Lookup(options, "Filter")) then Value(stream)
    else Chain(Keys(options), Substr(stream, 0, CutLength(stream, options)), inflate)
  }

  /** getDecodedStream, lines 360-390. */
  method GetDecodedStream(stream: string, options: Dict, inflate: string -> string) returns (data: Outcome<string>)
    requires LengthCovered(options)
    ensures data == DecodedStream(stream, options, inflate)
  {
    if IsEmpty(Lookup(options, "Filter")) {
      return Value(stream);
    }
    var length := CutLength(stream, options);
    var current := Substr(stream, 0, length);
    var keys := Keys(options);
    var i := 0;
    while i < |keys|
      invariant 0 <= i <= |keys|
      invariant Chain(keys[..i], Substr(stream, 0, length), inflate) == Value(current)
    {
      var key := keys[i];
      assert keys[..i + 1][..i] == keys[..i];
      if key == "ASCIIHexDecode" {
        current := AsciiHex.DecodeAsciiHex(current);
      } else if key == "ASCII85Decode" {
        var r := Ascii85.DecodeAscii85(current);
        if r.Thrown? {
          ChainThrownSticks(keys, i + 1, Substr(stream, 0, length), inflate);
          return Thrown;
        }
        current := r.value;
      } else if key == "FlateDecode" {
        current := inflate(current);
      }
      i := i + 1;
    }
    assert keys[..|keys|] == keys;
    return Value(current);
  }

  /** Once a decoder has raised, the rest of the keys change nothing. */
  lemma {:induction false} ChainThrownSticks(keys: seq<string>, i: nat, data: string, inflate: string -> string)
    requires i <= |keys| && Chain(keys[..i], data, inflate).Thrown?
    ensures Chain(keys, data, inflate).Thrown?
    decreases |keys| - i
  {
    if i < |keys| {
      assert keys[..i + 1][..i] == keys[..i];
      ChainThrownSticks(keys, i + 1, data, inflate);
    } else {
      assert keys[..i] == keys;
    }
  }

  // ---------------------------------------------------------------------------------------------
  // Properties

  predicate IsFilterName(key: string)
  {
    key == "ASCIIHexDecode" || key == "ASCII85Decode" || key == "FlateDecode"
  }

  /** The keys that name a decoder, in their order. */
  function FilterNames(keys: seq<string>): (fs: seq<string>)
    ensures forall k :: 0 <= k < |fs| ==> IsFilterName(fs[k])
    decreases |keys|
  {
    if |keys| == 0 then []
    else if IsFilterName(keys[|keys| - 1]) then FilterNames(keys[..|keys| - 1]) + [keys[|keys| - 1]]
    else FilterNames(keys[..|keys| - 1])
  }

  /** Running the keys one after the other is running the first part, then the second on its result. */
  lemma {:induction false} ChainAppend(k1: seq<string>, k2: seq<string>, data: string, inflate: string -> string)
    ensures Chain(k1 + k2, data, inflate) ==
      match Chain(k1, data, inflate)
      case Thrown => Thrown
      case Value(d) => Chain(k2, d, inflate)
    decreases |k2|
  {
    if |k2| == 0 {
      assert k1 + k2 == k1;
    } else {
      var n := |k2| - 1;
      assert (k1 + k2)[..|k1 + k2| - 1] == k1 + k2[..n];
      ChainAppend(k1, k2[..n], data, inflate);
    }
  }

  /** Only the three decoder names act on the stream; every other key, Filter included, is skipped. */
  lemma {:induction false} OnlyFilterNamesAct(keys: seq<string>, data: string, inflate: string -> string)
    ensures Chain(keys, data, inflate) == Chain(FilterNames(keys), data, inflate)
    decreases |keys|
  {
    if |keys| > 0 {
      var n := |keys| - 1;
      OnlyFilterNamesAct(keys[..n], data, inflate);
      if IsFilterName(keys[n]) {
        var fs := FilterNames(keys[..n]) + [keys[n]];
        assert fs[..|fs| - 1] == FilterNames(keys[..n]);
      }
    }
  }

  /**
   * The last name of a filter array such as "/Filter [/ASCII85Decode /FlateDecode]" becomes the
   * key "FlateDecode]" and is skipped.
   */
  lemma ClosingBracketSkipped(name: string, data: string, inflate: string -> string)
    ensures Apply(name + "]", data, inflate) == Value(data)
  {
    var key := name + "]";
    assert key[|key| - 1] == ']';
    assert "ASCIIHexDecode"[13] == 'e' && "ASCII85Decode"[12] == 'e' && "FlateDecode"[10] == 'e';
  }

  /** With one decoder name among the keys, the stream goes through that decoder alone. */
  lemma OneFilterName(options: Dict, name: string, stream: string, inflate: string -> string)
    requires !IsEmpty(Lookup(options, "Filter")) && Lookup(options, "Length").None?
    requires FilterNames(Keys(options)) == [name]
    ensures DecodedStream(stream, options, inflate) == Apply(name, stream, inflate)
  {
    assert Substr(stream, 0, |stream|) == stream;
    OnlyFilterNamesAct(Keys(options), stream, inflate);
    assert [name][..0] == [];
  }

  /** A dictionary whose one decoder name is ASCIIHexDecode gets back the bytes of a hex stream. */
  lemma HexStreamRoundTrip(b: string, options: Dict, inflate: string -> string)
    requires IsBytes(b) && !IsEmpty(Lookup(options, "Filter"))
    requires Lookup(options, "Length").None?
    requires FilterNames(Keys(options)) == ["ASCIIHexDecode"]
    ensures DecodedStream(AsciiHexProperties.Hexes(b) + ">", options, inflate) ==
      Value(b + [Chr(if |b| == 0 then -16 else b[|b| - 1] as int / 16 * 16)])
  {
    OneFilterName(options, "ASCIIHexDecode", AsciiHexProperties.Hexes(b) + ">", inflate);
    AsciiHexProperties.RoundTrip(b);
  }

  /** A dictionary whose one decoder name is ASCII85Decode gets back the bytes of whole groups. */
  lemma Ascii85StreamRoundTrip(b: string, options: Dict, inflate: string -> string)
    requires |b| % 4 == 0 && IsBytes(b) && '%' !in Ascii85Properties.Encode(b)
    requires !IsEmpty(Lookup(options, "Filter")) && Lookup(options, "Length").None?
    requires FilterNames(Keys(options)) == ["ASCII85Decode"]
    ensures DecodedStream(Ascii85Properties.Encode(b) + "~>", options, inflate) == Value(b)
  {
    OneFilterName(options, "ASCII85Decode", Ascii85Properties.Encode(b) + "~>", inflate);
    Ascii85Properties.RoundTrip(b);
  }

  /**
   * The same with one to three bytes after the whole groups: they come back too, unless one of
   * them is the character '0', which makes the decoder throw.
   */
  lemma Ascii85StreamPartialRoundTrip(b: string, t: string, options: Dict, inflate: string -> string)
    requires |b| % 4 == 0 && IsBytes(b) && 1 <= |t| <= 3 && IsBytes(t)
    requires '%' !in Ascii85Properties.Encode(b) + Ascii85Properties.EncodeTail(t)
    requires !IsEmpty(Lookup(options, "Filter")) && Lookup(options, "Length").None?
    requires FilterNames(Keys(options)) == ["ASCII85Decode"]
    ensures DecodedStream(Ascii85Properties.Encode(b) + Ascii85Properties.EncodeTail(t) + "~>", options, inflate) ==
      if '0' in t then Thrown else Value(b + t)
  {
    OneFilterName(options, "ASCII85Decode", Ascii85Properties.Encode(b) + Ascii85Properties.EncodeTail(t) + "~>", inflate);
    Ascii85Properties.PartialRoundTrip(b, t);
  }
}
