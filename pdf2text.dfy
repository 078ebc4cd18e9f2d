/**
 * The Pdf2text class (Pdf2text.php lines 17-166): its options, and decodePDF, which finds the
 * objects of the file, decodes the stream of every object that is not a font or an image, sends
 * a decoded stream with text objects to getDirtyTexts and any other one to
 * getCharTransformations, and renders what was gathered with getTextUsingTransformations.
 *
 * Reading the file is left to the caller: the model takes the file's bytes. gzuncompress and
 * html_entity_decode are parameters.
 */
module Pdf2text {
  import opened Php
  import opened Scanner
  import opened Options
  import StreamDecoder
  import TextOperators
  import CMap
  import Renderer

  /** The two entries of the options array the class reads; None when an entry is not set. */
  datatype UserOptions = UserOptions(convertQuotes: Option<int>, multibyteUnicode: Option<int>)

  /** isset($options[k]) && !empty($options[k]) for an integer entry. */
  predicate Given(v: Option<int>)
  {
    v.Some? && v.value != 0
  }

  /** empty($infile): the empty file, or the file "0". */
  predicate EmptyFile(infile: string)
  {
    infile == "" || infile == "0"
  }

  /** What the loop over the objects has gathered: $texts and $transformations. */
  datatype Found = Found(texts: seq<string>, table: map<string, string>)

  /** The three spans decodePDF looks for: "obj ... endobj", "stream ... endstream" and "BT ... ET". */
  const ObjectSpan: Pattern := Block("obj", "endobj")
  const StreamSpan: Pattern := Block("stream", "endstream")
  const TextSpan: Pattern := Block("bt", "et")

  /** The bodies of the "obj ... endobj" spans (lines 128-130). */
  function Objects(infile: string): seq<string>
  {
    Captures(AllMatches(ObjectSpan, infile + "endobj\r", 0))
  }

  /** The stream of an object with its leading white space dropped, when it has one (lines 137-141). */
  function StreamOf(obj: string): Option<string>
  {
    match FirstMatch(StreamSpan, obj + "endstream\r")
    case None => None
    case Some(m) => Some(LTrim(m.capture))
  }

  /** A font file or an image: a non-empty Length1, Type or Subtype (lines 143-147). */
  predicate Guarded(options: Dict)
  {
    !(StreamDecoder.IsEmpty(Lookup(options, "Length1")) &&
      StreamDecoder.IsEmpty(Lookup(options, "Type")) &&
      StreamDecoder.IsEmpty(Lookup(options, "Subtype")))
  }

  /** The bodies of the "BT ... ET" text objects of a decoded stream (lines 154-155). */
  function TextObjects(data: string): seq<string>
  {
    Captures(AllMatches(TextSpan, data + "ET\r", 0))
  }

  /** Lines 153-161: a decoded stream goes to getDirtyTexts or to getCharTransformations. */
  function Classify(data: string, f: Found): Found
  {
    if |data| == 0 then f
    else
      var containers := TextObjects(data);
      if |containers| > 0 then f.(texts := f.texts + TextOperators.DirtyTexts(containers))
      else f.(table := CMap.Transformations(f.table, data))
  }

  /**
   * What lines 137-151 make of an object: None when it has no stream or is a font or an image,
   * otherwise the decoded stream, or Thrown when a decoder raises.
   */
  function ObjectData(obj: string, inflate: string -> string): Option<Outcome<string>>
  {
    match StreamOf(obj)
    case None => None
    case Some(stream) =>
      var options := ObjectOptions(obj);
      if Guarded(options) then None
      else Some(StreamDecoder.DecodedStream(stream, Remove(options, "Length"), inflate))
  }

  /** One pass of the loop of lines 132-163, or Thrown when decoding the stream raises. */
  function ObjectStep(obj: string, f: Found, inflate: string -> string): Outcome<Found>
  {
    match ObjectData(obj, inflate)
    case None => Value(f)
    case Some(Thrown) => Thrown
    case Some(Value(data)) => Value(Classify(data, f))
  }

  /** The passes of step over the first n objects, stopping at an exception; the loop's step is ObjectStep. */
  function Collect(step: (string, Found, string -> string) -> Outcome<Found>, objects: seq<string>, n: nat,
                   inflate: string -> string): Outcome<Found>
    requires n <= |objects|
  {
    if n == 0 then Value(Found([], map[]))
    else
      match Collect(step, objects, n - 1, inflate)
      case Thrown => Thrown
      case Value(f) => step(objects[n - 1], f, inflate)
  }

  /** What the loop gathers from a whole file. */
  function Gathered(infile: string, inflate: string -> string): Outcome<Found>
  {
    var objects := Objects(infile);
    Collect(ObjectStep, objects, |objects|, inflate)
  }

  /** The text decodePDF stores for what was gathered. */
  function Text(f: Found, multibyte: nat, quotes: int, decode: Renderer.EntityDecoder): string
    requires multibyte > 0
  {
    Renderer.Rendered(f.texts, |f.texts|, Renderer.Setting(f.table, multibyte, decode, quotes))
  }

  /** ObjectOptions always has distinct keys, so Length can be unset from it. */
  lemma ObjectOptionsDistinct(obj: string)
    ensures DistinctKeys(ObjectOptions(obj))
  {
  }

  class Pdf2text {
    /** The number of hex digits per character. */
    var multibyte: nat
    /** The flags html_entity_decode gets for octal escapes. */
    var convertQuotes: int
    var decodedText: string

    /** $multibyte is 4 at the start, and setOptions can only set it to 4 again. */
    predicate Valid()
      reads this
    {
      multibyte == 4
    }

    /** __construct, lines 55-66, without the file name: the defaults, then the options. */
    constructor(options: UserOptions)
      ensures Valid()
      ensures convertQuotes == if Given(options.convertQuotes) then options.convertQuotes.value else Renderer.EntQuotes
      ensures decodedText == ""
    {
      multibyte := 4;
      convertQuotes := Renderer.EntQuotes;
      decodedText := "";
      new;
      SetOptions(options);
    }

    /** setOptions, lines 89-99. */
    method SetOptions(options: UserOptions)
      modifies this
      ensures convertQuotes == if Given(options.convertQuotes) then options.convertQuotes.value else old(convertQuotes)
      ensures multibyte == if Given(options.multibyteUnicode) then 4 else old(multibyte)
      ensures old(Valid()) ==> Valid()
      ensures decodedText == old(decodedText)
    {
      if options.convertQuotes.Some? && options.convertQuotes.value != 0 {
        convertQuotes := options.convertQuotes.value;
      }
      if options.multibyteUnicode.Some? && options.multibyteUnicode.value != 0 {
        // the source's `? 4 : 2` tests the value the guard has just found non-empty
        multibyte := 4;
      }
    }

    /**
     * decodePDF, lines 116-166, with the file's bytes given. The result tells whether a decoder
     * raised an exception, which leaves $decodedText as it was.
     */
    method DecodePdf(infile: string, inflate: string -> string, decode: Renderer.EntityDecoder) returns (thrown: bool)
      requires Valid()
      modifies this
      ensures Valid() && convertQuotes == old(convertQuotes)
      ensures thrown <==> !EmptyFile(infile) && Gathered(infile, inflate).Thrown?
      ensures decodedText ==
        if EmptyFile(infile) || Gathered(infile, inflate).Thrown? then old(decodedText)
        else Text(Gathered(infile, inflate).value, multibyte, convertQuotes, decode)
    {
      if infile == "" || infile == "0" {
        return false;
      }
      var objects := Captures(AllMatches(ObjectSpan, infile + "endobj\r", 0));
      var found := GatherObjects(objects, inflate);
      RestCollect(ObjectStep, objects, 0, inflate);
      if found.Thrown? {
        return true;
      }
      decodedText := Renderer.GetTextUsingTransformations(found.value.texts,
        Renderer.Setting(found.value.table, multibyte, decode, convertQuotes));
      return false;
    }

    /** decode, lines 68-72: decodePDF, then output; Thrown when decodePDF raises. */
    method Decode(infile: string, inflate: string -> string, decode: Renderer.EntityDecoder) returns (output: Outcome<string>)
      requires Valid()
      modifies this
      ensures Valid() && convertQuotes == old(convertQuotes)
      ensures output == if !EmptyFile(infile) && Gathered(infile, inflate).Thrown? then Thrown else Value(decodedText)
      ensures decodedText ==
        if EmptyFile(infile) || Gathered(infile, inflate).Thrown? then old(decodedText)
        else Text(Gathered(infile, inflate).value, multibyte, convertQuotes, decode)
    {
      var thrown := DecodePdf(infile, inflate, decode);
      if thrown {
        return Thrown;
      }
      return Value(decodedText);
    }
  }

  // ---------------------------------------------------------------------------------------------
  // The loop of lines 132-163

  /** Lines 137-151: the decoded stream of an object, unless it has none or is skipped. */
  method DecodeObject(currentObject: string, inflate: string -> string) returns (d: Option<Outcome<string>>)
    ensures d == ObjectData(currentObject, inflate)
  {
    d := None;
    var found := FirstMatch(StreamSpan, currentObject + "endstream\r");
    if found.Some? {
      var stream := LTrim(found.value.capture);
      var options := GetObjectOptions(currentObject);
      if !Guarded(options) {
        options := Remove(options, "Length");
        var data := StreamDecoder.GetDecodedStream(stream, options, inflate);
        d := Some(data);
      }
    }
  }

  /** Lines 153-161: $texts and $transformations after a decoded stream. */
  method ClassifyData(data: string, f: Found) returns (g: Found)
    ensures g == Classify(data, f)
  {
    g := f;
    if |data| > 0 {
      var containers := AllMatches(TextSpan, data + "ET\r", 0);
      if |containers| > 0 {
        var texts := TextOperators.GetDirtyTexts(f.texts, Captures(containers));
        g := f.(texts := texts);
      } else {
        var transformations := CMap.GetCharTransformations(f.table, data);
        g := f.(table := transformations);
      }
    }
  }

  /** One pass of the loop: $texts and $transformations after the object, or Thrown. */
  method ProcessObject(currentObject: string, f: Found, inflate: string -> string) returns (r: Outcome<Found>)
    ensures r == ObjectStep(currentObject, f, inflate)
  {
    var d := DecodeObject(currentObject, inflate);
    if d.None? {
      return Value(f);
    }
    if d.value.Thrown? {
      return Thrown;
    }
    var g := ClassifyData(d.value.value, f);
    return Value(g);
  }

  /** The passes of step over the objects from index i on, starting from acc and stopping at an exception. */
  function Rest(step: (string, Found, string -> string) -> Outcome<Found>, objects: seq<string>, i: nat,
                acc: Outcome<Found>, inflate: string -> string): Outcome<Found>
    decreases |objects| - i
  {
    if i >= |objects| || acc.Thrown? then acc
    else Rest(step, objects, i + 1, step(objects[i], acc.value, inflate), inflate)
  }

  /** The loop over the objects, starting from no texts and an empty table, left when a decoder raises. */
  method GatherObjects(objects: seq<string>, inflate: string -> string) returns (r: Outcome<Found>)
    ensures r == Rest(ObjectStep, objects, 0, Value(Found([], map[])), inflate)
  {
    r := Value(Found([], map[]));
    var i := 0;
    while i < |objects| && r.Value?
      invariant i <= |objects|
      invariant Rest(ObjectStep, objects, i, r, inflate) == Rest(ObjectStep, objects, 0, Value(Found([], map[])), inflate)
    {
      r := ProcessObject(objects[i], r.value, inflate);
      i := i + 1;
    }
  }

  // ---------------------------------------------------------------------------------------------
  // Properties

  /** Once a step has raised, the later objects change nothing: the exception escapes. */
  lemma {:induction false} CollectThrownSticks(step: (string, Found, string -> string) -> Outcome<Found>,
                                               objects: seq<string>, m: nat, n: nat, inflate: string -> string)
    requires m <= n <= |objects| && Collect(step, objects, m, inflate).Thrown?
    ensures Collect(step, objects, n, inflate).Thrown?
    decreases n - m
  {
    if m < n {
      CollectThrownSticks(step, objects, m + 1, n, inflate);
    }
  }

  /** Running the remaining objects on what the first i gave is running them all. */
  lemma {:induction false} RestCollect(step: (string, Found, string -> string) -> Outcome<Found>,
                                       objects: seq<string>, i: nat, inflate: string -> string)
    requires i <= |objects|
    ensures Rest(step, objects, i, Collect(step, objects, i, inflate), inflate) == Collect(step, objects, |objects|, inflate)
    decreases |objects| - i
  {
    if i < |objects| {
      if Collect(step, objects, i, inflate).Thrown? {
        CollectThrownSticks(step, objects, i, |objects|, inflate);
      } else {
        RestCollect(step, objects, i + 1, inflate);
      }
    }
  }

  /** A decoded stream adds texts or transformations, never both, and texts only at the end. */
  lemma ClassifyExclusive(data: string, f: Found)
    ensures Classify(data, f).texts == f.texts || Classify(data, f).table == f.table
    ensures f.texts <= Classify(data, f).texts
    ensures Classify(data, f).texts != f.texts ==> |data| > 0 && |TextObjects(data)| > 0
    ensures Classify(data, f).table != f.table ==> |data| > 0 && |TextObjects(data)| == 0
  {
  }

  /** Every pass of step keeps the texts gathered before it in front. */
  ghost predicate KeepsTexts(step: (string, Found, string -> string) -> Outcome<Found>)
  {
    forall obj, f, inflate :: step(obj, f, inflate).Value? ==> f.texts <= step(obj, f, inflate).value.texts
  }

  /** With such a step, what the first m objects gave stays in front of what n objects give. */
  lemma {:induction false} CollectKeepsTexts(step: (string, Found, string -> string) -> Outcome<Found>,
                                             objects: seq<string>, m: nat, n: nat, inflate: string -> string)
    requires KeepsTexts(step)
    requires m <= n <= |objects| && Collect(step, objects, n, inflate).Value?
    ensures Collect(step, objects, m, inflate).Value?
    ensures Collect(step, objects, m, inflate).value.texts <= Collect(step, objects, n, inflate).value.texts
    decreases n - m
  {
    if Collect(step, objects, m, inflate).Thrown? {
      CollectThrownSticks(step, objects, m, n, inflate);
    } else if m < n {
      CollectKeepsTexts(step, objects, m + 1, n, inflate);
    }
  }

  /** Texts are gathered in the order the objects come: what the first m objects gave stays in front. */
  lemma TextsInOrder(objects: seq<string>, m: nat, n: nat, inflate: string -> string)
    requires m <= n <= |objects| && Collect(ObjectStep, objects, n, inflate).Value?
    ensures Collect(ObjectStep, objects, m, inflate).Value?
    ensures Collect(ObjectStep, objects, m, inflate).value.texts <= Collect(ObjectStep, objects, n, inflate).value.texts
  {
    forall obj, f, inflate | ObjectStep(obj, f, inflate).Value?
      ensures f.texts <= ObjectStep(obj, f, inflate).value.texts
    {
      StepKeepsTexts(obj, f, inflate);
    }
    CollectKeepsTexts(ObjectStep, objects, m, n, inflate);
  }

  /** One object keeps the texts gathered before it in front. */
  lemma StepKeepsTexts(obj: string, f: Found, inflate: string -> string)
    requires ObjectStep(obj, f, inflate).Value?
    ensures f.texts <= ObjectStep(obj, f, inflate).value.texts
  {
    match StreamOf(obj)
    case None =>
    case Some(stream) =>
      var options := ObjectOptions(obj);
      if !Guarded(options) {
        ObjectOptionsDistinct(obj);
        var data := StreamDecoder.DecodedStream(stream, Remove(options, "Length"), inflate).value;
        ClassifyExclusive(data, f);
      }
  }

  /** A font file or an image is skipped, whatever its stream holds. */
  lemma GuardedObjectSkipped(obj: string, f: Found, inflate: string -> string)
    requires !StreamDecoder.IsEmpty(Lookup(ObjectOptions(obj), "Length1")) ||
             !StreamDecoder.IsEmpty(Lookup(ObjectOptions(obj), "Type")) ||
             !StreamDecoder.IsEmpty(Lookup(ObjectOptions(obj), "Subtype"))
    ensures ObjectStep(obj, f, inflate) == Value(f)
  {
  }

  /**
   * Length is unset before the filters run, so the stream is never cut: with no Filter it is
   * returned as it is, otherwise the whole of it goes through the filter chain.
   */
  lemma UnsetLengthNeverCuts(stream: string, options: Dict, inflate: string -> string)
    requires DistinctKeys(options)
    ensures StreamDecoder.DecodedStream(stream, Remove(options, "Length"), inflate) ==
      if StreamDecoder.IsEmpty(Lookup(options, "Filter")) then Value(stream)
      else StreamDecoder.Chain(Keys(Remove(options, "Length")), stream, inflate)
  {
    RemoveLookup(options, "Length", "Filter");
    assert Substr(stream, 0, |stream|) == stream;
  }
}
