/**
 * getDirtyTexts (Pdf2text.php lines 398-419): for each BT ... ET text object, the bodies of its
 * "[...] TJ" operators are joined; when it has none, the "(...)" strings of its Td, Tw, Tm or Tf
 * operators followed by Tj (the pattern keeps the parentheses); when it has none of those
 * either, the "[...]" arrays of such operators followed by Tj. A text object that matches none
 * of the three adds nothing.
 */
module TextOperators {
  import opened Php
  import opened Scanner

  /** The joined captures of every match of pat in the container, when there is one. */
  function Joined(pat: Pattern, container: string): Option<string>
  {
    var ms := AllMatches(pat, container, 0);
    if |ms| == 0 then None else Some(Concat(Captures(ms)))
  }

  /** The text a container contributes, if any (the if / elseif chain of lines 401-416). */
  function DirtyText(container: string): Option<string>
  {
    match Joined(TJArray, container)
    case Some(t) => Some(t)
    case None =>
      match Joined(TdString, container)
      case Some(t) => Some(t)
      case None => Joined(TdArray, container)
  }

  /** The texts present in a list of optional texts, in order. */
  function Present(xs: seq<Option<string>>): seq<string>
    decreases |xs|
  {
    if |xs| == 0 then []
    else
      var n := |xs| - 1;
      if xs[n].Some? then Present(xs[..n]) + [xs[n].value] else Present(xs[..n])
  }

  /** f applied to every element, in order. */
  function MapAll(f: string -> Option<string>, xs: seq<string>): (ys: seq<Option<string>>)
    ensures |ys| == |xs| && forall i :: 0 <= i < |xs| ==> ys[i] == f(xs[i])
  {
    seq(|xs|, i requires 0 <= i < |xs| => f(xs[i]))
  }

  /** What each container contributes, in order. */
  function TextsOf(containers: seq<string>): (xs: seq<Option<string>>)
    ensures |xs| == |containers|
  {
    MapAll(DirtyText, containers)
  }

  /** The texts added for a list of containers, in order. */
  function DirtyTexts(containers: seq<string>): seq<string>
  {
    Present(TextsOf(containers))
  }

  /** getDirtyTexts, lines 398-419: $texts is passed by reference, so the method returns it extended. */
  method GetDirtyTexts(texts: seq<string>, containers: seq<string>) returns (r: seq<string>)
    ensures r == texts + DirtyTexts(containers)
  {
    r := texts;
    var j := 0;
    while j < |containers|
      invariant 0 <= j <= |containers|
      invariant r == texts + DirtyTexts(containers[..j])
    {
      assert containers[..j + 1][..j] == containers[..j];
      assert TextsOf(containers[..j + 1])[..j] == TextsOf(containers[..j]);
      var parts := AllMatches(TJArray, containers[j], 0);
      if |parts| > 0 {
        r := r + [Concat(Captures(parts))];
      } else {
        parts := AllMatches(TdString, containers[j], 0);
        if |parts| > 0 {
          r := r + [Concat(Captures(parts))];
        } else {
          parts := AllMatches(TdArray, containers[j], 0);
          if |parts| > 0 {
            r := r + [Concat(Captures(parts))];
          }
        }
      }
      j := j + 1;
    }
    assert containers[..|containers|] == containers;
  }

  // ---------------------------------------------------------------------------------------------
  // Properties

  lemma {:induction false} PresentAppend(a: seq<Option<string>>, b: seq<Option<string>>)
    ensures Present(a + b) == Present(a) + Present(b)
    decreases |b|
  {
    if |b| > 0 {
      var n := |b| - 1;
      assert (a + b)[..|a + b| - 1] == a + b[..n];
      assert (a + b)[|a + b| - 1] == b[n];
      PresentAppend(a, b[..n]);
      assert Present(a + b) == if b[n].Some? then Present(a + b[..n]) + [b[n].value] else Present(a + b[..n]);
      assert Present(b) == if b[n].Some? then Present(b[..n]) + [b[n].value] else Present(b[..n]);
    } else {
      assert a + b == a;
    }
  }

  lemma {:induction false} PresentCount(xs: seq<Option<string>>)
    ensures |Present(xs)| <= |xs|
    ensures |Present(xs)| == |xs| <==> forall i :: 0 <= i < |xs| ==> xs[i].Some?
    decreases |xs|
  {
    if |xs| > 0 {
      var n := |xs| - 1;
      PresentCount(xs[..n]);
      assert forall i :: 0 <= i < n ==> xs[..n][i] == xs[i];
    }
  }

  /** The containers are handled one by one: the texts of a concatenation are the concatenated texts. */
  lemma DirtyTextsAppend(a: seq<string>, b: seq<string>)
    ensures DirtyTexts(a + b) == DirtyTexts(a) + DirtyTexts(b)
  {
    TextsOfAppend(a, b);
    PresentAppend(TextsOf(a), TextsOf(b));
  }

  lemma TextsOfAppend(a: seq<string>, b: seq<string>)
    ensures TextsOf(a + b) == TextsOf(a) + TextsOf(b)
  {
    MapAllAppend(DirtyText, a, b);
  }

  lemma MapAllAppend(f: string -> Option<string>, a: seq<string>, b: seq<string>)
    ensures MapAll(f, a + b) == MapAll(f, a) + MapAll(f, b)
  {
    var x := MapAll(f, a + b);
    var y := MapAll(f, a) + MapAll(f, b);
    forall i | 0 <= i < |x|
      ensures x[i] == y[i]
    {
      if i < |a| {
        assert (a + b)[i] == a[i];
      } else {
        assert (a + b)[i] == b[i - |a|];
      }
    }
  }

  /** Each container adds at most one text, and exactly one when it has a match. */
  lemma DirtyTextsCount(containers: seq<string>)
    ensures |DirtyTexts(containers)| <= |containers|
    ensures |DirtyTexts(containers)| == |containers| <==> forall i :: 0 <= i < |containers| ==> DirtyText(containers[i]).Some?
  {
    PresentCount(TextsOf(containers));
  }

  /**
   * The third pattern is never used: an operator "T? [...] Tj" contains the array "[...] Tj", which
   * the first pattern matches, since the /i flag makes its TJ match Tj too.
   */
  lemma TdArrayShadowed(container: string)
    ensures DirtyText(container) ==
      match Joined(TJArray, container)
      case Some(t) => Some(t)
      case None => Joined(TdString, container)
  {
    var t := Table(TdArray, container);
    if |AllFrom(t, 0)| > 0 {
      AllFromMember(t, 0, 0);
      var p := AllFrom(t, 0)[0].start;
      MatchAtShape(TdArray, container, p);
      var o := Open(TdArray, container, p).value;
      var k := MatchAt(TdArray, container, p).value.closeAt;
      OpenTdArray(container, p);
      CloseTdArray(container, k);
      MatchAtFound(TJArray, container, o.capStart, k);
      SomeMatchFound(Table(TJArray, container), 0, o.capStart);
    }
  }

  /** The strings the second pattern captures keep their parentheses. */
  lemma TdStringParenthesised(container: string, i: nat)
    requires i < |AllMatches(TdString, container, 0)|
    ensures var c := AllMatches(TdString, container, 0)[i].capture;
      |c| >= 2 && c[0] == '(' && c[|c| - 1] == ')'
  {
    var t := Table(TdString, container);
    AllFromMember(t, 0, i);
    var m := AllFrom(t, 0)[i];
    assert MatchAt(TdString, container, m.start) == Some(m);
    TdStringCapture(container, m.start);
  }

  lemma TdStringCapture(s: string, p: nat)
    requires MatchAt(TdString, s, p).Some?
    ensures var c := MatchAt(TdString, s, p).value.capture; |c| >= 2 && c[0] == '(' && c[|c| - 1] == ')'
  {
    var m := MatchAt(TdString, s, p).value;
    MatchAtShape(TdString, s, p);
    OpenTdString(s, p);
    CloseTdString(s, m.closeAt);
    var b := Open(TdString, s, p).value.capStart;
    var e := Close(TdString, s, m.closeAt).value.capEnd;
    assert b < m.closeAt < e;
    var c := s[b..e];
    assert c[0] == s[b] && c[e - b - 1] == s[e - 1];
  }
}
