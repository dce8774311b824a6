/**
 * Caption text standardisation (`standardize` in caption.py): ASCII lower-casing,
 * removal of every ASCII punctuation character, and wrapping in start/end markers.
 */
module Text {

  /** The characters of Python's `string.punctuation`, in its order. */
  const Punctuation: string := "!\"#$%&'()*+,-./:;<=>?@[\\]^_`{|}~"

  const StartMarker: string := "[START]"
  const EndMarker: string := "[END]"

  /** The four ASCII ranges that make up `Punctuation` (see PunctuationRanges). */
  predicate IsPunctuation(c: char) {
    || '!' <= c <= '/'
    || ':' <= c <= '@'
    || '[' <= c <= '`'
    || '{' <= c <= '~'
  }

  lemma PunctuationRanges(c: char)
    ensures IsPunctuation(c) <==> c in Punctuation
  {
    if IsPunctuation(c) {
      var k := if c <= '/' then c as int - 33
               else if c <= '@' then c as int - 58 + 15
               else if c <= '`' then c as int - 91 + 22
               else c as int - 123 + 28;
      assert Punctuation[k] == c;
    } else {
      forall k | 0 <= k < |Punctuation|
        ensures Punctuation[k] != c
      {
        PunctuationInRanges(k);
      }
    }
  }

  lemma PunctuationInRanges(k: nat)
    requires k < |Punctuation|
    ensures IsPunctuation(Punctuation[k])
  {
  }

  predicate IsUpper(c: char) {
    'A' <= c <= 'Z'
  }

  /** ASCII lower-casing of one character; every other character is kept. */
  function LowerChar(c: char): (r: char)
    ensures !IsUpper(r)
    ensures IsUpper(c) ==> 'a' <= r <= 'z' && r as int - c as int == 32
    ensures !IsUpper(c) ==> r == c
  {
    if IsUpper(c) then (c as int + 32) as char else c
  }

  /** A string with no ASCII upper-case letter and no ASCII punctuation. */
  predicate IsNormal(s: string) {
    forall i :: 0 <= i < |s| ==> !IsUpper(s[i]) && !IsPunctuation(s[i])
  }

  /** `tf.strings.lower`: lower-cases the ASCII letters, position by position. */
  function Lower(s: string): (r: string)
    ensures |r| == |s|
    ensures forall i :: 0 <= i < |s| ==> !IsUpper(r[i])
    ensures forall i :: 0 <= i < |s| && !IsUpper(s[i]) ==> r[i] == s[i]
    ensures forall i :: 0 <= i < |s| && IsUpper(s[i]) ==> r[i] as int == s[i] as int + 32
  {
    seq(|s|, i requires 0 <= i < |s| => LowerChar(s[i]))
  }

  /** `tf.strings.regex_replace` with the punctuation class: drops every punctuation character. */
  function StripPunctuation(s: string): (r: string)
    ensures |r| <= |s|
    ensures forall i :: 0 <= i < |r| ==> !IsPunctuation(r[i])
    ensures forall i :: 0 <= i < |r| ==> r[i] in s
  {
    if s == [] then []
    else if IsPunctuation(s[0]) then StripPunctuation(s[1..])
    else [s[0]] + StripPunctuation(s[1..])
  }

  /** The middle part of a standardised caption: lower-cased, then stripped of punctuation. */
  function Normalize(s: string): (m: string)
    ensures IsNormal(m)
    ensures |m| <= |s|
  {
    StripPunctuation(Lower(s))
  }

  /** `standardize`: the normalised text between the two markers, joined with single spaces. */
  function Standardize(s: string): (r: string)
    ensures |r| == |Normalize(s)| + 14
    ensures r[..8] == "[START] " && r[|r| - 6..] == " [END]"
    ensures IsNormal(r[8..|r| - 6])
    ensures r[8..|r| - 6] == Normalize(s)
  {
    StartMarker + " " + Normalize(s) + " " + EndMarker
  }

  /** Stripping removes exactly the punctuation: every other character keeps its count. */
  lemma {:induction false} StripPunctuationCounts(s: string, c: char)
    ensures multiset(StripPunctuation(s))[c] == if IsPunctuation(c) then 0 else multiset(s)[c]
  {
    if s != [] {
      StripPunctuationCounts(s[1..], c);
      assert s == [s[0]] + s[1..];
    }
  }

  /** Stripping works character by character, so it distributes over concatenation. */
  lemma {:induction false} StripPunctuationConcat(a: string, b: string)
    ensures StripPunctuation(a + b) == StripPunctuation(a) + StripPunctuation(b)
  {
    if a == [] {
      assert a + b == b;
    } else {
      assert (a + b)[1..] == a[1..] + b;
      StripPunctuationConcat(a[1..], b);
    }
  }

  /** Lower-casing distributes over concatenation. */
  lemma LowerConcat(a: string, b: string)
    ensures Lower(a + b) == Lower(a) + Lower(b)
  {
    assert forall i :: 0 <= i < |a + b| ==> Lower(a + b)[i] == (Lower(a) + Lower(b))[i];
  }

  /** The two steps of the pipeline commute: no punctuation character is an upper-case letter. */
  lemma {:induction false} LowerStripCommute(s: string)
    ensures StripPunctuation(Lower(s)) == Lower(StripPunctuation(s))
  {
    if s != [] {
      var c, rest := s[0], s[1..];
      assert s == [c] + rest;
      LowerStripCommute(rest);
      LowerConcat([c], rest);
      StripPunctuationConcat([LowerChar(c)], Lower(rest));
      StripPunctuationConcat([c], rest);
      LowerConcat(StripPunctuation([c]), StripPunctuation(rest));
      StripChar(c);
      StripChar(LowerChar(c));
      assert Lower([c]) == [LowerChar(c)];
    }
  }

  lemma StripChar(c: char)
    ensures StripPunctuation([c]) == if IsPunctuation(c) then [] else [c]
  {
    assert [c][1..] == [];
  }

  /** Normalisation leaves a string unchanged exactly when it is already normal. */
  lemma {:induction false} NormalizeFixpoint(s: string)
    ensures Normalize(s) == s <==> IsNormal(s)
  {
    if IsNormal(s) {
      NormalIsUnchanged(s);
    }
  }

  lemma {:induction false} NormalIsUnchanged(s: string)
    requires IsNormal(s)
    ensures Lower(s) == s && StripPunctuation(s) == s
  {
    if s != [] {
      NormalIsUnchanged(s[1..]);
    }
  }

  /** Standardising twice does not change the middle part any further. */
  lemma NormalizeIdempotent(s: string)
    ensures Normalize(Normalize(s)) == Normalize(s)
  {
    NormalizeFixpoint(Normalize(s));
  }

  /** Normalisation distributes over concatenation. */
  lemma NormalizeConcat(a: string, b: string)
    ensures Normalize(a + b) == Normalize(a) + Normalize(b)
  {
    LowerConcat(a, b);
    StripPunctuationConcat(Lower(a), Lower(b));
  }

  lemma NormalizeChar(c: char)
    ensures Normalize([c]) == if IsPunctuation(c) then [] else [LowerChar(c)]
  {
    assert Lower([c]) == [LowerChar(c)];
  }

  lemma StartMarkerNormalizes()
    ensures Normalize(StartMarker + " ") == "start "
  {
    assert StartMarker + " " == "[" + "START" + "]" + " ";
    NormalizeConcat("[" + "START" + "]", " ");
    NormalizeConcat("[" + "START", "]");
    NormalizeConcat("[", "START");
    NormalizeChar('[');
    NormalizeChar(']');
    NormalizeChar(' ');
    StartWordNormalizes();
  }

  lemma StartWordNormalizes()
    ensures Normalize("START") == "start"
  {
    assert Lower("START") == "start";
    NormalIsUnchanged("start");
  }

  lemma EndMarkerNormalizes()
    ensures Normalize(" " + EndMarker) == " end"
  {
    assert " " + EndMarker == " " + "[" + "END" + "]";
    NormalizeConcat(" " + "[" + "END", "]");
    NormalizeConcat(" " + "[", "END");
    NormalizeConcat(" ", "[");
    NormalizeChar('[');
    NormalizeChar(']');
    NormalizeChar(' ');
    EndWordNormalizes();
  }

  lemma EndWordNormalizes()
    ensures Normalize("END") == "end"
  {
    assert Lower("END") == "end";
    NormalIsUnchanged("end");
  }

  /**
   * The markers carry punctuation, so they survive only because they are added after
   * stripping: standardising a standardised caption again turns them into plain words.
   */
  lemma MarkersDoNotSurviveRestandardizing(s: string)
    ensures Normalize(Standardize(s)) == "start " + Normalize(s) + " end"
  {
    var m := Normalize(s);
    NormalizeIdempotent(s);
    assert Standardize(s) == (StartMarker + " ") + m + (" " + EndMarker);
    NormalizeConcat((StartMarker + " ") + m, " " + EndMarker);
    NormalizeConcat(StartMarker + " ", m);
    StartMarkerNormalizes();
    EndMarkerNormalizes();
  }
}
