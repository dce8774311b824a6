/**
 * The two `StringLookup` layers built from the tokenizer's vocabulary (word to index and
 * index to word), and the single-space join that turns caption words into a string.
 * The vocabulary is a sequence of words; a word's index is its position in it.
 */
module Vocabulary {

  /** The index a lookup gives to a word that is not in the vocabulary. */
  const OovIndex: nat := 1
  /** The word an inverse lookup gives to an index outside the vocabulary. */
  const OovWord: string := "[UNK]"

  /** Every word occurs at most once, as a tokenizer vocabulary does. */
  predicate Distinct(words: seq<string>) {
    forall i, j :: 0 <= i < j < |words| ==> words[i] != words[j]
  }

  /** `word_to_index`: the first position of `w`, or the out-of-vocabulary index. */
  function WordToIndex(words: seq<string>, w: string): (i: nat)
    ensures w in words ==> i < |words| && words[i] == w && w !in words[..i]
    ensures w !in words ==> i == OovIndex
  {
    if w !in words then OovIndex
    else if words[0] == w then 0
    else 1 + WordToIndex(words[1..], w)
  }

  /** `index_to_word`: the word at position `i`, or the out-of-vocabulary word. */
  function IndexToWord(words: seq<string>, i: int): (w: string)
    ensures 0 <= i < |words| ==> w in words
    ensures !(0 <= i < |words|) ==> w == OovWord
  {
    if 0 <= i < |words| then words[i] else OovWord
  }

  /** Looking a vocabulary word up and back gives the word again. */
  lemma WordRoundTrip(words: seq<string>, w: string)
    requires w in words
    ensures IndexToWord(words, WordToIndex(words, w)) == w
  {
  }

  /** In a vocabulary without repeated words, an index looked up and back gives the index again. */
  lemma IndexRoundTrip(words: seq<string>, i: int)
    requires Distinct(words) && 0 <= i < |words|
    ensures WordToIndex(words, IndexToWord(words, i)) == i
  {
  }

  /**
   * With distinct words, an index maps to a vocabulary word other than the
   * out-of-vocabulary word exactly when the word's lookup gives that index.
   */
  lemma IndexToWordIff(words: seq<string>, i: int, w: string)
    requires Distinct(words) && w in words && w != OovWord
    ensures IndexToWord(words, i) == w <==> i == WordToIndex(words, w)
  {
    if 0 <= i < |words| {
      IndexRoundTrip(words, i);
    }
    WordRoundTrip(words, w);
  }

  /** `tf.strings.reduce_join(words, separator=' ')`. */
  function Join(words: seq<string>): (s: string)
    ensures words == [] ==> s == ""
    ensures |words| == 1 ==> s == words[0]
    ensures |words| > 0 ==> |s| == TotalLength(words) + |words| - 1
  {
    if words == [] then ""
    else if |words| == 1 then words[0]
    else words[0] + " " + Join(words[1..])
  }

  function TotalLength(words: seq<string>): nat {
    if words == [] then 0 else |words[0]| + TotalLength(words[1..])
  }

  /** The number of spaces in a string. */
  function Spaces(s: string): nat {
    if s == [] then 0 else (if s[0] == ' ' then 1 else 0) + Spaces(s[1..])
  }

  predicate NoSpaces(words: seq<string>) {
    forall k :: 0 <= k < |words| ==> ' ' !in words[k]
  }

  /** Splitting on single spaces: the partner of Join. */
  function Split(s: string): (words: seq<string>)
    ensures |words| > 0
    decreases |s|
  {
    if ' ' !in s then [s]
    else
      var i := FirstSpace(s);
      [s[..i]] + Split(s[i + 1..])
  }

  function FirstSpace(s: string): (i: nat)
    requires ' ' in s
    ensures i < |s| && s[i] == ' ' && ' ' !in s[..i]
  {
    if s[0] == ' ' then 0 else 1 + FirstSpace(s[1..])
  }

  lemma {:induction false} SpacesConcat(a: string, b: string)
    ensures Spaces(a + b) == Spaces(a) + Spaces(b)
  {
    if a != [] {
      assert (a + b)[0] == a[0] && (a + b)[1..] == a[1..] + b;
      SpacesConcat(a[1..], b);
    } else {
      assert a + b == b;
    }
  }

  lemma {:induction false} NoSpaceHasNoSpaces(s: string)
    requires ' ' !in s
    ensures Spaces(s) == 0
  {
    if s != [] {
      NoSpaceHasNoSpaces(s[1..]);
    }
  }

  /** Joining words that contain no space puts exactly one space between neighbours. */
  lemma {:induction false} JoinSpaces(words: seq<string>)
    requires |words| > 0 && NoSpaces(words)
    ensures Spaces(Join(words)) == |words| - 1
  {
    NoSpaceHasNoSpaces(words[0]);
    if |words| > 1 {
      JoinSpaces(words[1..]);
      SpacesConcat(words[0], " ");
      SpacesConcat(words[0] + " ", Join(words[1..]));
    }
  }

  lemma FirstSpaceAfterWord(w: string, rest: string)
    requires ' ' !in w
    ensures ' ' in w + " " + rest && FirstSpace(w + " " + rest) == |w|
    ensures (w + " " + rest)[..|w|] == w && (w + " " + rest)[|w| + 1..] == rest
  {
    var s := w + " " + rest;
    assert s[|w|] == ' ';
  }

  /** Joining words without spaces and splitting the result gives the words back. */
  lemma {:induction false} SplitJoin(words: seq<string>)
    requires |words| > 0 && NoSpaces(words)
    ensures Split(Join(words)) == words
  {
    if |words| > 1 {
      FirstSpaceAfterWord(words[0], Join(words[1..]));
      SplitJoin(words[1..]);
    }
  }
}
