/**
 * The captioner's forward pass, seen from the generation loop, and greedy caption
 * generation (`Captioner.call` and `Captioner.simple_gen` in caption.py).
 *
 * The network proper (token and position embedding, the decoder layers and the output
 * layer) is an uninterpreted function from the flattened image features and a token
 * sequence to one logit row per token; logits are integers. The feature extractor is an
 * uninterpreted function from an image to a feature grid.
 */
module Generation {
  import opened Wrappers
  import opened Positions
  import opened Vocabulary
  import opened Text

  /** The number of loop iterations, and so of forward passes, `simple_gen` allows. */
  const MaxSteps: nat := 50

  /** The failures a forward pass can raise before or after the network runs. */
  datatype PassError =
    | PositionOutOfRange(length: nat)  // the sequence is longer than the position table
    | EmptyLogits                      // there is no last logit row, or it has no entry

  /** The parts of a captioner that generation depends on. */
  datatype Captioner<!I, !C> = Captioner(
    vocabulary: seq<string>,
    maxLength: nat,
    extract: I -> seq<seq<C>>,
    network: (seq<C>, seq<int>) -> seq<seq<int>>)

  /** `word_to_index('[START]')`: the marker's position, or the out-of-vocabulary index. */
  function StartId<I, C>(c: Captioner<I, C>): (id: nat)
    ensures StartMarker in c.vocabulary ==> id < |c.vocabulary| && c.vocabulary[id] == StartMarker
    ensures StartMarker !in c.vocabulary ==> id == OovIndex
  {
    WordToIndex(c.vocabulary, StartMarker)
  }

  /** `word_to_index('[END]')`: the marker's position, or the out-of-vocabulary index. */
  function EndId<I, C>(c: Captioner<I, C>): (id: nat)
    ensures EndMarker in c.vocabulary ==> id < |c.vocabulary| && c.vocabulary[id] == EndMarker
    ensures EndMarker !in c.vocabulary ==> id == OovIndex
  {
    WordToIndex(c.vocabulary, EndMarker)
  }

  /**
   * One forward pass on an already extracted feature grid: the grid is flattened, the
   * token sequence's positions are looked up in the position table, and the network
   * gives the logits.
   */
  function Forward<I, C>(c: Captioner<I, C>, features: seq<seq<C>>, tokens: seq<int>)
    : (r: Result<seq<seq<int>>, PassError>)
    ensures r.Ok? <==> |tokens| <= c.maxLength
    ensures r.Err? ==> r.error == PositionOutOfRange(|tokens|)
    ensures r.Ok? ==> r.value == c.network(Flatten(features), tokens)
  {
    match PositionIndices(c.maxLength, |tokens|)
    case Err(_) => Err(PositionOutOfRange(|tokens|))
    case Ok(_) => Ok(c.network(Flatten(features), tokens))
  }

  /** A forward pass followed by taking the logits at the last position only. */
  function LastRow<I, C>(c: Captioner<I, C>, features: seq<seq<C>>, tokens: seq<int>)
    : (r: Result<seq<int>, PassError>)
    ensures r.Ok? ==> |tokens| <= c.maxLength && |r.value| > 0
    ensures r.Ok? ==> var preds := c.network(Flatten(features), tokens);
                      |preds| > 0 && r.value == preds[|preds| - 1]
    ensures |tokens| > c.maxLength ==> r == Err(PositionOutOfRange(|tokens|))
    ensures r.Err? ==> r.error == EmptyLogits || r.error == PositionOutOfRange(|tokens|)
    ensures |tokens| <= c.maxLength && r.Err? ==> r.error == EmptyLogits
    ensures (|tokens| <= c.maxLength
             && var preds := c.network(Flatten(features), tokens); |preds| > 0 && |preds[|preds| - 1]| > 0)
            ==> r.Ok?
  {
    match Forward(c, features, tokens)
    case Err(e) => Err(e)
    case Ok(preds) =>
      if |preds| == 0 || |preds[|preds| - 1]| == 0 then Err(EmptyLogits)
      else Ok(preds[|preds| - 1])
  }

  /** `j` is an arg-max of `row`: no logit in the row is larger than the one at `j`. */
  predicate IsArgMax(row: seq<int>, j: int) {
    0 <= j < |row| && forall k :: 0 <= k < |row| ==> row[k] <= row[j]
  }

  /** Every non-empty row has an arg-max (possibly several, when logits tie). */
  lemma {:induction false} ArgMaxExists(row: seq<int>) returns (j: nat)
    requires |row| > 0
    ensures IsArgMax(row, j)
  {
    if |row| == 1 {
      j := 0;
    } else {
      var front := row[..|row| - 1];
      var i := ArgMaxExists(front);
      assert forall k :: 0 <= k < |row| - 1 ==> row[k] == front[k];
      j := if row[|row| - 1] > row[i] then |row| - 1 else i;
    }
  }

  /** `next` is a greedy choice after `prefix`: an arg-max of the last logit row. */
  ghost predicate GreedyChoice<I, C>(c: Captioner<I, C>, features: seq<seq<C>>, prefix: seq<int>, next: int) {
    LastRow(c, features, prefix).Ok? && IsArgMax(LastRow(c, features, prefix).value, next)
  }

  /**
   * The token sequences greedy generation can hold: the start index, then at most
   * MaxSteps greedy choices, with the end index at most as the last one.
   */
  ghost predicate IsRun<I, C>(c: Captioner<I, C>, features: seq<seq<C>>, tokens: seq<int>) {
    && 1 <= |tokens| <= MaxSteps + 1
    && tokens[0] == StartId(c)
    && (forall k :: 1 <= k < |tokens| ==> GreedyChoice(c, features, tokens[..k], tokens[k]))
    && (forall k :: 1 <= k < |tokens| - 1 ==> tokens[k] != EndId(c))
  }

  /** A run that has not stopped extends by any greedy choice to a longer run. */
  lemma ExtendRun<I, C>(c: Captioner<I, C>, features: seq<seq<C>>, t: seq<int>, next: int)
    requires IsRun(c, features, t) && |t| <= MaxSteps && GreedyChoice(c, features, t, next)
    requires |t| >= 2 ==> t[|t| - 1] != EndId(c)
    ensures IsRun(c, features, t + [next])
  {
    var u := t + [next];
    assert u[..|t|] == t;
    forall k | 1 <= k < |u|
      ensures GreedyChoice(c, features, u[..k], u[k])
    {
      if k < |t| {
        assert u[..k] == t[..k];
      }
    }
  }

  /** Generation stops: the end index was just appended, or every step was taken. */
  predicate Stopped<I, C>(c: Captioner<I, C>, tokens: seq<int>) {
    |tokens| >= 2 && (tokens[|tokens| - 1] == EndId(c) || |tokens| == MaxSteps + 1)
  }

  /** A run that generation cannot continue: it stopped, or its next pass fails. */
  ghost predicate Terminal<I, C>(c: Captioner<I, C>, features: seq<seq<C>>, tokens: seq<int>) {
    Stopped(c, tokens) || LastRow(c, features, tokens).Err?
  }

  /** `tokens[0, 1:-1]`: the first and the last token are dropped, whatever they are. */
  function InnerTokens(tokens: seq<int>): (inner: seq<int>)
    ensures |tokens| >= 2 ==> |inner| == |tokens| - 2
    ensures forall k :: 0 <= k < |inner| ==> k + 1 < |tokens| && inner[k] == tokens[k + 1]
    ensures |tokens| < 2 ==> inner == []
  {
    if |tokens| < 2 then [] else tokens[1..|tokens| - 1]
  }

  /** The words of the caption: the inverse vocabulary lookup of the inner tokens. */
  function CaptionWords(vocabulary: seq<string>, tokens: seq<int>): (words: seq<string>)
    ensures |words| == |InnerTokens(tokens)|
    ensures forall k :: 0 <= k < |words| ==> k + 1 < |tokens| && words[k] == IndexToWord(vocabulary, tokens[k + 1])
  {
    var inner := InnerTokens(tokens);
    seq(|inner|, k requires 0 <= k < |inner| => IndexToWord(vocabulary, inner[k]))
  }

  /** The caption string: the caption words joined with single spaces. */
  function Caption(vocabulary: seq<string>, tokens: seq<int>): (s: string)
    ensures |tokens| <= 2 ==> s == ""
    ensures |tokens| > 2 ==> |s| >= |tokens| - 3
  {
    Join(CaptionWords(vocabulary, tokens))
  }

  /** What generation returns once the run is terminal. */
  ghost function Outcome<I, C>(c: Captioner<I, C>, features: seq<seq<C>>, tokens: seq<int>)
    : Result<string, PassError>
    requires Terminal(c, features, tokens)
  {
    if Stopped(c, tokens) then Ok(Caption(c.vocabulary, tokens))
    else Err(LastRow(c, features, tokens).error)
  }

  /** Logging the pass on `current` keeps pass `k` equal to the first `k+1` tokens after `next` is appended. */
  lemma RecordPass(passes: seq<seq<int>>, current: seq<int>, next: int)
    requires |passes| + 1 == |current|
    requires forall k :: 0 <= k < |passes| ==> passes[k] == current[..k + 1]
    ensures forall k :: 0 <= k < |passes| + 1 ==> (passes + [current])[k] == (current + [next])[..k + 1]
  {
    var u := current + [next];
    forall k | 0 <= k < |passes| + 1
      ensures (passes + [current])[k] == u[..k + 1]
    {
      if k < |passes| {
        assert u[..k + 1] == current[..k + 1];
      } else {
        assert u[..k + 1] == current;
      }
    }
  }

  /** A pass on at most one token more than the position table fails in one of two ways. */
  lemma FailedPass<I, C>(c: Captioner<I, C>, features: seq<seq<C>>, tokens: seq<int>)
    requires |tokens| <= c.maxLength + 1 && LastRow(c, features, tokens).Err?
    ensures LastRow(c, features, tokens).error == EmptyLogits
         || LastRow(c, features, tokens).error == PositionOutOfRange(c.maxLength + 1)
  {
  }

  /**
   * The loop of `simple_gen`: from the start token, at most MaxSteps forward passes, each
   * appending an arg-max of the last logit row, stopping right after the end token. The
   * ghost outputs are the final token sequence (also when a pass fails) and the token
   * sequence each forward pass received.
   */
  method GreedyTokens<I, C>(c: Captioner<I, C>, features: seq<seq<C>>)
    returns (r: Result<seq<int>, PassError>, ghost tokens: seq<int>, ghost passes: seq<seq<int>>)
    ensures r.Ok? ==> IsRun(c, features, r.value) && Stopped(c, r.value)
    ensures r.Err? ==> r.error == EmptyLogits || r.error == PositionOutOfRange(c.maxLength + 1)
    ensures IsRun(c, features, tokens) && Terminal(c, features, tokens)
    ensures r.Ok? <==> Stopped(c, tokens)
    ensures r.Ok? ==> r.value == tokens && |passes| == |tokens| - 1
    ensures r.Err? ==> r.error == LastRow(c, features, tokens).error && |passes| == |tokens|
    ensures forall k :: 0 <= k < |passes| ==> passes[k] == tokens[..k + 1] && |passes[k]| <= MaxSteps
  {
    var current := [StartId(c)];
    passes := [];
    for n := 0 to MaxSteps
      invariant |current| == n + 1 && n <= c.maxLength
      invariant IsRun(c, features, current)
      invariant forall k :: 1 <= k < |current| ==> current[k] != EndId(c)
      invariant |passes| == n
      invariant forall k :: 0 <= k < n ==> passes[k] == current[..k + 1]
    {
      var preds := LastRow(c, features, current);
      if preds.Err? {
        FailedPass(c, features, current);
        assert current[..n + 1] == current;
        passes := passes + [current];
        tokens := current;
        r := Err(preds.error);
        return;
      }
      var row := preds.value;
      ghost var peak := ArgMaxExists(row);
      var next :| 0 <= next < |row| && IsArgMax(row, next);
      ExtendRun(c, features, current, next);
      RecordPass(passes, current, next);
      passes := passes + [current];
      current := current + [next];
      if next == EndId(c) {
        break;
      }
    }
    tokens := current;
    r := Ok(current);
  }

  /**
   * `simple_gen`: the features are extracted once, the greedy loop runs, and the tokens
   * between the first and the last become the caption.
   */
  method SimpleGen<I, C>(c: Captioner<I, C>, image: I)
    returns (r: Result<string, PassError>, ghost tokens: seq<int>, ghost passes: seq<seq<int>>)
    ensures r.Ok? ==> exists t :: IsRun(c, c.extract(image), t) && Stopped(c, t) && r.value == Caption(c.vocabulary, t)
    ensures r.Err? ==> r.error == EmptyLogits || r.error == PositionOutOfRange(c.maxLength + 1)
    ensures IsRun(c, c.extract(image), tokens) && Terminal(c, c.extract(image), tokens)
    ensures r == Outcome(c, c.extract(image), tokens)
    ensures |passes| <= |tokens| && |passes| <= MaxSteps
    ensures forall k :: 0 <= k < |passes| ==> passes[k] == tokens[..k + 1]
  {
    var features := c.extract(image);
    var generated;
    generated, tokens, passes := GreedyTokens(c, features);
    match generated
    case Err(e) =>
      r := Err(e);
    case Ok(t) =>
      r := Ok(Caption(c.vocabulary, t));
  }

  /** Every logit row the network produces has exactly one arg-max. */
  predicate UniqueArgMax(row: seq<int>) {
    forall i, j :: 0 <= i < |row| && 0 <= j < |row| && IsArgMax(row, i) && IsArgMax(row, j) ==> i == j
  }

  ghost predicate TieFree<I, C>(c: Captioner<I, C>, features: seq<seq<C>>) {
    forall t: seq<int> :: LastRow(c, features, t).Ok? ==> UniqueArgMax(LastRow(c, features, t).value)
  }

  /** Without ties, two runs on the same features agree on every position both have. */
  lemma {:induction false} RunsShareTokens<I, C>(c: Captioner<I, C>, features: seq<seq<C>>,
                                                t1: seq<int>, t2: seq<int>, n: nat)
    requires TieFree(c, features) && IsRun(c, features, t1) && IsRun(c, features, t2)
    requires n <= |t1| && n <= |t2|
    ensures t1[..n] == t2[..n]
  {
    if n > 1 {
      RunsShareTokens(c, features, t1, t2, n - 1);
      var prefix := t1[..n - 1];
      assert GreedyChoice(c, features, prefix, t1[n - 1]);
      assert GreedyChoice(c, features, t2[..n - 1], t2[n - 1]);
      assert t1[..n] == prefix + [t1[n - 1]];
      assert t2[..n] == t2[..n - 1] + [t2[n - 1]];
    }
  }

  /** A proper prefix of a run is not terminal: the run went on from it. */
  lemma PrefixNotTerminal<I, C>(c: Captioner<I, C>, features: seq<seq<C>>, t: seq<int>, n: nat)
    requires IsRun(c, features, t) && 1 <= n < |t|
    ensures !Terminal(c, features, t[..n])
  {
    assert GreedyChoice(c, features, t[..n], t[n]);
    assert t[..n][n - 1] == t[n - 1];
  }

  /**
   * Greedy determinism: when no logit row has a tie, generation on the same image and
   * model always ends with the same tokens, and so with the same caption or error.
   */
  lemma GreedyDeterministic<I, C>(c: Captioner<I, C>, features: seq<seq<C>>, t1: seq<int>, t2: seq<int>)
    requires TieFree(c, features)
    requires IsRun(c, features, t1) && Terminal(c, features, t1)
    requires IsRun(c, features, t2) && Terminal(c, features, t2)
    ensures t1 == t2 && Outcome(c, features, t1) == Outcome(c, features, t2)
  {
    if |t1| < |t2| {
      RunsShareTokens(c, features, t1, t2, |t1|);
      assert t1 == t1[..|t1|];
      PrefixNotTerminal(c, features, t2, |t1|);
    } else if |t2| < |t1| {
      RunsShareTokens(c, features, t1, t2, |t2|);
      assert t2 == t2[..|t2|];
      PrefixNotTerminal(c, features, t1, |t2|);
    } else {
      RunsShareTokens(c, features, t1, t2, |t1|);
      assert t1 == t1[..|t1|] && t2 == t2[..|t2|];
    }
  }

  /** The network's side of the forward pass contract: one row of vocabulary logits per token. */
  ghost predicate EmitsLogits<I, C(!new)>(c: Captioner<I, C>) {
    && |c.vocabulary| > 0
    && forall f: seq<C>, t: seq<int> ::
         |c.network(f, t)| == |t| && forall k :: 0 <= k < |t| ==> |c.network(f, t)[k]| == |c.vocabulary|
  }

  /**
   * With a position table of at least MaxSteps rows (the default size is 50), no forward pass of a run
   * overflows it, so generation always ends with a caption.
   */
  lemma NoOverflowAtDefaultLength<I, C(!new)>(c: Captioner<I, C>, features: seq<seq<C>>, t: seq<int>)
    requires c.maxLength >= MaxSteps && EmitsLogits(c) && IsRun(c, features, t)
    ensures !Stopped(c, t) ==> LastRow(c, features, t).Ok?
    ensures Terminal(c, features, t) ==> Stopped(c, t) && Outcome(c, features, t).Ok?
  {
    if !Stopped(c, t) {
      var preds := c.network(Flatten(features), t);
      assert |preds| == |t| && |preds[|preds| - 1]| == |c.vocabulary|;
    }
  }

  /** Every pass of a run that has not stopped takes at most MaxSteps tokens. */
  lemma PassFitsPositionTable<I, C>(c: Captioner<I, C>, features: seq<seq<C>>, t: seq<int>)
    requires IsRun(c, features, t) && !Stopped(c, t)
    ensures |t| <= MaxSteps
    ensures c.maxLength >= MaxSteps ==> PositionIndices(c.maxLength, |t|).Ok?
  {
  }

  /** A well-shaped network only ever yields vocabulary indices, so every caption word is a vocabulary word. */
  lemma GeneratedTokensInVocabulary<I, C(!new)>(c: Captioner<I, C>, features: seq<seq<C>>, t: seq<int>)
    requires EmitsLogits(c) && IsRun(c, features, t)
    ensures forall k :: 1 <= k < |t| ==> 0 <= t[k] < |c.vocabulary|
    ensures forall w :: w in CaptionWords(c.vocabulary, t) ==> w in c.vocabulary
  {
    forall k | 1 <= k < |t|
      ensures 0 <= t[k] < |c.vocabulary|
    {
      assert GreedyChoice(c, features, t[..k], t[k]);
      var preds := c.network(Flatten(features), t[..k]);
      assert |preds| == k && |preds[k - 1]| == |c.vocabulary|;
    }
  }

  /**
   * On a stop at the end token the caption has one word per appended token but the end
   * token, and, in a vocabulary without repeats, no end marker.
   */
  lemma CaptionOnEnd<I, C>(c: Captioner<I, C>, features: seq<seq<C>>, t: seq<int>)
    requires IsRun(c, features, t) && Stopped(c, t) && t[|t| - 1] == EndId(c)
    ensures |CaptionWords(c.vocabulary, t)| == (|t| - 1) - 1
    ensures EndId(c) !in InnerTokens(t)
    ensures Distinct(c.vocabulary) && EndMarker in c.vocabulary ==> EndMarker !in CaptionWords(c.vocabulary, t)
  {
    var inner := InnerTokens(t);
    var words := CaptionWords(c.vocabulary, t);
    if Distinct(c.vocabulary) && EndMarker in c.vocabulary {
      forall k | 0 <= k < |words|
        ensures words[k] != EndMarker
      {
        IndexToWordIff(c.vocabulary, inner[k], EndMarker);
      }
    }
  }

  /**
   * At the step limit the last generated token is dropped like an end token would be:
   * the caption has MaxSteps - 1 words and does not depend on that token at all.
   */
  lemma CaptionAtStepLimit<I, C>(c: Captioner<I, C>, features: seq<seq<C>>, t: seq<int>)
    requires IsRun(c, features, t) && Stopped(c, t) && t[|t| - 1] != EndId(c)
    ensures |t| == MaxSteps + 1
    ensures |CaptionWords(c.vocabulary, t)| == MaxSteps - 1
    ensures forall x :: Caption(c.vocabulary, t[..MaxSteps] + [x]) == Caption(c.vocabulary, t)
  {
    forall x
      ensures Caption(c.vocabulary, t[..MaxSteps] + [x]) == Caption(c.vocabulary, t)
    {
      assert InnerTokens(t[..MaxSteps] + [x]) == InnerTokens(t);
    }
  }

  /** Over a vocabulary without spaces the caption has one space between neighbouring words, and splits back into them. */
  lemma CaptionSplitsBack(vocabulary: seq<string>, t: seq<int>)
    requires NoSpaces(vocabulary) && |t| > 2
    ensures Spaces(Caption(vocabulary, t)) == |CaptionWords(vocabulary, t)| - 1
    ensures Split(Caption(vocabulary, t)) == CaptionWords(vocabulary, t)
  {
    var words := CaptionWords(vocabulary, t);
    forall k | 0 <= k < |words|
      ensures ' ' !in words[k]
    {
      var i := InnerTokens(t)[k];
      if 0 <= i < |vocabulary| {
        assert words[k] == vocabulary[i];
      } else {
        assert words[k] == OovWord;
      }
    }
    JoinSpaces(words);
    SplitJoin(words);
  }

  /** A worked example with a six-word vocabulary: indices [START] a dog runs [END] give the caption "a dog runs". */
  lemma DogRunsExample()
    ensures var vocabulary := ["", "[START]", "[END]", "a", "dog", "runs"];
      && WordToIndex(vocabulary, StartMarker) == 1
      && WordToIndex(vocabulary, EndMarker) == 2
      && Caption(vocabulary, [1, 3, 4, 5, 2]) == "a dog runs"
  {
    var vocabulary := ["", "[START]", "[END]", "a", "dog", "runs"];
    ExampleLookups(vocabulary);
    ExampleCaption(vocabulary);
  }

  lemma ExampleLookups(vocabulary: seq<string>)
    requires vocabulary == ["", "[START]", "[END]", "a", "dog", "runs"]
    ensures WordToIndex(vocabulary, StartMarker) == 1 && WordToIndex(vocabulary, EndMarker) == 2
  {
    assert vocabulary[1] == StartMarker && vocabulary[2] == EndMarker;
    assert vocabulary[0] != StartMarker && vocabulary[0] != EndMarker && vocabulary[1] != EndMarker;
    assert vocabulary[1..][0] == StartMarker;
    assert vocabulary[1..][1..][0] == EndMarker;
  }

  lemma ExampleCaption(vocabulary: seq<string>)
    requires vocabulary == ["", "[START]", "[END]", "a", "dog", "runs"]
    ensures Caption(vocabulary, [1, 3, 4, 5, 2]) == "a dog runs"
  {
    var words := CaptionWords(vocabulary, [1, 3, 4, 5, 2]);
    assert InnerTokens([1, 3, 4, 5, 2]) == [3, 4, 5];
    assert words == ["a", "dog", "runs"];
    assert Join(["runs"]) == "runs";
    assert Join(["dog", "runs"]) == "dog runs";
  }

  /**
   * The same caption with the vocabulary laid out as the Keras lookup layer lays it out:
   * the padding word `""` at 0 and `[UNK]` at 1 before the tokenizer's words. An unknown
   * word looks up to 1, and an index past the vocabulary comes back as `[UNK]`.
   */
  lemma KerasLayoutExample()
    ensures var vocabulary := ["", "[UNK]", "[START]", "[END]", "a", "dog", "runs"];
      && WordToIndex(vocabulary, StartMarker) == 2
      && WordToIndex(vocabulary, EndMarker) == 3
      && WordToIndex(vocabulary, "cat") == OovIndex
      && Caption(vocabulary, [2, 4, 5, 6, 3]) == "a dog runs"
      && Caption(vocabulary, [2, 4, 9, 3]) == "a [UNK]"
  {
    var vocabulary := ["", "[UNK]", "[START]", "[END]", "a", "dog", "runs"];
    KerasLookups(vocabulary);
    KerasCaption(vocabulary);
    KerasUnknownCaption(vocabulary);
  }

  lemma KerasLookups(vocabulary: seq<string>)
    requires vocabulary == ["", "[UNK]", "[START]", "[END]", "a", "dog", "runs"]
    ensures WordToIndex(vocabulary, StartMarker) == 2 && WordToIndex(vocabulary, EndMarker) == 3
    ensures WordToIndex(vocabulary, "cat") == OovIndex
  {
    assert vocabulary[2] == StartMarker && vocabulary[3] == EndMarker;
    assert vocabulary[0] != StartMarker && vocabulary[1] != StartMarker;
    assert vocabulary[0] != EndMarker && vocabulary[1] != EndMarker && vocabulary[2] != EndMarker;
    assert vocabulary[2..][0] == StartMarker;
    assert vocabulary[2..][1..][0] == EndMarker;
    assert forall k :: 0 <= k < |vocabulary| ==> vocabulary[k] != "cat";
  }

  lemma KerasCaption(vocabulary: seq<string>)
    requires vocabulary == ["", "[UNK]", "[START]", "[END]", "a", "dog", "runs"]
    ensures Caption(vocabulary, [2, 4, 5, 6, 3]) == "a dog runs"
  {
    assert InnerTokens([2, 4, 5, 6, 3]) == [4, 5, 6];
    assert CaptionWords(vocabulary, [2, 4, 5, 6, 3]) == ["a", "dog", "runs"];
    assert Join(["runs"]) == "runs";
    assert Join(["dog", "runs"]) == "dog runs";
  }

  lemma KerasUnknownCaption(vocabulary: seq<string>)
    requires vocabulary == ["", "[UNK]", "[START]", "[END]", "a", "dog", "runs"]
    ensures Caption(vocabulary, [2, 4, 9, 3]) == "a [UNK]"
  {
    assert InnerTokens([2, 4, 9, 3]) == [4, 9];
    assert CaptionWords(vocabulary, [2, 4, 9, 3]) == ["a", OovWord];
    assert Join([OovWord]) == OovWord;
  }
}
