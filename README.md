# Image captioner: generation control and text handling, in Dafny

This project models the discrete logic of an image-captioning model written with
TensorFlow (`caption.py`): the caption standardiser applied before tokenisation, the
vocabulary lookups and the space join used to turn token indices back into words, the
position indices and feature-map flattening of a forward pass, and the greedy
autoregressive loop `Captioner.simple_gen`, which grows a token sequence from
`[START]` one arg-max at a time, for at most 50 forward passes, stopping right after
`[END]`.

The neural network itself is not modelled. A forward pass is the uninterpreted field
`network` of the `Generation.Captioner` datatype. It maps the flattened image features
and a token sequence to logit rows. Logits are integers. The feature extractor is the
uninterpreted field `extract`, called once per generation.

Modules (one file each):

- `Wrappers` (`wrappers.dfy`): the `Result` type for the failures a call can raise.
- `Text` (`text.dfy`): `standardize`, i.e. ASCII lower-casing, removal of Python's
  `string.punctuation`, and wrapping as `[START] … [END]`.
- `Vocabulary` (`vocabulary.dfy`): the `StringLookup` pair built from the tokenizer
  vocabulary, and `reduce_join` with a single-space separator, with `Split` as its inverse.
- `Positions` (`positions.dfy`): the position indices `0 .. L-1` looked up in a table of
  `max_length` rows, and the `b h w c -> b (h w) c` flattening.
- `Generation` (`generation.dfy`): the forward pass as seen by the loop, the run
  specification (`IsRun`, `Stopped`, `Terminal`, `Outcome`), the method `SimpleGen`, and
  the lemmas about runs and captions.

`GreedyTokens` (the loop) and `SimpleGen` (the loop followed by the word lookup and
join) are proved against the run specification. Its contract says four things:
- the final tokens form a greedy run: the start index, then arg-max choices of the last
  logit row, with `[END]` at most as the last token;
- the run is terminal;
- the result is the caption of that run, or the error of its failing pass;
- forward pass `k` receives the first `k+1` tokens, at most 50 of them.

An arg-max is "some maximal index", because `tf.argmax` does not say which index wins a tie.

Notes on what the code does:

- The code drops the first and the last token unconditionally (`tokens[0, 1:-1]`).
  At the step limit, the 50th generated token is therefore lost, and the caption has
  49 words (`CaptionAtStepLimit`).
- The final token sequence has at most 51 tokens: the start token and 50 generated
  ones.
- An index outside the vocabulary becomes the word `[UNK]` in the inverse lookup; it is
  not an error.
- A sequence longer than the position table (`max_length` rows) makes the
  position-embedding lookup read past the table. The Keras embedding layer rejects such
  an index on CPU; the model always treats it as the error `PositionOutOfRange` (see
  "Left out" for other devices). With the default `max_length` of 50 it cannot happen
  (`NoOverflowAtDefaultLength`).

## Model

| member | source | states |
|---|---|---|
| Text.LowerChar | caption.py:11 | lowers exactly the ASCII capitals (by 32 code points), keeps every other character |
| Text.Lower | caption.py:11 | same length; no ASCII capital is left; other characters are kept in place |
| Text.PunctuationRanges | caption.py:12 | the four ASCII ranges used for punctuation are exactly the characters of `string.punctuation` |
| Text.StripPunctuation | caption.py:12 | the result has no punctuation, is no longer than the input, and holds only input characters |
| Text.StripPunctuationCounts | caption.py:12 | stripping removes every punctuation character and keeps the count of every other character |
| Text.StripPunctuationConcat | caption.py:12 | stripping distributes over concatenation, so it works character by character and keeps order |
| Text.LowerConcat | caption.py:11 | lower-casing distributes over concatenation |
| Text.LowerStripCommute | caption.py:11-12 | lowering then stripping equals stripping then lowering |
| Text.Normalize | caption.py:11-12 | the text between the markers has no ASCII capital and no punctuation |
| Text.NormalizeConcat | caption.py:11-12 | normalisation distributes over concatenation |
| Text.NormalizeFixpoint | caption.py:11-12 | normalisation leaves a string unchanged exactly when it has no capital and no punctuation |
| Text.NormalizeIdempotent | caption.py:11-12 | normalising twice equals normalising once |
| Text.Standardize | caption.py:10-14 | the result is `"[START] "`, then exactly the normalised text (no capital, no punctuation), then `" [END]"`, 14 characters longer than it |
| Text.MarkersDoNotSurviveRestandardizing | caption.py:10-14 | standardising a standardised string turns the markers into the plain words `start` and `end` |
| Vocabulary.WordToIndex | caption.py:116-118 | a vocabulary word gets the position of its first occurrence; any other word gets the out-of-vocabulary index 1 |
| Vocabulary.IndexToWord | caption.py:119-122 | an index inside the vocabulary gives a vocabulary word; any other index gives `[UNK]` |
| Vocabulary.WordRoundTrip | caption.py:116-122 | a vocabulary word looked up and looked back gives the word again |
| Vocabulary.IndexRoundTrip | caption.py:116-122 | in a vocabulary without repeats, an index inside the vocabulary looked up and looked back gives the index again |
| Vocabulary.IndexToWordIff | caption.py:116-122 | in a vocabulary without repeats, for a vocabulary word `w` other than `[UNK]`, index `i` gives `w` exactly when `w` looks up to `i` |
| Vocabulary.Join | caption.py:151 | no words give the empty string; one word gives itself; n words give their letters plus n-1 separators |
| Vocabulary.JoinSpaces | caption.py:151 | joining n words that contain no space gives exactly n-1 spaces |
| Vocabulary.SplitJoin | caption.py:151 | splitting the join of space-free words on spaces gives the words back |
| Positions.PositionIndices | caption.py:34-36 | the lookup succeeds exactly when the length is at most the table size; it gives indices 0..L-1, all inside the table; otherwise it fails at index `max_length`, the first one the table lacks |
| Positions.Flatten | caption.py:163 | the first row of the grid is the front of the flattened sequence (partners: `FlattenLength`, `FlattenCell`, `FlattenRow`) |
| Positions.FlattenLength | caption.py:163 | an h by w grid flattens to h*w cells |
| Positions.FlattenCell | caption.py:163 | cell (i, j) of an h by w grid lands at row i*w+j |
| Positions.FlattenRow | caption.py:163 | row k of the flattened grid is cell (k / w, k % w) |
| Positions.RowOfIndex | caption.py:163 | a flat index below h*w splits into a row below h and a column below w |
| Generation.Forward | caption.py:163-176 | a pass fails with `PositionOutOfRange` exactly when the sequence is longer than the position table; otherwise it gives the network's logits on the flattened features |
| Generation.LastRow | caption.py:142-145 | a pass and last-row selection succeed exactly on a sequence that fits the table and has a non-empty last row, and then give the network's last row; an overlong sequence fails with `PositionOutOfRange`, and a failure on a sequence that fits is always `EmptyLogits` |
| Generation.StartId | caption.py:137 | the start index is the position of `[START]` in the vocabulary, or the out-of-vocabulary index 1 when it is missing |
| Generation.EndId | caption.py:148 | the end index is the position of `[END]` in the vocabulary, or the out-of-vocabulary index 1 when it is missing |
| Generation.ArgMaxExists | caption.py:145 | every non-empty logit row has an index whose logit is at least every other logit in the row |
| Generation.ExtendRun | caption.py:140-146 | a run that has not stopped, extended by an arg-max of its last logit row, is again a run |
| Generation.GreedyTokens | caption.py:136-149 | returned tokens are a stopped greedy run from `[START]`; a failure is an empty logit row or an overflow at exactly max_length+1 tokens; the final tokens are terminal, and the call succeeds exactly when they stopped; pass k receives the first k+1 tokens, at most 50 of them |
| Generation.SimpleGen | caption.py:136-152 | features are extracted once; a returned caption is the caption of a stopped greedy run; the result is the outcome of the terminal run reached, and a failure is an empty logit row or an overflow at max_length+1 tokens; at most 50 passes, pass k on the first k+1 tokens |
| Generation.RunsShareTokens | caption.py:140-146 | without logit ties, two runs on the same features agree on every position both have |
| Generation.PrefixNotTerminal | caption.py:140-149 | a run went on from each of its proper prefixes, so none of them is terminal |
| Generation.GreedyDeterministic | caption.py:140-149 | without logit ties, any two terminal runs on the same image are equal and give the same result |
| Generation.NoOverflowAtDefaultLength | caption.py:141-142 | with a position table of at least 50 rows and a network giving one vocabulary-sized row per token, every pass succeeds and generation ends with a caption |
| Generation.PassFitsPositionTable | caption.py:141-142 | a pass made by a run takes at most 50 tokens, so it fits a table of at least 50 rows |
| Generation.GeneratedTokensInVocabulary | caption.py:142-146 | with vocabulary-sized logit rows, every generated index and every caption word is in the vocabulary |
| Generation.InnerTokens | caption.py:150 | the first and the last token are dropped: the result is the tokens strictly between them, in order, and empty for fewer than two tokens |
| Generation.CaptionWords | caption.py:150 | caption word k is the inverse lookup of token k+1, one word per inner token |
| Generation.Caption | caption.py:150-151 | a sequence of at most two tokens gives the empty caption; a longer one gives at least one character per separator (partner: `CaptionSplitsBack`) |
| Generation.CaptionOnEnd | caption.py:148-150 | on an `[END]` stop, the caption has one word fewer than the tokens appended, and it contains no `[END]` token (nor, with distinct words, the word) |
| Generation.CaptionAtStepLimit | caption.py:141-150 | without `[END]`, the run has 51 tokens and the caption 49 words; the 50th generated token has no effect on it |
| Generation.CaptionSplitsBack | caption.py:150-151 | with a vocabulary free of spaces, the caption has one space between neighbouring words and splits back into them |
| Generation.DogRunsExample | caption.py:150-152 | with the vocabulary `"", [START], [END], a, dog, runs`, the tokens 1 3 4 5 2 give the caption "a dog runs" |
| Generation.KerasLayoutExample | caption.py:137-151 | with the Keras layout `"", [UNK], [START], [END], a, dog, runs`, the markers look up to 2 and 3, an unknown word to 1, tokens 2 4 5 6 3 give "a dog runs", and an index past the vocabulary gives the word `[UNK]` |

## Left out

- The numeric layers are not modelled: embeddings, multi-head attention with its causal mask, layer normalisation, dense layers, dropout and residual adds (caption.py:18-107). They are floating-point library code; the whole stack is the uninterpreted `network`.
- The `last_attention_scores` field written by the cross-attention and decoder layers is left out. It is diagnostic state with no effect on control flow.
- Generation.Forward: a sequence longer than the position table is always the error `PositionOutOfRange`. On devices where the Keras embedding lookup does not check its index (a GPU returns a zero vector for it), the pass would go on; that behaviour is not modelled.
- The token-embedding lookup is not modelled, so a token index outside the embedding table is not reported as an error. Only the position lookup is checked.
- The internals of `StringLookup` and `TextVectorization` are simplified. The vocabulary is a sequence of words. An unknown word maps to index 1, and an out-of-range index maps to `[UNK]`. Tokenisation of standardised text into indices is not modelled.
- The feature extractor is an uninterpreted function, and the batch dimension is dropped (batch size 1 throughout).
- The dispatch on input shape and dtype in `Captioner.call` is left out (caption.py:158-168). The forward pass always takes extracted features and token indices.
- The file and pickle handling in the `__main__` block is I/O and is left out, as are the missing imports of `re`, `string`, `einops` and `pathlib`.
- Strings are sequences of characters, not UTF-8 bytes. Lower-casing touches only `A`-`Z`, as TensorFlow's default byte-wise lower-casing does.
- Logits are integers, so floating-point comparisons, including NaN, are not modelled.
- Generation.GreedyDeterministic: stated only for logit rows without ties, because `tf.argmax` does not say which of several maximal indices it returns.
