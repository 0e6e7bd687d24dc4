# Greeting identifier: the discrete routines, in Dafny

The Greeting identifier is a one-script Streamlit demo. It decides whether a
sentence contains a greeting, by averaging GloVe word vectors or with an
LSTM. Around the numerics sit five small routines of plain logic, and this
project models them and proves what they compute:

- `cleanX` (module `Clean`). It rewrites every sentence of the data set in
  place. Each whitespace token loses the characters `..,)(:?$#@&!;` at both
  ends and every apostrophe. It is then split on the first of `.`, `/`, `-`
  it contains, keeping two pieces; `speedbird` becomes `speed` and `bird`.
  The tokens are re-joined with single spaces. The Python built-ins it
  relies on are in module `Text`: `split()`, `split(sep)`, `strip(chars)`,
  `replace`, `join`, `lower`.
- The index loop of `read_glove_vecs` (module `Vocab`). It gives the sorted
  vocabulary the indices 1, 2, ... in a forward and an inverse dictionary.
- `s_2_i` (module `Encode`). It turns sentences into an `m × max_len` matrix
  of vocabulary indices. Each word is lower-cased and falls back to the
  index of `unknown`; rows are truncated at `max_len` and padded with 0.
- The matrix fill of `pel` (module `Embedding`). Row `idx` of a
  `(len(word_to_index) + 1) × emb_dim` zero matrix receives the GloVe
  vector of the word with index `idx`, or the vector of `unknown`.
- `label_to_type` (module `Label`). The 0.5 threshold on the model's score.

A Python exception is a `Result.Err` (module `Outcomes`). It is a
`KeyError` for a failed dictionary lookup, an `IndexError` for a row
outside the matrix, `NegativeDimensions` for `numpy.zeros` with a negative
extent, and a `BroadcastError` for a vector that does not fit a row. The
loops that change state are methods proved against specification
functions: `CleanX` against `CleanSentence`, `IndexVocabulary` against
`Forward`/`Inverse`, `SentencesToIndices` against `Cell`, and
`EmbeddingMatrix` against `Fill`. The lemmas beside those functions state
what the source promises.

## Model

| member | source | states |
|---|---|---|
| Text.LStripShape | strlt_proj.py:68 | the left half of strip keeps a suffix; everything dropped is a strip character; the first kept character is not one |
| Text.RStripShape | strlt_proj.py:68 | the right half of strip keeps a prefix; everything dropped is a strip character; the last kept character is not one |
| Text.StripShape | strlt_proj.py:68 | strip keeps one contiguous piece of the token; it removes only strip characters around it and leaves none at either end |
| Text.DeleteShape | strlt_proj.py:69-70 | replace("'", "") leaves no apostrophe and introduces no character |
| Text.DeleteCounts | strlt_proj.py:69-70 | replace("'", "") keeps every other character as many times as before (multiset equality) |
| Text.DeleteConcat | strlt_proj.py:69-70 | replace("'", "") works character by character and keeps the order: a concatenation is replaced piecewise, and a single character is dropped iff it is the apostrophe |
| Text.DeleteAbsent | strlt_proj.py:69-70 | a token without an apostrophe is left as it is, so the `if "'" in j` guard changes nothing |
| Text.SplitOn | strlt_proj.py:71-76 | split(sep) always returns at least one piece |
| Text.SplitOnShape | strlt_proj.py:71-76 | no piece holds the separator; there are two or more pieces exactly when the separator occurs |
| Text.SplitOnJoin | strlt_proj.py:71-76 | joining the pieces of split(sep) with sep gives back the token |
| Text.SplitOnFirstTwo | strlt_proj.py:71-81 | when sep occurs, pieces 0 and 1 are the text before the first sep and the text up to the next sep or the end |
| Text.JoinWithKeepsChars | strlt_proj.py:84 | every character of a joined token occurs in the joined string |
| Text.TakeWordShape | strlt_proj.py:65 | a word of split() is the longest whitespace-free prefix of what remains |
| Text.WordsShape | strlt_proj.py:65 | split() yields only non-empty, whitespace-free words |
| Text.WordsOfWord | strlt_proj.py:65 | split() of a whitespace-free string is that string alone, or nothing when it is empty |
| Text.WordsCons | strlt_proj.py:65 | split() of a word, a space and a rest is the word followed by the words of the rest |
| Text.SpaceHead | strlt_proj.py:65 | a leading whitespace character (space, tab, newline, U+00A0, ...) yields no word of split() |
| Text.WordsFront | strlt_proj.py:65 | a non-empty whitespace-free word followed by the end or by any whitespace character is the first word of split(), and the rest is split on its own |
| Text.WordsSep | strlt_proj.py:65 | any whitespace character, not only ' ', separates: split() of s, c, t with c whitespace is split() of s followed by split() of t; with WordsOfWord this fixes split() on every string |
| Text.WordsSepSpace | strlt_proj.py:65 | split() past a leading whitespace character of s: the separation of s, c, t carries over from the rest of s to s |
| Text.WordsSepWord | strlt_proj.py:65 | split() past the first word w of s: the separation of s, c, t carries over from the rest of s to w followed by that rest |
| Text.WordsOfJoin | strlt_proj.py:84 | split() of ' '.join(ts), for whitespace-free ts, gives back the non-empty tokens of ts in order |
| Text.LowerShape | strlt_proj.py:294 | lower() keeps the length, maps the k-th capital A..Z to the k-th small letter a..z, keeps every other character, leaves no capital, and is idempotent |
| Clean.NormalizeShape | strlt_proj.py:68-70 | the normal form is the contiguous piece of the token that strip keeps, with its apostrophes deleted |
| Clean.NormalizeChars | strlt_proj.py:68-70 | stripping and deleting apostrophes introduces no character and leaves no apostrophe |
| Clean.CleanTokenCount | strlt_proj.py:71-83 | a token contributes two output tokens iff its normal form contains '.', '/' or '-' or is "speedbird", and one otherwise, namely its normal form |
| Clean.CleanTokenSplitPieces | strlt_proj.py:71-81 | the two output tokens are the first two pieces of the split on '.', else '/', else '-', in that priority |
| Clean.CleanTokenSpeedbird | strlt_proj.py:77-78 | "speedbird" becomes "speed" and "bird" |
| Clean.CleanTokenChars | strlt_proj.py:67-83 | every output token is made of characters of its input token and has no apostrophe |
| Clean.CleanTokensConcat | strlt_proj.py:67-83 | cleaning a token list distributes over concatenation |
| Clean.CleanTokensStep | strlt_proj.py:67-83 | one more pass of the inner loop appends exactly that token's outputs |
| Clean.CleanTokensCount | strlt_proj.py:67-83 | n whitespace tokens give between n and 2n output tokens |
| Clean.CleanTokensChars | strlt_proj.py:67-84 | no output token holds an apostrophe, and none holds whitespace when the input tokens (the words of split()) have none |
| Clean.CleanSentenceWords | strlt_proj.py:62-85 | splitting a cleaned sentence again yields exactly its non-empty output tokens, at most twice as many words as the input had |
| Clean.CleanX | strlt_proj.py:62-85 | every element of X is replaced by the cleaned form of its old value, the same array is returned, and step h writes only X[h] |
| Vocab.StrLessIrreflexive | strlt_proj.py:35 | no string sorts before itself |
| Vocab.StrictlySortedDistinct | strlt_proj.py:35 | the sorted listing of a set has no repeats |
| Vocab.ForwardKeys | strlt_proj.py:32-38 | words_to_index maps exactly the words of the list |
| Vocab.ForwardValues | strlt_proj.py:32-38 | the k-th distinct word gets index k + 1, and there are as many entries as words |
| Vocab.InverseEntries | strlt_proj.py:32-38 | index_to_words maps exactly 1..n, index i to the (i-1)-th word |
| Vocab.ForwardInverseVocabulary | strlt_proj.py:32-38 | for distinct words the two dictionaries form a vocabulary of n entries each |
| Vocab.IndexVocabulary | strlt_proj.py:32-38 | the loop builds exactly those dictionaries: indices 1..n in order, n entries each |
| Vocab.VocabularyInverse | strlt_proj.py:32-38 | the dictionaries are mutual inverses, and the assigned indices are exactly 1..n, so 0 is never used |
| Encode.EncodeRow | strlt_proj.py:294-308 | row i gets, at column j, the index of word j for j below min(words, max_len), and 0 after; it fails iff a looked-up word resolves neither directly nor through "unknown"; no other row is touched |
| Encode.SentencesToIndices | strlt_proj.py:286-310 | a negative max_len fails as numpy.zeros does; otherwise it succeeds iff every sentence is encodable, else fails with KeyError('unknown'); the result has m rows and max_len columns; cell [i, j] is the index of the j-th lower-cased word of X[i] or the 0 padding |
| Encode.CellInVocabulary | strlt_proj.py:301-307 | over a read_glove_vecs vocabulary, a cell is 0 exactly in the padding and otherwise lies in 1..n; index_to_words maps it back to the word or to "unknown" |
| Encode.EncodableWithUnknown | strlt_proj.py:303-306 | with "unknown" in word_to_index no sentence fails to encode |
| Encode.EncodableTruncates | strlt_proj.py:300-308 | words past max_len are never looked up: only the first max_len words decide success and the row |
| Embedding.Zeros | strlt_proj.py:249 | the zero matrix has n rows of dim zeros |
| Embedding.RowOf | strlt_proj.py:259 | an integer row index is valid iff it lies in -n..n-1; negative ones count from the end |
| Embedding.Broadcast | strlt_proj.py:259 | assigning a vector to a row succeeds iff its length matches or is 1, and fills the row cyclically from it |
| Embedding.Item | strlt_proj.py:255-259 | one iteration writes a row inside the matrix, with a vector of the row's length |
| Embedding.EmbeddingMatrix | strlt_proj.py:245-259 | a missing "cucumber" fails first; otherwise the result is the fill of the (len(word_to_index) + 1) × emb_dim zero matrix, error for error |
| Embedding.FillOk | strlt_proj.py:253-259 | the fill succeeds iff every word's iteration does, and keeps the number of rows |
| Embedding.FillFirstError | strlt_proj.py:253-259 | a failed fill raises the exception of the first failing word in iteration order |
| Embedding.FillRows | strlt_proj.py:253-259 | when no two words share a row, each word's row holds its vector and every other row keeps its value |
| Embedding.VocabularyEmbedding | strlt_proj.py:245-259 | over a read_glove_vecs vocabulary, with equal-length vectors and "unknown" or a vector for every word: the fill succeeds, row 0 stays zero, and row k + 1 holds the vector of the k-th word or that of "unknown" |
| Label.LabelToType | strlt_proj.py:88-92 | the result is "contains a Greeting" iff score >= 0.5, and "does not contain a Greeting" iff score < 0.5 |

## Left out

- Reading the GloVe file (strlt_proj.py:23-30): file I/O. The word list and the vectors are parameters. `IndexVocabulary` takes the result of `sorted(words)`.
- `sorted()` itself is not modelled. `StrictlySorted` states what it returns, and `StrictlySortedDistinct` reduces that to the absence of repeats, which is all the loop needs.
- Vocab.IndexVocabulary: requires `Distinct(ws)` instead of `StrictlySorted(ws)`. Its conclusions hold for any repeat-free list, and the sorted input is one of them.
- `read_csv` (45-59), the pickles of `load_variables` (371-373) and the weight files (469-472): I/O.
- The Streamlit UI in `main` (375-504): widget orchestration.
- Floating-point numerics: `sigmoid`, `predict`, `sentence_to_avg`, the gradient descent of `model_we`, and accuracy. GloVe components are `real`, so rounding and NaN are not modelled.
- Label.LabelToType: a NaN score, which compares false and so yields "does not contain a Greeting", is not modelled.
- Encode.SentencesToIndices: numpy stores the indices as float64. The model stores them as `int`, which is exact for any vocabulary a float64 can count.
- Keras: `model_lstm`, and the `Embedding` layer that `pel` builds from the matrix (262-268). These are calls into a library.
- Three calls fail with a Python error, and what follows them is not modelled. Line 209 calls `sentence_to_avg` with two arguments, but it takes three (134). Line 415 reads the local `model` before it is assigned (it is assigned at 441 and 492), which raises UnboundLocalError. Line 441 calls the six-parameter `model_lstm` (313) with five arguments, so `main` never reaches line 363. Were `model_lstm` called correctly, it would run `pel` (332) and build the Keras model (329-360), and only then fail at line 363, which reads an undefined `X_train`.
- Clean.CleanX: X is an array of unbounded strings. numpy's fixed-width `<U n>` arrays would truncate a sentence that grows on write-back; "speedbird" grows by one character.
- Text.LowerShape: lower-cases ASCII letters only. Python's `str.lower` also maps non-ASCII capitals.
- Embedding.EmbeddingMatrix: the dictionary's iteration order is the parameter `order`, which lists each key once. For the vocabulary of `read_glove_vecs` it is the sorted word list.
- Embedding.Broadcast: covers numpy's broadcasting only for one-dimensional vectors into one row, which is what GloVe vectors are.
