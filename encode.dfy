/** s_2_i: each sentence becomes a row of max_len vocabulary
    indices, one per lower-cased word, padded with 0 and truncated at max_len. */
module Encode {
  import opened Outcomes
  import opened Text
  import opened Vocab

  /** [k.lower() for k in sentence.split()] */
  function SentenceWords(s: string): seq<string> {
    var ws := Words(s);
    seq(|ws|, k requires 0 <= k < |ws| => Lower(ws[k]))
  }

  /** The lookup of w succeeds, directly or through the "unknown" fallback. */
  predicate Resolvable(wordToIndex: map<string, int>, w: string) {
    w in wordToIndex || "unknown" in wordToIndex
  }

  /** The index of w, or of "unknown" when w is not in the vocabulary. */
  function Lookup(wordToIndex: map<string, int>, w: string): int
    requires Resolvable(wordToIndex, w)
  {
    if w in wordToIndex then wordToIndex[w] else wordToIndex["unknown"]
  }

  /** Only the first maxLen words are looked up, so only they must resolve. */
  predicate Encodable(ws: seq<string>, wordToIndex: map<string, int>, maxLen: int) {
    forall k :: 0 <= k < |ws| && k < maxLen ==> Resolvable(wordToIndex, ws[k])
  }

  /** Column j of the row of a sentence with words ws: the j-th word's index,
      or the padding 0 past the last word. */
  function Cell(ws: seq<string>, wordToIndex: map<string, int>, j: nat): int
    requires j < |ws| ==> Resolvable(wordToIndex, ws[j])
  {
    if j < |ws| then Lookup(wordToIndex, ws[j]) else 0
  }

  /** The sentences of X as vocabulary indices, in a fresh |X| by maxLen
      matrix. A negative maxLen fails as numpy.zeros does; the first word
      that neither is in the vocabulary nor finds "unknown" there ends the
      conversion with a KeyError for "unknown". */
  method SentencesToIndices(X: seq<string>, wordToIndex: map<string, int>, maxLen: int)
    returns (res: Result<array2<int>>)
    ensures maxLen < 0 ==> res == Err(NegativeDimensions)
    ensures maxLen >= 0 ==>
      (res.Ok? <==> forall i :: 0 <= i < |X| ==> Encodable(SentenceWords(X[i]), wordToIndex, maxLen))
    ensures maxLen >= 0 && res.Err? ==> res.error == KeyError("unknown")
    ensures res.Ok? ==> fresh(res.value) && res.value.Length0 == |X| && res.value.Length1 == maxLen
    ensures res.Ok? ==> forall i, j :: 0 <= i < |X| && 0 <= j < maxLen ==>
      res.value[i, j] == Cell(SentenceWords(X[i]), wordToIndex, j)
  {
    if maxLen < 0 {
      return Err(NegativeDimensions);
    }
    var m := |X|;
    var indices := new int[m, maxLen]((_, _) => 0);
    var i := 0;
    while i < m
      invariant 0 <= i <= m
      invariant forall p :: 0 <= p < i ==> Encodable(SentenceWords(X[p]), wordToIndex, maxLen)
      invariant forall p, q :: 0 <= p < i && 0 <= q < maxLen ==>
        indices[p, q] == Cell(SentenceWords(X[p]), wordToIndex, q)
      invariant forall p, q :: i <= p < m && 0 <= q < maxLen ==> indices[p, q] == 0
    {
      var ok := EncodeRow(indices, i, SentenceWords(X[i]), wordToIndex);
      if !ok {
        return Err(KeyError("unknown"));
      }
      i := i + 1;
    }
    return Ok(indices);
  }

  /** One pass of the loop over the words of one sentence: row i of the
      zeroed matrix receives the indices of the first words, as many as fit;
      false when a lookup of "unknown" fails, after the cells before it. */
  method EncodeRow(indices: array2<int>, i: nat, sentenceWords: seq<string>, wordToIndex: map<string, int>)
    returns (ok: bool)
    requires i < indices.Length0
    requires forall q :: 0 <= q < indices.Length1 ==> indices[i, q] == 0
    modifies indices
    ensures ok <==> Encodable(sentenceWords, wordToIndex, indices.Length1)
    ensures forall p, q :: 0 <= p < indices.Length0 && p != i && 0 <= q < indices.Length1 ==>
      indices[p, q] == old(indices[p, q])
    ensures ok ==> forall q :: 0 <= q < indices.Length1 ==> indices[i, q] == Cell(sentenceWords, wordToIndex, q)
  {
    var maxLen := indices.Length1;
    var j := 0;
    var t := 0;
    while t < |sentenceWords|
      invariant 0 <= t <= |sentenceWords|
      invariant j == if t < maxLen then t else maxLen
      invariant forall q :: 0 <= q < t && q < maxLen ==> Resolvable(wordToIndex, sentenceWords[q])
      invariant forall p, q :: 0 <= p < indices.Length0 && p != i && 0 <= q < maxLen ==>
        indices[p, q] == old(indices[p, q])
      invariant forall q :: 0 <= q < j ==> indices[i, q] == Lookup(wordToIndex, sentenceWords[q])
      invariant forall q :: j <= q < maxLen ==> indices[i, q] == 0
    {
      if j < maxLen {
        var w := sentenceWords[t];
        var fd;
        if w in wordToIndex {
          fd := wordToIndex[w];
        } else if "unknown" in wordToIndex {
          fd := wordToIndex["unknown"];
        } else {
          return false;
        }
        indices[i, j] := fd;
        j := j + 1;
      }
      t := t + 1;
    }
    return true;
  }

  /** Over a vocabulary built by read_glove_vecs, a cell is 0 exactly in the
      padding, every other cell holds an index 1..|vocabulary|, and mapping
      it back through indexToWords gives the word itself or "unknown". */
  lemma CellInVocabulary(vocabulary: seq<string>, wordToIndex: map<string, int>, indexToWord: map<int, string>,
                         ws: seq<string>, j: nat)
    requires IsVocabulary(vocabulary, wordToIndex, indexToWord)
    requires j < |ws| ==> Resolvable(wordToIndex, ws[j])
    ensures Cell(ws, wordToIndex, j) == 0 <==> j >= |ws|
    ensures 0 <= Cell(ws, wordToIndex, j) <= |vocabulary|
    ensures j < |ws| ==>
      && Cell(ws, wordToIndex, j) in indexToWord
      && indexToWord[Cell(ws, wordToIndex, j)] == (if ws[j] in wordToIndex then ws[j] else "unknown")
  {
  }

  /** With "unknown" in the vocabulary no sentence fails to encode. */
  lemma EncodableWithUnknown(ws: seq<string>, wordToIndex: map<string, int>, maxLen: int)
    requires "unknown" in wordToIndex
    ensures Encodable(ws, wordToIndex, maxLen)
  {
  }

  /** Words past maxLen are never looked up: a sentence encodes exactly when
      its first maxLen words do, and those give the whole row. */
  lemma EncodableTruncates(ws: seq<string>, wordToIndex: map<string, int>, maxLen: nat)
    requires maxLen <= |ws|
    ensures Encodable(ws, wordToIndex, maxLen) <==> Encodable(ws[..maxLen], wordToIndex, maxLen)
    ensures Encodable(ws, wordToIndex, maxLen) ==>
      forall j :: 0 <= j < maxLen ==> Cell(ws, wordToIndex, j) == Cell(ws[..maxLen], wordToIndex, j)
  {
  }
}
