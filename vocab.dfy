/** The index-assignment loop of read_glove_vecs: the sorted vocabulary
    gets consecutive indices from 1, in a forward and an inverse dictionary. */
module Vocab {
  import opened Outcomes

  /** Python's `<` on str: lexicographic on code points, a proper prefix first. */
  predicate StrLess(a: string, b: string) {
    if a == [] then b != []
    else if b == [] then false
    else if a[0] != b[0] then a[0] < b[0]
    else StrLess(a[1..], b[1..])
  }

  /** What sorted() returns for a set of strings: ascending, no repeats. */
  predicate StrictlySorted(ws: seq<string>) {
    forall i, j :: 0 <= i < j < |ws| ==> StrLess(ws[i], ws[j])
  }

  lemma {:induction false} StrLessIrreflexive(a: string)
    ensures !StrLess(a, a)
  {
    if a != [] {
      StrLessIrreflexive(a[1..]);
    }
  }

  /** A strictly sorted listing never repeats a word. */
  lemma StrictlySortedDistinct(ws: seq<string>)
    requires StrictlySorted(ws)
    ensures Distinct(ws)
  {
    forall i, j | 0 <= i < j < |ws| ensures ws[i] != ws[j] {
      StrLessIrreflexive(ws[i]);
    }
  }

  /** wordsToIndex gives the k-th word of ws the index k + 1, and
      indexToWords gives each index 1..|ws| its word; nothing else is mapped. */
  ghost predicate IsVocabulary(ws: seq<string>, wordsToIndex: map<string, int>, indexToWords: map<int, string>) {
    && (forall k :: 0 <= k < |ws| ==> ws[k] in wordsToIndex && wordsToIndex[ws[k]] == k + 1)
    && (forall w :: w in wordsToIndex ==> w in ws)
    && (forall i :: i in indexToWords <==> 1 <= i <= |ws|)
    && (forall i :: 1 <= i <= |ws| ==> indexToWords[i] == ws[i - 1])
  }

  /** The forward dictionary after the loop has visited ws. */
  function Forward(ws: seq<string>): map<string, int> {
    if ws == [] then map[] else Forward(ws[..|ws| - 1])[ws[|ws| - 1] := |ws|]
  }

  /** The inverse dictionary after the loop has visited ws. */
  function Inverse(ws: seq<string>): map<int, string> {
    if ws == [] then map[] else Inverse(ws[..|ws| - 1])[|ws| := ws[|ws| - 1]]
  }

  /** The forward dictionary maps exactly the words of ws. */
  lemma {:induction false} ForwardKeys(ws: seq<string>)
    ensures forall w :: w in Forward(ws) <==> w in ws
  {
    if ws != [] {
      var init := ws[..|ws| - 1];
      ForwardKeys(init);
      assert ws == init + [ws[|ws| - 1]];
    }
  }

  /** Without repeats, the k-th word is mapped to k + 1, and there are |ws| keys. */
  lemma {:induction false} ForwardValues(ws: seq<string>)
    requires Distinct(ws)
    ensures forall k :: 0 <= k < |ws| ==> ws[k] in Forward(ws) && Forward(ws)[ws[k]] == k + 1
    ensures |Forward(ws)| == |ws|
  {
    if ws != [] {
      var n := |ws| - 1;
      var init := ws[..n];
      ForwardKeys(init);
      ForwardValues(init);
      assert ws[n] !in Forward(init) by {
        assert forall m :: 0 <= m < n ==> init[m] != ws[n];
      }
      forall k | 0 <= k < |ws| ensures ws[k] in Forward(ws) && Forward(ws)[ws[k]] == k + 1 {
        if k < n {
          assert init[k] == ws[k] && ws[k] != ws[n];
        }
      }
    }
  }

  /** The inverse dictionary maps each index 1..|ws| to its word, and nothing else. */
  lemma {:induction false} InverseEntries(ws: seq<string>)
    ensures forall i :: i in Inverse(ws) <==> 1 <= i <= |ws|
    ensures forall i :: 1 <= i <= |ws| ==> Inverse(ws)[i] == ws[i - 1]
    ensures |Inverse(ws)| == |ws|
  {
    if ws != [] {
      var n := |ws| - 1;
      var init := ws[..n];
      InverseEntries(init);
      assert n + 1 !in Inverse(init);
      forall i | 1 <= i <= n ensures Inverse(ws)[i] == ws[i - 1] {
        assert init[i - 1] == ws[i - 1];
      }
    }
  }

  /** For words without repeats the loop's dictionaries form a vocabulary of
      |ws| entries each. */
  lemma ForwardInverseVocabulary(ws: seq<string>)
    requires Distinct(ws)
    ensures IsVocabulary(ws, Forward(ws), Inverse(ws))
    ensures |Forward(ws)| == |ws| && |Inverse(ws)| == |ws|
  {
    ForwardKeys(ws);
    ForwardValues(ws);
    InverseEntries(ws);
  }

  /** Lines 32-38 of read_glove_vecs, over ws = sorted(words). The loop
      relies only on ws having no repeats, which StrictlySortedDistinct
      derives from its being sorted. */
  method IndexVocabulary(ws: seq<string>) returns (wordsToIndex: map<string, int>, indexToWords: map<int, string>)
    requires Distinct(ws)
    ensures wordsToIndex == Forward(ws) && indexToWords == Inverse(ws)
    ensures IsVocabulary(ws, wordsToIndex, indexToWords)
    ensures |wordsToIndex| == |ws| && |indexToWords| == |ws|
  {
    var i := 1;
    wordsToIndex := map[];
    indexToWords := map[];
    var k := 0;
    while k < |ws|
      invariant 0 <= k <= |ws| && i == k + 1
      invariant wordsToIndex == Forward(ws[..k]) && indexToWords == Inverse(ws[..k])
    {
      var w := ws[k];
      assert ws[..k + 1][..k] == ws[..k];
      wordsToIndex := wordsToIndex[w := i];
      indexToWords := indexToWords[i := w];
      i := i + 1;
      k := k + 1;
    }
    assert ws[..k] == ws;
    ForwardInverseVocabulary(ws);
  }

  /** The two dictionaries are mutual inverses, and the indices are exactly
      1..|ws|, so index 0 is never assigned. */
  lemma VocabularyInverse(ws: seq<string>, wordsToIndex: map<string, int>, indexToWords: map<int, string>)
    requires IsVocabulary(ws, wordsToIndex, indexToWords)
    ensures forall w :: w in wordsToIndex ==>
      wordsToIndex[w] in indexToWords && indexToWords[wordsToIndex[w]] == w
    ensures forall i :: i in indexToWords ==>
      indexToWords[i] in wordsToIndex && wordsToIndex[indexToWords[i]] == i
    ensures forall i :: i in wordsToIndex.Values <==> 1 <= i <= |ws|
  {
    forall w | w in wordsToIndex
      ensures wordsToIndex[w] in indexToWords && indexToWords[wordsToIndex[w]] == w
    {
      var m :| 0 <= m < |ws| && ws[m] == w;
    }
    forall i ensures i in wordsToIndex.Values <==> 1 <= i <= |ws| {
      if 1 <= i <= |ws| {
        assert wordsToIndex[ws[i - 1]] == i;
      }
      if i in wordsToIndex.Values {
        var w :| w in wordsToIndex && wordsToIndex[w] == i;
        var m :| 0 <= m < |ws| && ws[m] == w;
      }
    }
  }
}
