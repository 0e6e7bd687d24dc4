/** The embedding matrix built by pel: row idx holds
    the GloVe vector of the word with index idx, row 0 stays zero for
    padding, and words without a vector get the vector of "unknown". */
module Embedding {
  import opened Outcomes
  import opened Vocab

  /** A GloVe word vector: one real per dimension. */
  type Vector = seq<real>

  /** The zero matrix numpy.zeros((n, dim)), as n rows. */
  function Zeros(n: nat, dim: nat): (m: seq<Vector>)
    ensures |m| == n && forall r :: 0 <= r < n ==> |m[r]| == dim && forall c :: 0 <= c < dim ==> m[r][c] == 0.0
  {
    seq(n, _ => seq(dim, _ => 0.0))
  }

  /** The vector of w, or of "unknown" when w has none. */
  function VectorFor(wordToVec: map<string, Vector>, w: string): Result<Vector> {
    if w in wordToVec then Ok(wordToVec[w])
    else if "unknown" in wordToVec then Ok(wordToVec["unknown"])
    else Err(KeyError("unknown"))
  }

  /** The row a numpy integer index selects among n rows: negative indices
      count from the end, anything outside -n..n-1 is no row. */
  function RowOf(idx: int, n: nat): (r: Option<nat>)
    ensures r.Some? <==> -(n as int) <= idx < n
    ensures r.Some? ==> r.value < n && r.value % n == idx % n
  {
    if 0 <= idx < n then Some(idx)
    else if -(n as int) <= idx < 0 then Some(idx + n)
    else None
  }

  /** What a slice assignment of fd into a row of dim cells stores: fd
      itself when the lengths agree, a one-element fd repeated, otherwise
      nothing (numpy's broadcasting rule in one dimension). */
  function Broadcast(fd: Vector, dim: nat): (r: Option<Vector>)
    ensures r.Some? <==> |fd| == dim || |fd| == 1
    ensures r.Some? ==> |r.value| == dim && forall c :: 0 <= c < dim ==> r.value[c] == fd[c % |fd|]
  {
    if |fd| == dim then Some(fd)
    else if |fd| == 1 then Some(seq(dim, _ => fd[0]))
    else None
  }

  /** Every word of order has an index. */
  predicate Keyed(order: seq<string>, wordToIndex: map<string, int>) {
    forall k :: 0 <= k < |order| ==> order[k] in wordToIndex
  }

  /** One iteration for word w over a matrix of n rows: the row it writes
      and the vector written, or the exception it raises, checked in the
      order the source meets them. */
  function Item(w: string, n: nat, wordToIndex: map<string, int>, wordToVec: map<string, Vector>, dim: nat)
    : (r: Result<(nat, Vector)>)
    requires w in wordToIndex
    ensures r.Ok? ==> r.value.0 < n && |r.value.1| == dim
  {
    match VectorFor(wordToVec, w)
    case Err(e) => Err(e)
    case Ok(fd) =>
      match RowOf(wordToIndex[w], n)
      case None => Err(IndexError(wordToIndex[w]))
      case Some(row) =>
        match Broadcast(fd, dim)
        case None => Err(BroadcastError(|fd|, dim))
        case Some(v) => Ok((row, v))
  }

  /** The loop over word_to_index.items(), in dictionary order, starting
      from the matrix rows. */
  function Fill(rows: seq<Vector>, order: seq<string>, wordToIndex: map<string, int>,
                wordToVec: map<string, Vector>, dim: nat): Result<seq<Vector>>
    requires Keyed(order, wordToIndex)
    decreases |order|
  {
    if order == [] then Ok(rows)
    else
      match Item(order[0], |rows|, wordToIndex, wordToVec, dim)
      case Err(e) => Err(e)
      case Ok(p) => Fill(rows[p.0 := p.1], order[1..], wordToIndex, wordToVec, dim)
  }

  // ---------------------------------------------------------------------
  // The method

  /** pel up to the matrix: a missing "cucumber"
      (whose vector gives the dimension) fails first; otherwise the result is
      the fill of the (|wordToIndex| + 1) by dim zero matrix. order is the
      iteration order of wordToIndex: each of its keys once. */
  method EmbeddingMatrix(wordToVec: map<string, Vector>, wordToIndex: map<string, int>, order: seq<string>)
    returns (res: Result<array<Vector>>)
    requires Distinct(order)
    requires forall w :: w in wordToIndex <==> w in order
    ensures "cucumber" !in wordToVec ==> res == Err(KeyError("cucumber"))
    ensures "cucumber" in wordToVec ==>
      var f := Fill(Zeros(|wordToIndex| + 1, |wordToVec["cucumber"]|), order, wordToIndex,
                    wordToVec, |wordToVec["cucumber"]|);
      && (res.Ok? <==> f.Ok?)
      && (res.Err? ==> res.error == f.error)
      && (res.Ok? ==> fresh(res.value) && res.value[..] == f.value)
  {
    if "cucumber" !in wordToVec {
      return Err(KeyError("cucumber"));
    }
    var vocabLen := |wordToIndex| + 1;
    var embDim := |wordToVec["cucumber"]|;
    var embMatrix := new Vector[vocabLen](_ => seq(embDim, _ => 0.0));
    ghost var start := embMatrix[..];
    assert start == Zeros(vocabLen, embDim);
    var k := 0;
    while k < |order|
      invariant 0 <= k <= |order|
      invariant Keyed(order[k..], wordToIndex)
      invariant Fill(embMatrix[..], order[k..], wordToIndex, wordToVec, embDim)
             == Fill(start, order, wordToIndex, wordToVec, embDim)
    {
      var word := order[k];
      assert order[k..][1..] == order[k + 1..];
      var fd;
      if word in wordToVec {
        fd := wordToVec[word];
      } else if "unknown" in wordToVec {
        fd := wordToVec["unknown"];
      } else {
        return Err(KeyError("unknown"));
      }
      var idx := wordToIndex[word];
      var row;
      if 0 <= idx < vocabLen {
        row := idx;
      } else if -vocabLen <= idx < 0 {
        row := idx + vocabLen;
      } else {
        return Err(IndexError(idx));
      }
      var v;
      if |fd| == embDim {
        v := fd;
      } else if |fd| == 1 {
        v := seq(embDim, _ => fd[0]);
      } else {
        return Err(BroadcastError(|fd|, embDim));
      }
      assert Item(word, vocabLen, wordToIndex, wordToVec, embDim) == Ok((row, v));
      embMatrix[row] := v;
      k := k + 1;
    }
    return Ok(embMatrix);
  }

  // ---------------------------------------------------------------------
  // What the fill computes

  predicate AllItemsOk(order: seq<string>, n: nat, wordToIndex: map<string, int>,
                       wordToVec: map<string, Vector>, dim: nat)
    requires Keyed(order, wordToIndex)
  {
    forall k :: 0 <= k < |order| ==> Item(order[k], n, wordToIndex, wordToVec, dim).Ok?
  }

  /** No two words of order write the same row. */
  predicate DistinctRows(order: seq<string>, n: nat, wordToIndex: map<string, int>,
                         wordToVec: map<string, Vector>, dim: nat)
    requires Keyed(order, wordToIndex) && AllItemsOk(order, n, wordToIndex, wordToVec, dim)
  {
    forall a, b :: 0 <= a < b < |order| ==>
      Item(order[a], n, wordToIndex, wordToVec, dim).value.0 != Item(order[b], n, wordToIndex, wordToVec, dim).value.0
  }

  /** The fill succeeds exactly when every word's iteration does, and then
      keeps the number of rows. */
  lemma {:induction false} FillOk(rows: seq<Vector>, order: seq<string>, wordToIndex: map<string, int>,
                                  wordToVec: map<string, Vector>, dim: nat)
    requires Keyed(order, wordToIndex)
    ensures Fill(rows, order, wordToIndex, wordToVec, dim).Ok? <==> AllItemsOk(order, |rows|, wordToIndex, wordToVec, dim)
    ensures Fill(rows, order, wordToIndex, wordToVec, dim).Ok? ==>
      |Fill(rows, order, wordToIndex, wordToVec, dim).value| == |rows|
    decreases |order|
  {
    if order != [] {
      var it := Item(order[0], |rows|, wordToIndex, wordToVec, dim);
      if it.Ok? {
        var next := rows[it.value.0 := it.value.1];
        FillOk(next, order[1..], wordToIndex, wordToVec, dim);
        assert forall k :: 1 <= k < |order| ==> order[k] == order[1..][k - 1];
      }
    }
  }

  /** A failing fill raises the exception of the first word whose iteration fails. */
  lemma {:induction false} FillFirstError(rows: seq<Vector>, order: seq<string>, wordToIndex: map<string, int>,
                                          wordToVec: map<string, Vector>, dim: nat)
    requires Keyed(order, wordToIndex)
    requires Fill(rows, order, wordToIndex, wordToVec, dim).Err?
    ensures exists k ::
      && 0 <= k < |order|
      && (forall m :: 0 <= m < k ==> Item(order[m], |rows|, wordToIndex, wordToVec, dim).Ok?)
      && Item(order[k], |rows|, wordToIndex, wordToVec, dim) == Err(Fill(rows, order, wordToIndex, wordToVec, dim).error)
    decreases |order|
  {
    var it := Item(order[0], |rows|, wordToIndex, wordToVec, dim);
    if it.Err? {
      assert 0 < |order| && Item(order[0], |rows|, wordToIndex, wordToVec, dim) == Err(Fill(rows, order, wordToIndex, wordToVec, dim).error);
    } else {
      var next := rows[it.value.0 := it.value.1];
      FillFirstError(next, order[1..], wordToIndex, wordToVec, dim);
      var k :| 0 <= k < |order[1..]|
        && (forall m :: 0 <= m < k ==> Item(order[1..][m], |next|, wordToIndex, wordToVec, dim).Ok?)
        && Item(order[1..][k], |next|, wordToIndex, wordToVec, dim) == Err(Fill(next, order[1..], wordToIndex, wordToVec, dim).error);
      forall m | 0 <= m < k + 1 ensures Item(order[m], |rows|, wordToIndex, wordToVec, dim).Ok? {
        if m > 0 {
          assert order[m] == order[1..][m - 1];
        }
      }
      assert order[k + 1] == order[1..][k];
    }
  }

  /** When no two words share a row, each word's row ends up holding its
      vector and every other row keeps its starting value. */
  lemma {:induction false} FillRows(rows: seq<Vector>, order: seq<string>, wordToIndex: map<string, int>,
                                    wordToVec: map<string, Vector>, dim: nat)
    requires Keyed(order, wordToIndex)
    requires AllItemsOk(order, |rows|, wordToIndex, wordToVec, dim)
    requires DistinctRows(order, |rows|, wordToIndex, wordToVec, dim)
    ensures Fill(rows, order, wordToIndex, wordToVec, dim).Ok?
    ensures |Fill(rows, order, wordToIndex, wordToVec, dim).value| == |rows|
    ensures forall k :: 0 <= k < |order| ==>
      var p := Item(order[k], |rows|, wordToIndex, wordToVec, dim).value;
      Fill(rows, order, wordToIndex, wordToVec, dim).value[p.0] == p.1
    ensures forall r ::
      (0 <= r < |rows| && forall k :: 0 <= k < |order| ==> Item(order[k], |rows|, wordToIndex, wordToVec, dim).value.0 != r)
      ==> Fill(rows, order, wordToIndex, wordToVec, dim).value[r] == rows[r]
    decreases |order|
  {
    FillOk(rows, order, wordToIndex, wordToVec, dim);
    if order != [] {
      var n := |rows|;
      var p0 := Item(order[0], n, wordToIndex, wordToVec, dim).value;
      var next := rows[p0.0 := p0.1];
      var tail := order[1..];
      assert forall k :: 0 <= k < |tail| ==> tail[k] == order[k + 1];
      FillRows(next, tail, wordToIndex, wordToVec, dim);
      var result := Fill(rows, order, wordToIndex, wordToVec, dim).value;
      assert result == Fill(next, tail, wordToIndex, wordToVec, dim).value;
      forall k | 0 <= k < |order|
        ensures result[Item(order[k], n, wordToIndex, wordToVec, dim).value.0]
             == Item(order[k], n, wordToIndex, wordToVec, dim).value.1
      {
        if k == 0 {
          assert forall m :: 0 <= m < |tail| ==> Item(tail[m], n, wordToIndex, wordToVec, dim).value.0 != p0.0;
        } else {
          assert order[k] == tail[k - 1];
        }
      }
    }
  }

  /** Over the vocabulary read_glove_vecs builds from the distinct sorted
      words ws, iterated in that order, with every vector dim long: the fill
      succeeds when every word has a vector or "unknown" has one, row 0 stays
      zero, and row k + 1 holds the vector of the k-th word. */
  lemma VocabularyEmbedding(ws: seq<string>, wordToVec: map<string, Vector>, dim: nat)
    requires Distinct(ws)
    requires forall w :: w in wordToVec ==> |wordToVec[w]| == dim
    requires "unknown" in wordToVec || forall k :: 0 <= k < |ws| ==> ws[k] in wordToVec
    ensures |Forward(ws)| == |ws|
    ensures Keyed(ws, Forward(ws))
    ensures var f := Fill(Zeros(|ws| + 1, dim), ws, Forward(ws), wordToVec, dim);
      && f.Ok?
      && |f.value| == |ws| + 1
      && f.value[0] == Zeros(|ws| + 1, dim)[0]
      && forall k :: 0 <= k < |ws| ==> f.value[k + 1] == VectorFor(wordToVec, ws[k]).value
  {
    ForwardValues(ws);
    var wti := Forward(ws);
    var n := |ws| + 1;
    var rows := Zeros(n, dim);
    forall k | 0 <= k < |ws|
      ensures Item(ws[k], n, wti, wordToVec, dim) == Ok((k + 1, VectorFor(wordToVec, ws[k]).value))
    {
    }
    FillRows(rows, ws, wti, wordToVec, dim);
  }
}
