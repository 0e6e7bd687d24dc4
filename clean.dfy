/** cleanX: the token-level normaliser run over every sentence of the
    data set, and over the user's sentence, before training or prediction. */
module Clean {
  import opened Text

  /** The argument of str.strip in cleanX; '.' is listed twice, which changes nothing. */
  const StripChars: string := "..,)(:?$#@&!;"

  predicate IsStripped(c: char) {
    c in StripChars
  }

  /** A whitespace token after stripping its ends and deleting apostrophes. */
  function Normalize(j: string): string {
    var s := Strip(j, IsStripped);
    if '\'' in s then Delete(s, '\'') else s
  }

  /** The first two pieces of t split on sep; sep in t makes there be two. */
  function FirstTwo(t: string, sep: char): seq<string>
    requires sep in t
  {
    var p := SplitOn(t, sep);
    SplitOnShape(t, sep);
    [p[0], p[1]]
  }

  /** The output tokens one whitespace token contributes. */
  function CleanToken(j: string): seq<string> {
    var t := Normalize(j);
    if '.' in t then FirstTwo(t, '.')
    else if '/' in t then FirstTwo(t, '/')
    else if '-' in t then FirstTwo(t, '-')
    else if t == "speedbird" then [t[0..5], t[5..]]
    else [t]
  }

  /** The output tokens of a sentence's whitespace tokens, in order. */
  function CleanTokens(ts: seq<string>): seq<string> {
    if ts == [] then [] else CleanToken(ts[0]) + CleanTokens(ts[1..])
  }

  /** What cleanX writes back for one sentence. */
  function CleanSentence(s: string): string {
    JoinWith(CleanTokens(Words(s)), ' ')
  }

  /** The normalised tokens that cleanX replaces by two. */
  predicate Splits(t: string) {
    '.' in t || '/' in t || '-' in t || t == "speedbird"
  }

  // ---------------------------------------------------------------------
  // One token

  /** Normalising keeps the contiguous piece j[a..a + n] that strip leaves
      and deletes its apostrophes, keeping the other characters in order. */
  lemma NormalizeShape(j: string)
    ensures |LStrip(j, IsStripped)| <= |j|
    ensures var a := |j| - |LStrip(j, IsStripped)|;
      && a + |Strip(j, IsStripped)| <= |j|
      && Normalize(j) == Delete(j[a..a + |Strip(j, IsStripped)|], '\'')
  {
    LStripShape(j, IsStripped);
    var a := |j| - |LStrip(j, IsStripped)|;
    StripShape(j, IsStripped, a);
    var s := Strip(j, IsStripped);
    if '\'' !in s {
      DeleteAbsent(s, '\'');
    }
  }

  /** Normalising introduces no character and leaves no apostrophe. */
  lemma NormalizeChars(j: string)
    ensures CharsFrom(Normalize(j), j)
    ensures '\'' !in Normalize(j)
  {
    LStripShape(j, IsStripped);
    var a := |j| - |LStrip(j, IsStripped)|;
    StripShape(j, IsStripped, a);
    var s := Strip(j, IsStripped);
    forall i | 0 <= i < |s| ensures s[i] in j {
      assert s[i] == j[a + i];
    }
    if '\'' in s {
      DeleteShape(s, '\'');
      CharsFromTrans(Delete(s, '\''), s, j);
    }
  }

  lemma CharsFromTrans(a: string, b: string, c: string)
    requires CharsFrom(a, b) && CharsFrom(b, c)
    ensures CharsFrom(a, c)
  {
  }

  /** A token contributes two output tokens exactly when its normal form
      contains '.', '/' or '-' or is "speedbird", and one (itself) otherwise. */
  lemma CleanTokenCount(j: string)
    ensures |CleanToken(j)| == 2 <==> Splits(Normalize(j))
    ensures |CleanToken(j)| == 1 <==> !Splits(Normalize(j))
    ensures !Splits(Normalize(j)) ==> CleanToken(j) == [Normalize(j)]
  {
  }

  /** A token whose normal form contains '.', '/' or '-' yields the first
      two pieces of its split on the first of these it contains, checked
      in that order. */
  lemma CleanTokenSplitPieces(j: string, sep: char)
    requires sep in Normalize(j)
    requires sep == '.' || ('.' !in Normalize(j) && (sep == '/' || ('/' !in Normalize(j) && sep == '-')))
    ensures |CleanToken(j)| == 2
    ensures FirstPieces(Normalize(j), sep, CleanToken(j)[0], CleanToken(j)[1])
  {
    SplitOnFirstTwo(Normalize(j), sep);
  }

  /** "speedbird", which has no separator, yields "speed" and "bird". */
  lemma CleanTokenSpeedbird(j: string)
    requires Normalize(j) == "speedbird"
    ensures CleanToken(j) == ["speed", "bird"]
  {
    var t := Normalize(j);
    assert t[0..5] == "speed";
    assert t[5..] == "bird";
  }

  /** Every output token of j is made of characters of j and has no apostrophe. */
  lemma CleanTokenChars(j: string)
    ensures forall k :: 0 <= k < |CleanToken(j)| ==>
      CharsFrom(CleanToken(j)[k], j) && '\'' !in CleanToken(j)[k]
  {
    var t := Normalize(j);
    var r := CleanToken(j);
    NormalizeChars(j);
    forall k | 0 <= k < |r| ensures CharsFrom(r[k], t) {
      if '.' in t || '/' in t || '-' in t {
        var sep := if '.' in t then '.' else if '/' in t then '/' else '-';
        var p := SplitOn(t, sep);
        SplitOnShape(t, sep);
        assert r[k] == p[k];
        SplitOnJoin(t, sep);
        JoinWithKeepsChars(p, sep, k);
      } else if t == "speedbird" {
        forall i | 0 <= i < |r[k]| ensures r[k][i] in t {
          assert r[k][i] == t[5 * k + i];
        }
      }
    }
    forall k | 0 <= k < |r| ensures CharsFrom(r[k], j) && '\'' !in r[k] {
      CharsFromTrans(r[k], t, j);
    }
  }

  // ---------------------------------------------------------------------
  // A sentence's tokens

  /** Cleaning distributes over concatenation: each token is cleaned on its own. */
  lemma {:induction false} CleanTokensConcat(ts: seq<string>, us: seq<string>)
    ensures CleanTokens(ts + us) == CleanTokens(ts) + CleanTokens(us)
  {
    if ts == [] {
      assert ts + us == us;
    } else {
      assert (ts + us)[1..] == ts[1..] + us;
      CleanTokensConcat(ts[1..], us);
    }
  }

  /** One more token of ts cleaned: the loop step of cleanX. */
  lemma CleanTokensStep(ts: seq<string>, t: nat)
    requires t < |ts|
    ensures CleanTokens(ts[..t + 1]) == CleanTokens(ts[..t]) + CleanToken(ts[t])
  {
    assert ts[..t + 1] == ts[..t] + [ts[t]];
    CleanTokensConcat(ts[..t], [ts[t]]);
    assert CleanTokens([ts[t]]) == CleanToken(ts[t]) + CleanTokens([]);
  }

  /** n whitespace tokens give between n and 2n output tokens. */
  lemma {:induction false} CleanTokensCount(ts: seq<string>)
    ensures |ts| <= |CleanTokens(ts)| <= 2 * |ts|
  {
    if ts != [] {
      CleanTokenCount(ts[0]);
      CleanTokensCount(ts[1..]);
    }
  }

  /** No output token has an apostrophe, and none has whitespace when no
      input token had any. */
  lemma {:induction false} CleanTokensChars(ts: seq<string>)
    ensures forall k :: 0 <= k < |CleanTokens(ts)| ==> '\'' !in CleanTokens(ts)[k]
    ensures (forall k :: 0 <= k < |ts| ==> NoSpace(ts[k])) ==>
      forall k :: 0 <= k < |CleanTokens(ts)| ==> NoSpace(CleanTokens(ts)[k])
  {
    if ts != [] {
      var head := CleanToken(ts[0]);
      var r := CleanTokens(ts);
      CleanTokenChars(ts[0]);
      CleanTokensChars(ts[1..]);
      assert r == head + CleanTokens(ts[1..]);
      if forall k :: 0 <= k < |ts| ==> NoSpace(ts[k]) {
        forall k | 0 <= k < |r| ensures NoSpace(r[k]) {
          if k < |head| {
            NoSpaceFrom(r[k], ts[0]);
          } else {
            assert r[k] == CleanTokens(ts[1..])[k - |head|];
            assert forall m :: 0 <= m < |ts[1..]| ==> NoSpace(ts[1..][m]);
          }
        }
      }
    }
  }

  lemma {:induction false} NonEmptyCount(ts: seq<string>)
    ensures |NonEmpty(ts)| <= |ts|
  {
    if ts != [] {
      NonEmptyCount(ts[1..]);
    }
  }

  /** Splitting a cleaned sentence again yields exactly its non-empty output
      tokens, so a sentence of n words comes back with at most 2n words. */
  lemma CleanSentenceWords(s: string)
    ensures Words(CleanSentence(s)) == NonEmpty(CleanTokens(Words(s)))
    ensures |Words(CleanSentence(s))| <= 2 * |Words(s)|
  {
    var ts := CleanTokens(Words(s));
    WordsShape(s);
    CleanTokensChars(Words(s));
    WordsOfJoin(ts);
    NonEmptyCount(ts);
    CleanTokensCount(Words(s));
  }

  // ---------------------------------------------------------------------
  // cleanX itself

  /** Rewrites every sentence of X in place with its cleaned form, one
      element per step, and returns X. */
  method CleanX(X: array<string>) returns (r: array<string>)
    modifies X
    ensures r == X
    ensures forall h :: 0 <= h < X.Length ==> X[h] == CleanSentence(old(X[h]))
  {
    var h := 0;
    while h < X.Length
      invariant 0 <= h <= X.Length
      invariant forall k :: 0 <= k < h ==> X[k] == CleanSentence(old(X[k]))
      invariant forall k :: h <= k < X.Length ==> X[k] == old(X[k])
    {
      var nh := Words(X[h]);
      var newNh: seq<string> := [];
      var t := 0;
      ghost var before := X[..];
      while t < |nh|
        invariant 0 <= t <= |nh|
        invariant newNh == CleanTokens(nh[..t])
        invariant X[..] == before
      {
        newNh := newNh + CleanToken(nh[t]);
        CleanTokensStep(nh, t);
        t := t + 1;
      }
      assert nh[..t] == nh;
      X[h] := JoinWith(newNh, ' ');
      h := h + 1;
    }
    r := X;
  }
}
