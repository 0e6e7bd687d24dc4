/** The Python string built-ins that the cleaning and encoding routines
    use, on strings as sequences of code points: str.split() and
    str.split(sep), str.join, str.strip(chars), str.replace(c, "") and
    str.lower(). */
module Text {

  /** Python's str.isspace: the separators of str.split() with no argument. */
  predicate IsSpace(c: char) {
    || ('\U{9}' <= c <= '\U{D}')
    || ('\U{1C}' <= c <= '\U{20}')
    || c == '\U{85}' || c == '\U{A0}' || c == '\U{1680}'
    || ('\U{2000}' <= c <= '\U{200A}')
    || c == '\U{2028}' || c == '\U{2029}' || c == '\U{202F}'
    || c == '\U{205F}' || c == '\U{3000}'
  }

  predicate NoSpace(s: string) {
    forall i :: 0 <= i < |s| ==> !IsSpace(s[i])
  }

  /** Every character of r occurs in s. */
  predicate CharsFrom(r: string, s: string) {
    forall i :: 0 <= i < |r| ==> r[i] in s
  }

  lemma NoSpaceFrom(r: string, s: string)
    requires CharsFrom(r, s) && NoSpace(s)
    ensures NoSpace(r)
  {
  }

  // ---------------------------------------------------------------------
  // str.lstrip / str.rstrip / str.strip with a character class

  /** Drops every leading character that `drop` selects. */
  function LStrip(s: string, drop: char -> bool): string {
    if s != [] && drop(s[0]) then LStrip(s[1..], drop) else s
  }

  /** LStrip keeps a suffix, drops only selected characters, and leaves no
      selected character in front. */
  lemma {:induction false} LStripShape(s: string, drop: char -> bool)
    ensures var r := LStrip(s, drop);
      && |r| <= |s| && r == s[|s| - |r|..]
      && (forall i :: 0 <= i < |s| - |r| ==> drop(s[i]))
      && (r == [] || !drop(r[0]))
  {
    if s != [] && drop(s[0]) {
      LStripShape(s[1..], drop);
    }
  }

  /** Drops every trailing character that `drop` selects. */
  function RStrip(s: string, drop: char -> bool): string {
    if s != [] && drop(s[|s| - 1]) then RStrip(s[..|s| - 1], drop) else s
  }

  /** RStrip keeps a prefix, drops only selected characters, and leaves no
      selected character at the end. */
  lemma {:induction false} RStripShape(s: string, drop: char -> bool)
    ensures var r := RStrip(s, drop);
      && |r| <= |s| && r == s[..|r|]
      && (forall i :: |r| <= i < |s| ==> drop(s[i]))
      && (r == [] || !drop(r[|r| - 1]))
  {
    if s != [] && drop(s[|s| - 1]) {
      RStripShape(s[..|s| - 1], drop);
    }
  }

  /** str.strip(chars), with `drop` telling which characters are in chars. */
  function Strip(s: string, drop: char -> bool): string {
    RStrip(LStrip(s, drop), drop)
  }

  /** Strip keeps the one contiguous piece s[a..a + |r|] of s, removes only
      selected characters around it, and leaves no selected character at
      either end of what it keeps. */
  lemma StripShape(s: string, drop: char -> bool, a: nat)
    requires a == |s| - |LStrip(s, drop)|
    ensures a + |Strip(s, drop)| <= |s|
    ensures Strip(s, drop) == s[a..a + |Strip(s, drop)|]
    ensures forall i :: 0 <= i < a ==> drop(s[i])
    ensures forall i :: a + |Strip(s, drop)| <= i < |s| ==> drop(s[i])
    ensures Strip(s, drop) == [] || !drop(Strip(s, drop)[0])
    ensures Strip(s, drop) == [] || !drop(Strip(s, drop)[|Strip(s, drop)| - 1])
  {
    var l := LStrip(s, drop);
    var r := RStrip(l, drop);
    LStripShape(s, drop);
    RStripShape(l, drop);
    SuffixPrefix(s, a, |r|);
    forall i | a + |r| <= i < |s| ensures drop(s[i]) {
      assert s[i] == l[i - a];
    }
  }

  lemma SuffixPrefix(s: string, a: nat, n: nat)
    requires a + n <= |s|
    ensures s[a..][..n] == s[a..a + n]
  {
  }

  // ---------------------------------------------------------------------
  // str.replace(c, "")

  /** Deletes every occurrence of c. */
  function Delete(s: string, c: char): string {
    if s == [] then []
    else (if s[0] == c then [] else [s[0]]) + Delete(s[1..], c)
  }

  /** Deleting c leaves no c and brings in no new character. */
  lemma {:induction false} DeleteShape(s: string, c: char)
    ensures c !in Delete(s, c)
    ensures CharsFrom(Delete(s, c), s)
  {
    if s != [] {
      DeleteShape(s[1..], c);
      var r := Delete(s, c);
      var rest := Delete(s[1..], c);
      forall i | 0 <= i < |r| ensures r[i] in s {
        if s[0] != c && i == 0 {
          assert r[0] == s[0];
        } else {
          var k := if s[0] == c then i else i - 1;
          assert r[i] == rest[k];
          assert rest[k] in s[1..];
        }
      }
    }
  }

  /** Deleting c keeps every other character exactly as often as before. */
  lemma {:induction false} DeleteCounts(s: string, c: char)
    ensures multiset(Delete(s, c)) == multiset(s)[c := 0]
  {
    if s != [] {
      DeleteCounts(s[1..], c);
      assert s == [s[0]] + s[1..];
    }
  }

  /** Deleting works character by character, keeping the order of what it
      keeps: one character goes or stays, and a concatenation is deleted piecewise. */
  lemma {:induction false} DeleteConcat(s: string, t: string, c: char)
    ensures Delete(s + t, c) == Delete(s, c) + Delete(t, c)
    ensures |s| == 1 ==> Delete(s, c) == if s[0] == c then [] else s
  {
    if s != [] {
      assert (s + t)[1..] == s[1..] + t;
      DeleteConcat(s[1..], t, c);
    } else {
      assert s + t == t;
    }
  }

  /** A string without c is left as it is. */
  lemma {:induction false} DeleteAbsent(s: string, c: char)
    requires c !in s
    ensures Delete(s, c) == s
  {
    if s != [] {
      DeleteAbsent(s[1..], c);
      assert s == [s[0]] + s[1..];
    }
  }

  // ---------------------------------------------------------------------
  // str.split(sep) and sep.join(pieces)

  /** sep.join(ts) for a one-character separator. */
  function JoinWith(ts: seq<string>, sep: char): string {
    if ts == [] then []
    else if |ts| == 1 then ts[0]
    else ts[0] + [sep] + JoinWith(ts[1..], sep)
  }

  /** str.split(sep): all pieces between occurrences of sep, empty ones included. */
  function SplitOn(s: string, sep: char): (r: seq<string>)
    ensures |r| >= 1
  {
    if s == [] then [[]]
    else
      var rest := SplitOn(s[1..], sep);
      if s[0] == sep then [[]] + rest
      else [[s[0]] + rest[0]] + rest[1..]
  }

  /** No piece holds the separator, and there are two or more pieces
      exactly when the separator occurs. */
  lemma {:induction false} SplitOnShape(s: string, sep: char)
    ensures forall k :: 0 <= k < |SplitOn(s, sep)| ==> sep !in SplitOn(s, sep)[k]
    ensures sep in s <==> |SplitOn(s, sep)| >= 2
  {
    if s != [] {
      SplitOnShape(s[1..], sep);
      assert s == [s[0]] + s[1..];
    }
  }

  /** Splitting and re-joining on the same separator gives back the string;
      with the pieces free of the separator, this pins the split down. */
  lemma {:induction false} SplitOnJoin(s: string, sep: char)
    ensures JoinWith(SplitOn(s, sep), sep) == s
  {
    if s != [] {
      var rest := SplitOn(s[1..], sep);
      SplitOnJoin(s[1..], sep);
      var r := SplitOn(s, sep);
      if s[0] == sep {
        assert r[1..] == rest;
      } else if |rest| >= 2 {
        assert r[1..] == rest[1..];
        calc {
          JoinWith(r, sep);
          ([s[0]] + rest[0]) + [sep] + JoinWith(rest[1..], sep);
          [s[0]] + (rest[0] + [sep] + JoinWith(rest[1..], sep));
          [s[0]] + JoinWith(rest, sep);
          s;
        }
      }
    }
  }

  /** p0 and p1 are the first two pieces of t split on sep: the text before
      the first separator, then the text up to the next separator or the end. */
  predicate FirstPieces(t: string, sep: char, p0: string, p1: string) {
    var n := |p0| + 1 + |p1|;
    && n <= |t| && t[..n] == p0 + [sep] + p1
    && (n == |t| || t[n] == sep)
    && sep !in p0 && sep !in p1
  }

  lemma SplitOnFirstTwo(s: string, sep: char)
    requires sep in s
    ensures |SplitOn(s, sep)| >= 2
    ensures FirstPieces(s, sep, SplitOn(s, sep)[0], SplitOn(s, sep)[1])
  {
    var p := SplitOn(s, sep);
    SplitOnShape(s, sep);
    SplitOnJoin(s, sep);
    var tail := JoinWith(p[1..], sep);
    assert s == p[0] + [sep] + tail;
    if |p| == 2 {
      assert tail == p[1];
    } else {
      assert p[1..][1..] == p[2..];
      assert tail == p[1] + [sep] + JoinWith(p[2..], sep);
    }
  }

  /** Every character of a piece of a join occurs in the joined string. */
  lemma {:induction false} JoinWithKeepsChars(ts: seq<string>, sep: char, k: nat)
    requires k < |ts|
    ensures CharsFrom(ts[k], JoinWith(ts, sep))
  {
    if |ts| > 1 {
      var rest := JoinWith(ts[1..], sep);
      assert JoinWith(ts, sep) == ts[0] + [sep] + rest;
      if k == 0 {
        forall i | 0 <= i < |ts[0]| ensures ts[0][i] in JoinWith(ts, sep) {
          assert JoinWith(ts, sep)[i] == ts[0][i];
        }
      } else {
        JoinWithKeepsChars(ts[1..], sep, k - 1);
        forall i | 0 <= i < |ts[k]| ensures ts[k][i] in JoinWith(ts, sep) {
          var j :| 0 <= j < |rest| && rest[j] == ts[k][i];
          assert JoinWith(ts, sep)[|ts[0]| + 1 + j] == rest[j];
        }
      }
    }
  }

  // ---------------------------------------------------------------------
  // str.split() with no argument

  /** Drops leading whitespace. */
  function DropSpaces(s: string): string {
    LStrip(s, IsSpace)
  }

  /** The longest prefix of s free of whitespace. */
  function TakeWord(s: string): string {
    if s == [] || IsSpace(s[0]) then [] else [s[0]] + TakeWord(s[1..])
  }

  /** TakeWord keeps the longest whitespace-free prefix. */
  lemma {:induction false} TakeWordShape(s: string)
    ensures var r := TakeWord(s);
      && |r| <= |s| && r == s[..|r|] && NoSpace(r)
      && (|r| == |s| || IsSpace(s[|r|]))
  {
    if s != [] && !IsSpace(s[0]) {
      TakeWordShape(s[1..]);
      assert s == [s[0]] + s[1..];
    }
  }

  /** str.split(): the maximal runs of non-whitespace characters, in order. */
  function Words(s: string): seq<string>
    decreases |s|
  {
    var t := DropSpaces(s);
    if t == [] then []
    else
      var w := TakeWord(t);
      LStripShape(s, IsSpace);
      TakeWordShape(t);
      [w] + Words(t[|w|..])
  }

  /** The words of a split are non-empty and free of whitespace. */
  lemma {:induction false} WordsShape(s: string)
    ensures forall k :: 0 <= k < |Words(s)| ==> Words(s)[k] != [] && NoSpace(Words(s)[k])
    decreases |s|
  {
    var t := DropSpaces(s);
    if t != [] {
      var w := TakeWord(t);
      LStripShape(s, IsSpace);
      TakeWordShape(t);
      WordsShape(t[|w|..]);
      assert Words(s) == [w] + Words(t[|w|..]);
    }
  }

  /** The non-empty strings of ts, in order. */
  function NonEmpty(ts: seq<string>): seq<string> {
    if ts == [] then []
    else (if ts[0] == [] then [] else [ts[0]]) + NonEmpty(ts[1..])
  }

  lemma {:induction false} TakeWordPrefix(w: string, rest: string)
    requires NoSpace(w)
    requires rest == [] || IsSpace(rest[0])
    ensures TakeWord(w + rest) == w
  {
    if w != [] {
      assert (w + rest)[1..] == w[1..] + rest;
      TakeWordPrefix(w[1..], rest);
    }
  }

  lemma WordsOfWord(w: string)
    requires NoSpace(w)
    ensures Words(w) == if w == [] then [] else [w]
  {
    if w != [] {
      assert DropSpaces(w) == w;
      TakeWordPrefix(w, []);
      assert w + [] == w;
      assert w[|w|..] == [];
    }
  }

  lemma WordsAfterSpace(r: string)
    ensures Words([' '] + r) == Words(r)
  {
  }

  lemma WordsCons(w: string, r: string)
    requires NoSpace(w)
    ensures Words(w + [' '] + r) == (if w == [] then [] else [w]) + Words(r)
  {
    var s := w + [' '] + r;
    if w == [] {
      assert s == [' '] + r;
      WordsAfterSpace(r);
    } else {
      assert DropSpaces(s) == s;
      assert s == w + ([' '] + r);
      TakeWordPrefix(w, [' '] + r);
      assert s[|w|..] == [' '] + r;
      WordsAfterSpace(r);
    }
  }

  /** A leading whitespace character separates nothing. */
  lemma SpaceHead(x: string)
    requires x != [] && IsSpace(x[0])
    ensures Words(x) == Words(x[1..])
  {
  }

  /** A whitespace-free word followed by the end or by whitespace is the
      first word of split(). */
  lemma WordsFront(w: string, r: string)
    requires w != [] && NoSpace(w)
    requires r == [] || IsSpace(r[0])
    ensures Words(w + r) == [w] + Words(r)
  {
    var x := w + r;
    assert DropSpaces(x) == x;
    TakeWordPrefix(w, r);
    assert x[|w|..] == r;
  }

  /** Any whitespace character, not only ' ', separates the words before it
      from the words after it. With WordsOfWord this fixes split() on every
      string. */
  lemma {:induction false} WordsSep(s: string, c: char, t: string)
    requires IsSpace(c)
    ensures Words(s + [c] + t) == Words(s) + Words(t)
    decreases |s|
  {
    if s == [] {
      var x := s + [c] + t;
      assert x == [c] + t;
      SpaceHead(x);
      assert x[1..] == t;
    } else if IsSpace(s[0]) {
      WordsSep(s[1..], c, t);
      WordsSepSpace(s, c, t);
    } else {
      var w := TakeWord(s);
      TakeWordShape(s);
      var u := s[|w|..];
      assert s == w + u;
      WordsSep(u, c, t);
      WordsSepWord(w, u, c, t);
    }
  }

  /** The step of WordsSep past a leading whitespace character of s. */
  lemma WordsSepSpace(s: string, c: char, t: string)
    requires s != [] && IsSpace(s[0])
    requires Words(s[1..] + [c] + t) == Words(s[1..]) + Words(t)
    ensures Words(s + [c] + t) == Words(s) + Words(t)
  {
    var x := s + [c] + t;
    SpaceHead(x);
    SpaceHead(s);
    assert x[1..] == s[1..] + [c] + t;
  }

  /** The step of WordsSep past the first word w of s = w + u. */
  lemma WordsSepWord(w: string, u: string, c: char, t: string)
    requires IsSpace(c) && w != [] && NoSpace(w)
    requires u == [] || IsSpace(u[0])
    requires Words(u + [c] + t) == Words(u) + Words(t)
    ensures Words(w + u + [c] + t) == Words(w + u) + Words(t)
  {
    var r := u + [c] + t;
    assert r[0] == (if u == [] then c else u[0]);
    assert w + u + [c] + t == w + r;
    calc {
      Words(w + r);
      { WordsFront(w, r); }
      [w] + Words(r);
      [w] + (Words(u) + Words(t));
      ([w] + Words(u)) + Words(t);
      { WordsFront(w, u); }
      Words(w + u) + Words(t);
    }
  }

  /** Splitting a space-joined sequence of whitespace-free tokens gives back
      the tokens, less the empty ones (which join into extra spaces). */
  lemma {:induction false} WordsOfJoin(ts: seq<string>)
    requires forall k :: 0 <= k < |ts| ==> NoSpace(ts[k])
    ensures Words(JoinWith(ts, ' ')) == NonEmpty(ts)
  {
    if ts == [] {
    } else if |ts| == 1 {
      WordsOfWord(ts[0]);
      assert NonEmpty(ts[1..]) == [];
    } else {
      WordsCons(ts[0], JoinWith(ts[1..], ' '));
      WordsOfJoin(ts[1..]);
    }
  }

  // ---------------------------------------------------------------------
  // str.lower()

  /** Lower-cases the ASCII letters and keeps every other character. */
  function LowerChar(c: char): char {
    if 'A' <= c <= 'Z' then (c as int + 32) as char else c
  }

  /** str.lower() on ASCII letters. */
  function Lower(s: string): string {
    seq(|s|, i requires 0 <= i < |s| => LowerChar(s[i]))
  }

  const Capitals: string := "ABCDEFGHIJKLMNOPQRSTUVWXYZ"
  const Smalls: string := "abcdefghijklmnopqrstuvwxyz"

  /** Lower-casing keeps the length, turns the k-th capital into the k-th
      small letter, keeps every other character, leaves no ASCII capital,
      and a second pass changes nothing. */
  lemma LowerShape(s: string)
    ensures |Lower(s)| == |s|
    ensures forall i, k :: 0 <= i < |s| && 0 <= k < |Capitals| && s[i] == Capitals[k] ==> Lower(s)[i] == Smalls[k]
    ensures forall i :: 0 <= i < |s| ==> !('A' <= Lower(s)[i] <= 'Z')
    ensures forall i :: 0 <= i < |s| && !('A' <= s[i] <= 'Z') ==> Lower(s)[i] == s[i]
    ensures Lower(Lower(s)) == Lower(s)
  {
  }
}
