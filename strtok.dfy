/**
 * Splitting a command line into its words the way repeated calls of
 * strtok_r (s, " ", &save_ptr) do: runs of spaces separate words, leading
 * and trailing spaces produce nothing, and every word is a maximal run of
 * non-space bytes.
 */
module Strtok {
  import opened Wrappers
  import opened Bytes

  /** The delimiter set " " that process.c passes to strtok_r. */
  const SPACE: byte := 0x20

  /** A C string: no NUL byte inside; the terminator is not part of the sequence. */
  predicate CString(s: seq<byte>) {
    forall i :: 0 <= i < |s| ==> s[i] != 0
  }

  /** What strtok_r can return as a token: a non-empty run of non-space bytes. */
  predicate IsWord(t: seq<byte>) {
    t != [] && forall i :: 0 <= i < |t| ==> t[i] != SPACE
  }

  /** The length of the run of non-space bytes at the head of s. */
  function WordLen(s: seq<byte>): (n: nat)
    ensures n <= |s|
    ensures forall i :: 0 <= i < n ==> s[i] != SPACE
    ensures n < |s| ==> s[n] == SPACE
    ensures s != [] && s[0] != SPACE ==> n > 0
    decreases |s|
  {
    if s == [] || s[0] == SPACE then 0 else 1 + WordLen(s[1..])
  }

  /** The tokens successive strtok_r calls return on s, in order. */
  function Tokens(s: seq<byte>): (r: seq<seq<byte>>)
    decreases |s|
  {
    if s == [] then []
    else if s[0] == SPACE then Tokens(s[1..])
    else
      var n := WordLen(s);
      [s[..n]] + Tokens(s[n..])
  }

  /**
   * One call of strtok_r on the rest of the string s: skips leading spaces,
   * returns None when nothing but spaces is left, and otherwise returns the
   * token and the rest after the space that ends it (which strtok_r
   * overwrites with a NUL and where save_ptr then points).
   */
  function NextToken(s: seq<byte>): (r: Option<(seq<byte>, seq<byte>)>)
    ensures r.None? <==> forall i :: 0 <= i < |s| ==> s[i] == SPACE
    ensures r.Some? ==> IsWord(r.value.0) && |r.value.0| + |r.value.1| <= |s|
    ensures r.Some? ==> r.value.1 == s[|s| - |r.value.1|..]
    decreases |s|
  {
    if s == [] then None
    else if s[0] == SPACE then NextToken(s[1..])
    else
      var n := WordLen(s);
      Some((s[..n], if n < |s| then s[n + 1..] else []))
  }

  /** Leading spaces change nothing for strtok_r: it skips them. */
  lemma {:induction false} NextTokenSkipSpaces(n: nat, t: seq<byte>)
    ensures NextToken(Spaces(n) + t) == NextToken(t)
  {
    if n > 0 {
      SpacesHead(n, t);
      NextTokenSkipSpaces(n - 1, t);
    } else {
      assert Spaces(n) + t == t;
    }
  }

  /** A line of n > 0 spaces and then t starts with a space, after which come n - 1 spaces and t. */
  lemma SpacesHead(n: nat, t: seq<byte>)
    requires n > 0
    ensures Spaces(n) + t != [] && (Spaces(n) + t)[0] == SPACE && (Spaces(n) + t)[1..] == Spaces(n - 1) + t
  {
    assert Spaces(n) + t == [SPACE] + (Spaces(n - 1) + t);
  }

  /**
   * On a line that starts with a word ended by a space or by the end of the
   * line, strtok_r returns exactly that word, and the rest after the space.
   */
  lemma NextTokenOfWord(w: seq<byte>, rest: seq<byte>)
    requires IsWord(w)
    requires rest == [] || rest[0] == SPACE
    ensures NextToken(w + rest) == Some((w, if rest == [] then [] else rest[1..]))
  {
    WordLenOfWord(w, rest);
    assert (w + rest)[..|w|] == w;
    if rest != [] {
      assert (w + rest)[|w| + 1..] == rest[1..];
    }
  }

  /**
   * strtok_r returns the first maximal run of non-space bytes: after any
   * number of spaces, a word ended by a space or by the end of the line is
   * the token, and the rest starts after that space.
   */
  lemma NextTokenFirstWord(k: nat, w: seq<byte>, rest: seq<byte>)
    requires IsWord(w)
    requires rest == [] || rest[0] == SPACE
    ensures NextToken(Spaces(k) + w + rest) == Some((w, if rest == [] then [] else rest[1..]))
  {
    ConcatAssoc(Spaces(k), w, rest);
    NextTokenSkipSpaces(k, w + rest);
    NextTokenOfWord(w, rest);
  }

  /**
   * Calling strtok_r again and again yields exactly Tokens(s): None when s
   * has no token, and otherwise its first token, the rest being shorter and
   * holding the other tokens.
   */
  lemma {:induction false} NextTokenSplits(s: seq<byte>)
    ensures NextToken(s).None? <==> Tokens(s) == []
    ensures NextToken(s).Some? ==>
      && |NextToken(s).value.1| < |s|
      && Tokens(s) == [NextToken(s).value.0] + Tokens(NextToken(s).value.1)
    decreases |s|
  {
    if s != [] && s[0] == SPACE {
      NextTokenSplits(s[1..]);
    } else if s != [] {
      var n := WordLen(s);
      if n < |s| {
        assert Tokens(s[n..]) == Tokens(s[n + 1..]);
      }
    }
  }

  /**
   * Every token is a word, it carries no NUL when s is a C string, and there
   * are at most (|s| + 1) / 2 of them, since two tokens need a space between
   * them.
   */
  lemma {:induction false} TokensAreWords(s: seq<byte>)
    ensures forall i :: 0 <= i < |Tokens(s)| ==> IsWord(Tokens(s)[i])
    ensures CString(s) ==> forall i :: 0 <= i < |Tokens(s)| ==> CString(Tokens(s)[i])
    ensures 2 * |Tokens(s)| <= |s| + 1
    decreases |s|
  {
    if s == [] {
    } else if s[0] == SPACE {
      TokensAreWords(s[1..]);
    } else {
      var n := WordLen(s);
      TokensAreWords(s[n..]);
      if n < |s| {
        TokensAreWords(s[n + 1..]);
        assert Tokens(s[n..]) == Tokens(s[n + 1..]);
      }
      forall i | 0 <= i < |Tokens(s)|
        ensures IsWord(Tokens(s)[i])
        ensures CString(s) ==> CString(Tokens(s)[i])
      {
        if i > 0 {
          assert Tokens(s)[i] == Tokens(s[n..])[i - 1];
        }
      }
    }
  }

  /** Words joined by single spaces, as a shell would write the argument vector. */
  function Join(ts: seq<seq<byte>>): seq<byte>
  {
    if ts == [] then []
    else if |ts| == 1 then ts[0]
    else ts[0] + [SPACE] + Join(ts[1..])
  }

  lemma {:induction false} WordLenOfWord(t: seq<byte>, rest: seq<byte>)
    requires IsWord(t)
    requires rest == [] || rest[0] == SPACE
    ensures WordLen(t + rest) == |t|
    decreases |t|
  {
    assert (t + rest)[0] == t[0];
    assert (t + rest)[1..] == t[1..] + rest;
    if |t| > 1 {
      WordLenOfWord(t[1..], rest);
    } else {
      assert t[1..] + rest == rest;
    }
  }

  /** Tokenising words joined by spaces gives the words back. */
  lemma {:induction false} TokensOfJoin(ts: seq<seq<byte>>)
    requires forall i :: 0 <= i < |ts| ==> IsWord(ts[i])
    ensures Tokens(Join(ts)) == ts
    decreases |ts|
  {
    if |ts| == 1 {
      WordLenOfWord(ts[0], []);
      assert ts[0][..|ts[0]|] == ts[0];
    } else if |ts| > 1 {
      var rest := [SPACE] + Join(ts[1..]);
      assert Join(ts) == ts[0] + rest;
      WordLenOfWord(ts[0], rest);
      assert (ts[0] + rest)[..|ts[0]|] == ts[0];
      assert (ts[0] + rest)[|ts[0]|..] == rest;
      assert rest[1..] == Join(ts[1..]);
      TokensOfJoin(ts[1..]);
    }
  }

  /** n spaces. */
  function Spaces(n: nat): (r: seq<byte>)
    ensures |r| == n && forall i :: 0 <= i < n ==> r[i] == SPACE
  {
    if n == 0 then [] else [SPACE] + Spaces(n - 1)
  }

  /**
   * Words ws laid out with runs of spaces around them: gaps[0] spaces,
   * ws[0], gaps[1] spaces, ws[1], ..., and gaps[|ws|] trailing spaces.
   */
  function Spread(ws: seq<seq<byte>>, gaps: seq<nat>): seq<byte>
    requires |gaps| == |ws| + 1
    decreases |ws|
  {
    if ws == [] then Spaces(gaps[0])
    else Spaces(gaps[0]) + ws[0] + Spread(ws[1..], gaps[1..])
  }

  /** Leading spaces produce no token. */
  lemma {:induction false} TokensSkipSpaces(n: nat, t: seq<byte>)
    ensures Tokens(Spaces(n) + t) == Tokens(t)
  {
    if n > 0 {
      SpacesHead(n, t);
      TokensSkipSpaces(n - 1, t);
    } else {
      assert Spaces(n) + t == t;
    }
  }

  /** A word followed by a space or by the end of the line is its first token. */
  lemma TokensOfWordThen(w: seq<byte>, rest: seq<byte>)
    requires IsWord(w)
    requires rest == [] || rest[0] == SPACE
    ensures Tokens(w + rest) == [w] + Tokens(rest)
  {
    WordLenOfWord(w, rest);
    assert (w + rest)[..|w|] == w;
    assert (w + rest)[|w|..] == rest;
  }

  /** A spread with a run of one space or more at its head starts with a space. */
  lemma SpreadStartsWithSpace(ws: seq<seq<byte>>, gaps: seq<nat>)
    requires |gaps| == |ws| + 1 && gaps[0] >= 1
    ensures Spread(ws, gaps) != [] && Spread(ws, gaps)[0] == SPACE
  {
    if ws != [] {
      assert Spread(ws, gaps) == Spaces(gaps[0]) + (ws[0] + Spread(ws[1..], gaps[1..]));
    }
  }

  /**
   * The tokens of any line made of words separated by runs of one or more
   * spaces, with any number of spaces before and after, are those words:
   * runs of spaces collapse and no empty token appears.
   */
  lemma {:induction false} TokensOfSpread(ws: seq<seq<byte>>, gaps: seq<nat>)
    requires |gaps| == |ws| + 1
    requires forall i :: 0 <= i < |ws| ==> IsWord(ws[i])
    requires forall i :: 0 < i < |ws| ==> gaps[i] >= 1
    ensures Tokens(Spread(ws, gaps)) == ws
    decreases |ws|
  {
    if ws == [] {
      TokensSkipSpaces(gaps[0], []);
      assert Spaces(gaps[0]) + [] == Spaces(gaps[0]);
    } else {
      var w := ws[0];
      var rest := Spread(ws[1..], gaps[1..]);
      assert Spread(ws, gaps) == Spaces(gaps[0]) + (w + rest);
      TokensSkipSpaces(gaps[0], w + rest);
      if gaps[1] > 0 {
        SpreadStartsWithSpace(ws[1..], gaps[1..]);
      } else {
        assert ws[1..] == [];
      }
      TokensOfWordThen(w, rest);
      TokensOfSpread(ws[1..], gaps[1..]);
      assert [w] + ws[1..] == ws;
    }
  }

  /**
   * The runs of spaces of s: before its first token, between its tokens
   * and after its last one.
   */
  function Gaps(s: seq<byte>): (g: seq<nat>)
    ensures |g| == |Tokens(s)| + 1
    ensures s != [] && s[0] == SPACE ==> g[0] >= 1
    decreases |s|
  {
    if s == [] then [0]
    else if s[0] == SPACE then
      var g := Gaps(s[1..]);
      [g[0] + 1] + g[1..]
    else [0] + Gaps(s[WordLen(s)..])
  }

  /** One more space at the head of a spread. */
  lemma SpreadConsSpace(ws: seq<seq<byte>>, gaps: seq<nat>)
    requires |gaps| == |ws| + 1
    ensures Spread(ws, [gaps[0] + 1] + gaps[1..]) == [SPACE] + Spread(ws, gaps)
  {
    var sp := Spaces(gaps[0]);
    assert Spaces(gaps[0] + 1) == [SPACE] + sp;
    if ws != [] {
      var tail := ws[0] + Spread(ws[1..], gaps[1..]);
      SpreadBumpHead(ws, gaps);
      SpreadUnfold(ws, gaps);
      ConsConcat(Spaces(gaps[0] + 1), sp, tail);
    }
  }

  /** Unfolding a spread whose first run is one space longer. */
  lemma SpreadBumpHead(ws: seq<seq<byte>>, gaps: seq<nat>)
    requires |gaps| == |ws| + 1 && ws != []
    ensures Spread(ws, [gaps[0] + 1] + gaps[1..]) == Spaces(gaps[0] + 1) + (ws[0] + Spread(ws[1..], gaps[1..]))
  {
    var g' := [gaps[0] + 1] + gaps[1..];
    assert g'[1..] == gaps[1..];
    SpreadUnfold(ws, g');
  }

  lemma SpreadUnfold(ws: seq<seq<byte>>, gaps: seq<nat>)
    requires |gaps| == |ws| + 1 && ws != []
    ensures Spread(ws, gaps) == Spaces(gaps[0]) + (ws[0] + Spread(ws[1..], gaps[1..]))
  {
  }

  lemma ConsConcat(a: seq<byte>, b: seq<byte>, d: seq<byte>)
    requires a == [SPACE] + b
    ensures a + d == [SPACE] + (b + d)
  {
  }

  /** A word, with no space before it, at the head of a spread. */
  lemma SpreadConsWord(w: seq<byte>, ws: seq<seq<byte>>, gaps: seq<nat>, ws': seq<seq<byte>>, gaps': seq<nat>)
    requires |gaps| == |ws| + 1 && ws' == [w] + ws && gaps' == [0] + gaps
    ensures |gaps'| == |ws'| + 1 && Spread(ws', gaps') == w + Spread(ws, gaps)
  {
    assert ws'[1..] == ws;
    assert gaps'[1..] == gaps;
    assert Spaces(0) + w == w;
  }

  /** The runs of spaces between two tokens of s are never empty. */
  predicate SeparatedGaps(s: seq<byte>) {
    forall i :: 0 < i < |Tokens(s)| ==> Gaps(s)[i] >= 1
  }

  /**
   * Every line is its tokens spread over its runs of spaces, and the runs
   * between two tokens are never empty: with TokensOfSpread, the tokens
   * are exactly the maximal runs of non-space bytes, in order.
   */
  lemma {:induction false} SpreadOfTokens(s: seq<byte>)
    ensures s == Spread(Tokens(s), Gaps(s))
    ensures SeparatedGaps(s)
    decreases |s|
  {
    if s == [] {
      assert Spread([], [0]) == Spaces(0);
    } else if s[0] == SPACE {
      SpreadOfTokens(s[1..]);
      SpreadOfTokensSpace(s);
    } else {
      SpreadOfTokens(s[WordLen(s)..]);
      SpreadOfTokensWord(s);
    }
  }

  /** SpreadOfTokens for a line that starts with a space, from the line after it. */
  lemma SpreadOfTokensSpace(s: seq<byte>)
    requires s != [] && s[0] == SPACE
    requires s[1..] == Spread(Tokens(s[1..]), Gaps(s[1..])) && SeparatedGaps(s[1..])
    ensures s == Spread(Tokens(s), Gaps(s)) && SeparatedGaps(s)
  {
    var t := s[1..];
    SpaceUnfold(s);
    SpreadConsSpace(Tokens(t), Gaps(t));
    assert s == [SPACE] + t;
  }

  /** SpreadOfTokens for a line that starts with a word, from the line after the word. */
  lemma SpreadOfTokensWord(s: seq<byte>)
    requires s != [] && s[0] != SPACE
    requires var t := s[WordLen(s)..]; t == Spread(Tokens(t), Gaps(t)) && SeparatedGaps(t)
    ensures s == Spread(Tokens(s), Gaps(s)) && SeparatedGaps(s)
  {
    SpreadWordHead(s);
    SeparatedWordHead(s);
  }

  lemma SpreadWordHead(s: seq<byte>)
    requires s != [] && s[0] != SPACE
    requires var t := s[WordLen(s)..]; t == Spread(Tokens(t), Gaps(t))
    ensures s == Spread(Tokens(s), Gaps(s))
  {
    var n := WordLen(s);
    var t := s[n..];
    WordUnfold(s);
    SpreadConsWord(s[..n], Tokens(t), Gaps(t), Tokens(s), Gaps(s));
    SplitAt(s, n);
  }

  lemma SeparatedWordHead(s: seq<byte>)
    requires s != [] && s[0] != SPACE
    requires SeparatedGaps(s[WordLen(s)..])
    ensures SeparatedGaps(s)
  {
    var t := s[WordLen(s)..];
    WordUnfold(s);
    forall i | 0 < i < |Tokens(s)|
      ensures Gaps(s)[i] >= 1
    {
      assert Gaps(s)[i] == Gaps(t)[i - 1];
      if i == 1 {
        assert Tokens(t) != [];
      }
    }
  }

  /** Tokens and Gaps of a line that starts with a space. */
  lemma SpaceUnfold(s: seq<byte>)
    requires s != [] && s[0] == SPACE
    ensures Tokens(s) == Tokens(s[1..])
    ensures Gaps(s) == [Gaps(s[1..])[0] + 1] + Gaps(s[1..])[1..]
  {
  }

  /** Tokens and Gaps of a line that starts with a word. */
  lemma WordUnfold(s: seq<byte>)
    requires s != [] && s[0] != SPACE
    ensures Tokens(s) == [s[..WordLen(s)]] + Tokens(s[WordLen(s)..])
    ensures Gaps(s) == [0] + Gaps(s[WordLen(s)..])
  {
  }

  lemma ConcatAssoc(a: seq<byte>, b: seq<byte>, c: seq<byte>)
    ensures a + b + c == a + (b + c)
  {
  }

  lemma SplitAt(s: seq<byte>, n: nat)
    requires n <= |s|
    ensures s == s[..n] + s[n..]
  {
  }

  /** Rejoining the tokens and splitting again changes nothing: tokenisation is idempotent. */
  lemma TokensIdempotent(s: seq<byte>)
    ensures Tokens(Join(Tokens(s))) == Tokens(s)
  {
    TokensAreWords(s);
    TokensOfJoin(Tokens(s));
  }
}
