/**
 * strtok / strtok_r as parse.c uses them: a string is cut at a one-character
 * delimiter, and runs of delimiters yield no empty tokens. The saved position of
 * strtok_r is the remaining suffix of the string.
 */
module Strtok {
  import opened Wrappers

  /** Index of the first character at or after i that is not the delimiter. */
  function SkipDelims(s: string, d: char, i: nat): (j: nat)
    requires i <= |s|
    ensures i <= j <= |s|
    ensures forall k :: i <= k < j ==> s[k] == d
    ensures j < |s| ==> s[j] != d
    decreases |s| - i
  {
    if i == |s| || s[i] != d then i else SkipDelims(s, d, i + 1)
  }

  /** Index of the first delimiter at or after i, or |s|. */
  function SpanEnd(s: string, d: char, i: nat): (j: nat)
    requires i <= |s|
    ensures i <= j <= |s|
    ensures forall k :: i <= k < j ==> s[k] != d
    ensures j < |s| ==> s[j] == d
    decreases |s| - i
  {
    if i == |s| || s[i] == d then i else SpanEnd(s, d, i + 1)
  }

  /**
   * One call of strtok_r: None when only delimiters remain; otherwise the token
   * and the suffix the next call resumes from (past the delimiter that ended it).
   */
  function NextToken(s: string, d: char): (r: Option<(string, string)>)
    ensures r.None? <==> forall k :: 0 <= k < |s| ==> s[k] == d
    ensures r.Some? ==> r.value.0 != [] && d !in r.value.0 && |r.value.1| < |s|
  {
    var a := SkipDelims(s, d, 0);
    if a == |s| then None
    else
      var b := SpanEnd(s, d, a);
      Some((s[a..b], if b < |s| then s[b + 1..] else []))
  }

  /** Every token strtok_r returns for s, in order. */
  function Tokens(s: string, d: char): (r: seq<string>)
    ensures forall k :: 0 <= k < |r| ==> r[k] != [] && d !in r[k]
    decreases |s|
  {
    match NextToken(s, d)
    case None => []
    case Some((t, rest)) => [t] + Tokens(rest, d)
  }

  /** The words joined with one delimiter between neighbours. */
  function Join(ws: seq<string>, d: char): string
  {
    if ws == [] then []
    else if |ws| == 1 then ws[0]
    else ws[0] + [d] + Join(ws[1..], d)
  }

  /** s with every delimiter removed. */
  function Remove(s: string, d: char): string
  {
    if s == [] then []
    else (if s[0] == d then [] else [s[0]]) + Remove(s[1..], d)
  }

  function Concat(ws: seq<string>): string
  {
    if ws == [] then [] else ws[0] + Concat(ws[1..])
  }

  /** The loop of strtok_r calls: collects every token, in order. */
  method Split(s: string, d: char) returns (toks: seq<string>)
    ensures toks == Tokens(s, d)
  {
    toks := [];
    var rest := s;
    var next := NextToken(rest, d);
    while next.Some?
      invariant next == NextToken(rest, d)
      invariant toks + Tokens(rest, d) == Tokens(s, d)
      decreases |rest|
    {
      toks := toks + [next.value.0];
      rest := next.value.1;
      next := NextToken(rest, d);
    }
  }

  lemma {:induction false} RemoveAppend(x: string, y: string, d: char)
    ensures Remove(x + y, d) == Remove(x, d) + Remove(y, d)
    decreases |x|
  {
    if x == [] {
      assert x + y == y;
    } else {
      assert (x + y)[0] == x[0];
      assert (x + y)[1..] == x[1..] + y;
      RemoveAppend(x[1..], y, d);
    }
  }

  lemma {:induction false} RemoveNone(s: string, d: char)
    requires d !in s
    ensures Remove(s, d) == s
    decreases |s|
  {
    if s != [] {
      RemoveNone(s[1..], d);
    }
  }

  lemma {:induction false} RemoveAll(s: string, d: char)
    requires forall k :: 0 <= k < |s| ==> s[k] == d
    ensures Remove(s, d) == []
    decreases |s|
  {
    if s != [] {
      RemoveAll(s[1..], d);
    }
  }

  /** Removing delimiters from a run of delimiters, a token and the rest. */
  lemma RemoveAround(pre: string, tok: string, post: string, d: char)
    requires forall k :: 0 <= k < |pre| ==> pre[k] == d
    requires d !in tok
    ensures Remove(pre + (tok + post), d) == tok + Remove(post, d)
  {
    RemoveAll(pre, d);
    RemoveNone(tok, d);
    RemoveAppend(pre, tok + post, d);
    RemoveAppend(tok, post, d);
  }

  /** Remove over a leading run of delimiters, a token, and the delimiter after it. */
  lemma RemoveStep(s: string, d: char, a: nat, b: nat)
    requires a <= b <= |s|
    requires forall k :: 0 <= k < a ==> s[k] == d
    requires forall k :: a <= k < b ==> s[k] != d
    requires b < |s| ==> s[b] == d
    ensures Remove(s, d) == s[a..b] + Remove(if b < |s| then s[b + 1..] else [], d)
  {
    assert s == s[..a] + (s[a..b] + s[b..]);
    RemoveAround(s[..a], s[a..b], s[b..], d);
    if b < |s| {
      assert s[b..] == [d] + s[b + 1..];
      RemoveAppend([d], s[b + 1..], d);
    }
  }

  /** One strtok_r step, seen through Remove: the token, then what remains. */
  lemma NextTokenRemove(s: string, d: char)
    requires NextToken(s, d).Some?
    ensures Remove(s, d) == NextToken(s, d).value.0 + Remove(NextToken(s, d).value.1, d)
  {
    var a := SkipDelims(s, d, 0);
    RemoveStep(s, d, a, SpanEnd(s, d, a));
  }

  /** SpanEnd is determined by where the first delimiter stands. */
  lemma {:induction false} SpanEndAt(s: string, d: char, i: nat, e: nat)
    requires i <= e <= |s|
    requires forall k :: i <= k < e ==> s[k] != d
    requires e == |s| || s[e] == d
    ensures SpanEnd(s, d, i) == e
    decreases e - i
  {
    if i < e {
      SpanEndAt(s, d, i + 1, e);
    }
  }

  /** Nothing but delimiters is lost: the tokens, concatenated, are s without its delimiters. */
  lemma {:induction false} TokensKeepText(s: string, d: char)
    ensures Concat(Tokens(s, d)) == Remove(s, d)
    decreases |s|
  {
    match NextToken(s, d)
    case None =>
      RemoveAll(s, d);
    case Some((t, rest)) =>
      TokensKeepText(rest, d);
      NextTokenRemove(s, d);
      assert Tokens(s, d) == [t] + Tokens(rest, d);
  }

  /** Splitting undoes joining, for words that are non-empty and free of the delimiter. */
  lemma {:induction false} TokensOfJoin(ws: seq<string>, d: char)
    requires forall k :: 0 <= k < |ws| ==> ws[k] != [] && d !in ws[k]
    ensures Tokens(Join(ws, d), d) == ws
    decreases |ws|
  {
    if |ws| == 1 {
      NextTokenOfWord(ws[0], d, []);
      assert ws[0] + [] == ws[0];
    } else if |ws| > 1 {
      TokensOfJoin(ws[1..], d);
      JoinStep(ws, d);
    }
  }

  /** The first strtok_r call on a join of several words returns the first word. */
  lemma JoinStep(ws: seq<string>, d: char)
    requires |ws| > 1 && ws[0] != [] && d !in ws[0]
    ensures Tokens(Join(ws, d), d) == [ws[0]] + Tokens(Join(ws[1..], d), d)
  {
    var rest := Join(ws[1..], d);
    NextTokenOfWord(ws[0], d, [d] + rest);
    assert Join(ws, d) == ws[0] + ([d] + rest);
    assert ([d] + rest)[1..] == rest;
  }

  /** A word free of the delimiter, then a delimiter or nothing, is the next token. */
  lemma NextTokenOfWord(w: string, d: char, rest: string)
    requires w != [] && d !in w
    requires rest == [] || rest[0] == d
    ensures NextToken(w + rest, d) == Some((w, if rest == [] then [] else rest[1..]))
  {
    var s := w + rest;
    assert s[0] == w[0];
    assert SkipDelims(s, d, 0) == 0;
    assert forall k :: 0 <= k < |w| ==> s[k] == w[k];
    if rest != [] { assert s[|w|] == d; }
    SpanEndAt(s, d, 0, |w|);
    assert s[..|w|] == w;
    if rest != [] { assert s[|w| + 1..] == rest[1..]; }
  }

  /** g consists of delimiters only (it may be empty). */
  predicate AllDelims(g: string, d: char) {
    forall k :: 0 <= k < |g| ==> g[k] == d
  }

  /** gaps[0] + ws[0] + gaps[1] + ... + ws[n-1] + gaps[n]. */
  function Spaced(ws: seq<string>, gaps: seq<string>): string
    requires |gaps| == |ws| + 1
  {
    if ws == [] then gaps[0] else gaps[0] + (ws[0] + Spaced(ws[1..], gaps[1..]))
  }

  /**
   * The tokens are the maximal runs of non-delimiters: words separated by
   * runs of one or more delimiters, with any number of delimiters before the
   * first and after the last, split back into exactly those words.
   */
  lemma {:induction false} TokensOfSpaced(ws: seq<string>, gaps: seq<string>, d: char)
    requires |gaps| == |ws| + 1
    requires forall k :: 0 <= k < |ws| ==> ws[k] != [] && d !in ws[k]
    requires forall k :: 0 <= k < |gaps| ==> AllDelims(gaps[k], d)
    requires forall k :: 0 < k < |ws| ==> gaps[k] != []
    ensures Tokens(Spaced(ws, gaps), d) == ws
    decreases |ws|
  {
    if ws != [] {
      var after := Spaced(ws[1..], gaps[1..]);
      var g1 := if gaps[1] == [] then [] else gaps[1][1..];
      var gaps' := [g1] + gaps[2..];
      SpacedHead(ws[1..], gaps[1..], d);
      if gaps[1] != [] {
        SpacedTail(ws[1..], gaps[1..]);
      } else {
        assert gaps' == gaps[1..];
      }
      TokensOfSpaced(ws[1..], gaps', d);
      NextTokenAfterGap(gaps[0], ws[0], after, d);
    }
  }

  /** Leading, repeated and trailing spaces produce no empty arguments. */
  lemma RepeatedDelimiters()
    ensures Tokens("  ls  -l ", ' ') == ["ls", "-l"]
  {
    var ws, gaps := ["ls", "-l"], ["  ", "  ", " "];
    assert Spaced(ws, gaps) == "  ls  -l ";
    TokensOfSpaced(ws, gaps, ' ');
  }

  /** What follows a word in Spaced is empty or starts with a delimiter. */
  lemma SpacedHead(ws: seq<string>, gaps: seq<string>, d: char)
    requires |gaps| == |ws| + 1 && AllDelims(gaps[0], d)
    requires ws != [] ==> gaps[0] != []
    ensures Spaced(ws, gaps) == [] || Spaced(ws, gaps)[0] == d
  {
  }

  /** Spaced with its first delimiter dropped, for a non-empty first gap. */
  lemma SpacedTail(ws: seq<string>, gaps: seq<string>)
    requires |gaps| == |ws| + 1 && gaps[0] != []
    ensures Spaced(ws, gaps)[1..] == Spaced(ws, [gaps[0][1..]] + gaps[1..])
  {
    var gaps' := [gaps[0][1..]] + gaps[1..];
    assert gaps'[1..] == gaps[1..];
  }

  /** Delimiters, a word, then nothing or a delimiter: the word is the next token. */
  lemma NextTokenAfterGap(g: string, w: string, rest: string, d: char)
    requires AllDelims(g, d) && w != [] && d !in w
    requires rest == [] || rest[0] == d
    ensures NextToken(g + (w + rest), d) == Some((w, if rest == [] then [] else rest[1..]))
  {
    assert (w + rest)[0] == w[0];
    NextTokenSkipsGap(g, w + rest, d);
    NextTokenOfWord(w, d, rest);
  }

  /** Leading delimiters do not change the next token or what follows it. */
  lemma NextTokenSkipsGap(g: string, t: string, d: char)
    requires AllDelims(g, d) && t != [] && t[0] != d
    ensures NextToken(g + t, d) == NextToken(t, d)
  {
    var s := g + t;
    SkipGap(g, t, d);
    var b := SpanEnd(t, d, 0);
    SpanEndShift(g, t, d, 0);
    assert SkipDelims(t, d, 0) == 0;
    assert s[|g|..|g| + b] == t[0..b];
    if b < |t| {
      assert s[|g| + b + 1..] == t[b + 1..];
    }
  }

  /** The leading run of delimiters is skipped up to the first character of t. */
  lemma SkipGap(g: string, t: string, d: char)
    requires AllDelims(g, d) && t != [] && t[0] != d
    ensures SkipDelims(g + t, d, 0) == |g|
  {
    var s := g + t;
    assert forall k :: 0 <= k < |g| ==> s[k] == d;
    assert s[|g|] == t[0];
    SkipDelimsAt(s, d, 0, |g|);
  }

  /** SpanEnd over g + t, from a position inside t. */
  lemma {:induction false} SpanEndShift(g: string, t: string, d: char, i: nat)
    requires i <= |t|
    ensures SpanEnd(g + t, d, |g| + i) == |g| + SpanEnd(t, d, i)
    decreases |t| - i
  {
    if i < |t| {
      assert (g + t)[|g| + i] == t[i];
      SpanEndShift(g, t, d, i + 1);
    }
  }

  /** SkipDelims is determined by where the first non-delimiter stands. */
  lemma {:induction false} SkipDelimsAt(s: string, d: char, i: nat, e: nat)
    requires i <= e <= |s|
    requires forall k :: i <= k < e ==> s[k] == d
    requires e == |s| || s[e] != d
    ensures SkipDelims(s, d, i) == e
    decreases e - i
  {
    if i < e {
      SkipDelimsAt(s, d, i + 1, e);
    }
  }

  /** A character absent from s is absent from every token of s. */
  lemma {:induction false} TokensAvoid(s: string, d: char, c: char)
    requires c !in s
    ensures forall k :: 0 <= k < |Tokens(s, d)| ==> c !in Tokens(s, d)[k]
    decreases |s|
  {
    match NextToken(s, d)
    case None =>
    case Some((t, rest)) =>
      var a := SkipDelims(s, d, 0);
      var b := SpanEnd(s, d, a);
      assert t == s[a..b];
      assert rest == [] || rest == s[b + 1..];
      TokensAvoid(rest, d, c);
      assert Tokens(s, d) == [t] + Tokens(rest, d);
  }
}
