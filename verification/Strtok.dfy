/** The tokeniser strtok_r of libc/string/strtok.c. */
module Strtok {
  const NUL: char := '\0'

  /** s without its leading delimiters. */
  function Skip(s: string, delim: string): (r: string)
    ensures |r| <= |s| && r == s[|s| - |r|..]
    ensures r == [] || r[0] !in delim
    ensures forall i | 0 <= i < |s| - |r| :: s[i] in delim
  {
    if s == [] || s[0] !in delim then s else Skip(s[1..], delim)
  }

  /** The length of the token at the head of s. */
  function Span(s: string, delim: string): (n: nat)
    ensures n <= |s|
    ensures forall i | 0 <= i < n :: s[i] !in delim
    ensures n < |s| ==> s[n] in delim
    ensures s != [] && s[0] !in delim ==> n > 0
  {
    if s == [] || s[0] in delim then 0 else 1 + Span(s[1..], delim)
  }

  predicate IsToken(t: string, delim: string) {
    t != [] && forall j | 0 <= j < |t| :: t[j] !in delim
  }

  /** The non-empty stretches between delimiters, in order. */
  function Tokens(s: string, delim: string): (ts: seq<string>)
    decreases |s|
  {
    var r := Skip(s, delim);
    if r == [] then [] else [r[..Span(r, delim)]] + Tokens(r[Span(r, delim)..], delim)
  }

  /** Every token is non-empty and free of delimiters. */
  lemma {:induction false} TokensAreTokens(s: string, delim: string, i: nat)
    requires i < |Tokens(s, delim)|
    ensures IsToken(Tokens(s, delim)[i], delim)
    decreases |s|
  {
    var r := Skip(s, delim);
    hide Skip, Span;
    if i > 0 { TokensAreTokens(r[Span(r, delim)..], delim, i - 1); }
  }

  /** Skip and Span are determined by what they promise. */
  lemma SkipIs(s: string, delim: string, i: nat)
    requires i <= |s| && (forall k | 0 <= k < i :: s[k] in delim) && (i < |s| ==> s[i] !in delim)
    ensures Skip(s, delim) == s[i..]
  {
  }

  lemma SpanIs(s: string, delim: string, n: nat)
    requires n <= |s| && (forall k | 0 <= k < n :: s[k] !in delim) && (n < |s| ==> s[n] in delim)
    ensures Span(s, delim) == n
  {
  }

  /** The part of the buffer from `from` on still holds the text, up to its NUL. */
  ghost predicate HoldsFrom(buf: array<char>, text: string, from: nat)
    reads buf
  {
    && from <= |text| < buf.Length && NUL !in text && buf[|text|] == NUL
    && forall k | from <= k < |text| :: buf[k] == text[k]
  }

  /** The first loop of strtok_r. */
  method SkipDelims(buf: array<char>, delim: string, from: nat, ghost text: string) returns (b: nat)
    requires HoldsFrom(buf, text, from)
    ensures from <= b <= |text| && Skip(text[from..], delim) == text[b..]
    ensures buf[b] == NUL <==> b == |text|
  {
    b := from;
    while buf[b] != NUL && buf[b] in delim
      invariant from <= b <= |text| && forall k | from <= k < b :: text[k] in delim
      decreases |text| - b
    {
      b := b + 1;
    }
    SkipIs(text[from..], delim, b - from);
    assert text[from..][b - from..] == text[b..];
  }

  /** The second loop of strtok_r. */
  method SpanToken(buf: array<char>, delim: string, b: nat, ghost text: string) returns (e: nat)
    requires HoldsFrom(buf, text, b)
    ensures b <= e <= |text| && Span(text[b..], delim) == e - b
    ensures buf[e] == NUL <==> e == |text|
  {
    e := b;
    while buf[e] != NUL && buf[e] !in delim
      invariant b <= e <= |text| && forall k | b <= k < e :: text[k] !in delim
      decreases |text| - e
    {
      e := e + 1;
    }
    SpanIs(text[b..], delim, e - b);
  }

  /** What the call takes, and what it leaves for the next one. */
  lemma SplitToken(text: string, delim: string, from: nat, b: nat, e: nat)
    requires from <= b <= e <= |text| && b < |text|
    requires Skip(text[from..], delim) == text[b..] && Span(text[b..], delim) == e - b
    ensures b < e
    ensures Tokens(text[from..], delim) == [text[b..e]] + Tokens(text[e..], delim)
  {
    hide Tokens, Skip, Span;
    FirstToken(text[from..], delim, text[b..], e - b);
    assert text[b..][..e - b] == text[b..e];
    assert text[b..][e - b..] == text[e..];
  }

  lemma FirstToken(s: string, delim: string, r: string, n: nat)
    requires Skip(s, delim) == r && r != [] && Span(r, delim) == n
    ensures 0 < n <= |r| && Tokens(s, delim) == [r[..n]] + Tokens(r[n..], delim)
  {
    hide Tokens, Skip, Span;
    TokensUnfold(s, delim);
  }

  lemma SkipOne(text: string, delim: string, b: nat, e: nat)
    requires b <= e < |text| && Span(text[b..], delim) == e - b
    ensures Tokens(text[e..], delim) == Tokens(text[e + 1..], delim)
  {
  }

  /**
   * One call of strtok_r at position `from`: the token is buf[b..e], NUL-terminated in
   * place, and `save` is where the next call starts.
   */
  method StrtokR(buf: array<char>, delim: string, from: nat, ghost text: string)
      returns (found: bool, b: nat, e: nat, save: nat)
    requires HoldsFrom(buf, text, from)
    modifies buf
    ensures HoldsFrom(buf, text, save) && from <= save <= |text|
    ensures found <==> Tokens(text[from..], delim) != []
    ensures found ==>
              && from <= b < e <= |text| && buf[e] == NUL && e <= save && buf[b..e] == text[b..e]
              && Tokens(text[from..], delim) == [text[b..e]] + Tokens(text[save..], delim)
    ensures found ==> Skip(text[from..], delim) == text[b..] && Span(text[b..], delim) == e - b
    ensures !found ==> save == from
    ensures forall k | 0 <= k < buf.Length && (!found || k != e) :: buf[k] == old(buf[k])
  {
    hide Tokens, Skip, Span;
    save := from;
    b := SkipDelims(buf, delim, from, text);
    e := b;
    found := buf[b] != NUL;
    if !found {
      TokensUnfold(text[from..], delim);
      return;
    }
    e := SpanToken(buf, delim, b, text);
    SplitToken(text, delim, from, b, e);
    if buf[e] == NUL {
      save := e;
    } else {
      SkipOne(text, delim, b, e);
      buf[e] := NUL;
      save := e + 1;
    }
    SliceIs(buf, text, b, e);
  }

  lemma SliceIs(buf: array<char>, text: string, b: nat, e: nat)
    requires b <= e <= |text| && e <= buf.Length && forall k | b <= k < e :: buf[k] == text[k]
    ensures buf[b..e] == text[b..e]
  {
  }

  lemma TokensUnfold(s: string, delim: string)
    ensures var r := Skip(s, delim);
            Tokens(s, delim) == if r == [] then [] else [r[..Span(r, delim)]] + Tokens(r[Span(r, delim)..], delim)
  {
  }

  lemma NoTokens(delim: string)
    ensures Tokens("", delim) == []
  {
  }

  // ------------------------------------------------------- what tokens are

  /** gap, token, gap, token, ..., gap. */
  function Woven(gaps: seq<string>, ts: seq<string>): string
    requires |gaps| == |ts| + 1
  {
    if ts == [] then gaps[0] else gaps[0] + ts[0] + Woven(gaps[1..], ts[1..])
  }

  /** Gaps are delimiters only, and none between two tokens is empty. */
  ghost predicate Separates(gaps: seq<string>, ts: seq<string>, delim: string) {
    && |gaps| == |ts| + 1
    && (forall i, j | 0 <= i < |gaps| && 0 <= j < |gaps[i]| :: gaps[i][j] in delim)
    && (forall i | 0 < i < |ts| :: gaps[i] != [])
    && (forall i | 0 <= i < |ts| :: IsToken(ts[i], delim))
  }

  lemma SeparatesRest(gaps: seq<string>, ts: seq<string>, delim: string)
    requires Separates(gaps, ts, delim) && ts != []
    ensures Separates(gaps[1..], ts[1..], delim)
    ensures Woven(gaps[1..], ts[1..]) != [] ==> Woven(gaps[1..], ts[1..])[0] in delim
  {
    var g, t := gaps[1..], ts[1..];
    forall i, j | 0 <= i < |g| && 0 <= j < |g[i]| ensures g[i][j] in delim { assert g[i] == gaps[i + 1]; }
    forall i | 0 < i < |t| ensures g[i] != [] { assert g[i] == gaps[i + 1]; }
    if t != [] {
      assert g[0] == gaps[1] != [];
    }
  }

  lemma HeadToken(gap: string, t: string, rest: string, delim: string)
    requires IsToken(t, delim) && (forall j | 0 <= j < |gap| :: gap[j] in delim) && (rest != [] ==> rest[0] in delim)
    ensures Tokens(gap + t + rest, delim) == [t] + Tokens(rest, delim)
  {
    hide Tokens, Skip, Span;
    var s := gap + t + rest;
    assert s[|gap|..] == t + rest;
    SkipIs(s, delim, |gap|);
    SpanIs(t + rest, delim, |t|);
    FirstToken(s, delim, t + rest, |t|);
    assert (t + rest)[..|t|] == t && (t + rest)[|t|..] == rest;
  }

  lemma OnlyGap(gap: string, delim: string)
    requires forall j | 0 <= j < |gap| :: gap[j] in delim
    ensures Tokens(gap, delim) == []
  {
    hide Tokens, Skip, Span;
    SkipIs(gap, delim, |gap|);
    TokensUnfold(gap, delim);
  }

  /** However a text is made of tokens with delimiters between them, those are its tokens. */
  lemma {:induction false} TokensOfWoven(gaps: seq<string>, ts: seq<string>, delim: string)
    requires Separates(gaps, ts, delim)
    ensures Tokens(Woven(gaps, ts), delim) == ts
    decreases |ts|
  {
    hide Tokens;
    if ts == [] {
      OnlyGap(gaps[0], delim);
    } else {
      SeparatesRest(gaps, ts, delim);
      HeadToken(gaps[0], ts[0], Woven(gaps[1..], ts[1..]), delim);
      TokensOfWoven(gaps[1..], ts[1..], delim);
    }
  }

  /** Every text is its tokens with delimiters before, between and after them. */
  lemma {:induction false} TextIsWoven(s: string, delim: string) returns (gaps: seq<string>)
    ensures Separates(gaps, Tokens(s, delim), delim) && Woven(gaps, Tokens(s, delim)) == s
    decreases |s|
  {
    hide Tokens, Skip, Span, Woven, Separates;
    TokensUnfold(s, delim);
    var r := Skip(s, delim);
    var gap := s[..|s| - |r|];
    assert s == gap + r;
    if r == [] {
      NoneWoven(gap, delim);
      gaps := [gap];
    } else {
      var n := Span(r, delim);
      FirstToken(s, delim, r, n);
      var more := TextIsWoven(r[n..], delim);
      gaps := [gap] + more;
      WovenMore(s, delim, gap, r, n, more);
    }
  }

  lemma NoneWoven(gap: string, delim: string)
    requires forall j | 0 <= j < |gap| :: gap[j] in delim
    ensures Separates([gap], [], delim) && Woven([gap], []) == gap
  {
  }

  lemma WovenMore(s: string, delim: string, gap: string, r: string, n: nat, more: seq<string>)
    requires s == gap + r && n <= |r| && IsToken(r[..n], delim) && forall j | 0 <= j < |gap| :: gap[j] in delim
    requires n < |r| ==> r[n] in delim
    requires Tokens(s, delim) == [r[..n]] + Tokens(r[n..], delim)
    requires Separates(more, Tokens(r[n..], delim), delim) && Woven(more, Tokens(r[n..], delim)) == r[n..]
    ensures Separates([gap] + more, Tokens(s, delim), delim) && Woven([gap] + more, Tokens(s, delim)) == s
  {
    hide Tokens;
    var gaps, ts := [gap] + more, Tokens(s, delim);
    assert gaps[1..] == more && ts[1..] == Tokens(r[n..], delim);
    assert r == r[..n] + r[n..];
    forall i | 0 < i < |ts| ensures gaps[i] != [] {
      assert gaps[i] == more[i - 1];
      if i == 1 { assert IsToken(ts[1..][0], delim); }
    }
    forall i | 0 <= i < |ts| ensures IsToken(ts[i], delim) { if i > 0 { assert ts[i] == ts[1..][i - 1]; } }
  }
}
