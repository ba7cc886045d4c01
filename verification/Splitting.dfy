/** Splitting a text at a separator, as strtok does, and searching in it. */
module Splitting {
  import opened Basics

  /** The leading run of characters other than c. */
  function Word(s: string, c: char): (w: string)
    ensures w <= s && c !in w
    ensures |w| < |s| ==> s[|w|] == c
  {
    if s == "" || s[0] == c then "" else [s[0]] + Word(s[1..], c)
  }

  /** The non-empty runs between separators, in order. */
  function Tokens(s: string, c: char): seq<string>
    decreases |s|
  {
    if s == "" then []
    else if s[0] == c then Tokens(s[1..], c)
    else [Word(s, c)] + Tokens(s[|Word(s, c)|..], c)
  }

  predicate IsToken(w: string, c: char) {
    w != "" && c !in w
  }

  function Join(ws: seq<string>, c: char): string {
    if ws == [] then ""
    else if |ws| == 1 then ws[0]
    else ws[0] + [c] + Join(ws[1..], c)
  }

  predicate OccursAt(s: string, sub: string, i: nat) {
    i + |sub| <= |s| && s[i..i + |sub|] == sub
  }

  /** strstr finds sub in s. */
  predicate Contains(s: string, sub: string) {
    exists i: nat :: i <= |s| && OccursAt(s, sub, i)
  }

  /** That is: sub stands somewhere in s. */
  lemma ContainsMeaning(s: string, sub: string)
    ensures Contains(s, sub) <==> exists p: string, q: string :: s == p + sub + q
  {
    if Contains(s, sub) {
      var i: nat :| i <= |s| && OccursAt(s, sub, i);
      assert s == s[..i] + sub + s[i + |sub|..];
    }
    if exists p: string, q: string :: s == p + sub + q {
      var p: string, q: string :| s == p + sub + q;
      assert (p + sub + q)[|p|..|p| + |sub|] == sub;
      assert OccursAt(s, sub, |p|);
    }
  }

  lemma {:induction false} TokensShape(s: string, c: char)
    ensures forall w :: w in Tokens(s, c) ==> IsToken(w, c)
    decreases |s|
  {
    if s != "" {
      if s[0] == c { TokensShape(s[1..], c); } else { TokensShape(s[|Word(s, c)|..], c); }
    }
  }

  lemma {:induction false} WordConcat(s: string, c: char, t: string)
    ensures Word(s + [c] + t, c) == Word(s, c)
  {
    if s != "" && s[0] != c {
      assert (s + [c] + t)[1..] == s[1..] + [c] + t;
      WordConcat(s[1..], c, t);
    }
  }

  /** A separator splits the tokens. */
  lemma {:induction false} TokensConcat(s: string, c: char, t: string)
    ensures Tokens(s + [c] + t, c) == Tokens(s, c) + Tokens(t, c)
    decreases |s|
  {
    var u := s + [c] + t;
    if s == "" {
      assert u[1..] == t;
    } else if s[0] == c {
      assert u[1..] == s[1..] + [c] + t;
      TokensConcat(s[1..], c, t);
    } else {
      var w := Word(s, c);
      WordConcat(s, c, t);
      assert u[|w|..] == s[|w|..] + [c] + t;
      TokensConcat(s[|w|..], c, t);
    }
  }

  lemma {:induction false} WordWhole(w: string, c: char)
    requires c !in w
    ensures Word(w, c) == w
  {
    if w != "" { WordWhole(w[1..], c); }
  }

  lemma TokensWhole(w: string, c: char)
    requires IsToken(w, c)
    ensures Tokens(w, c) == [w]
  {
    WordWhole(w, c);
    assert w[|w|..] == "";
  }

  /** Splitting undoes joining. */
  lemma {:induction false} TokensJoin(ws: seq<string>, c: char)
    requires forall w :: w in ws ==> IsToken(w, c)
    ensures Tokens(Join(ws, c), c) == ws
  {
    if |ws| == 1 {
      TokensWhole(ws[0], c);
    } else if |ws| > 1 {
      TokensJoin(ws[1..], c);
      TokensConcat(ws[0], c, Join(ws[1..], c));
      TokensWhole(ws[0], c);
    }
  }

  lemma {:induction false} SkipSeparators(s: string, c: char, n: nat)
    requires n <= |s| && forall i :: 0 <= i < n ==> s[i] == c
    ensures Tokens(s[n..], c) == Tokens(s, c)
  {
    if n > 0 {
      SkipSeparators(s, c, n - 1);
      assert s[n - 1..][1..] == s[n..];
    } else {
      assert s[0..] == s;
    }
  }

  lemma TokenAt(s: string, c: char, n: nat)
    requires 0 < n <= |s| && c !in s[..n] && (n < |s| ==> s[n] == c)
    ensures Tokens(s, c) == [s[..n]] + Tokens(s[if n < |s| then n + 1 else n..], c)
  {
    var w := s[..n];
    TokensWhole(w, c);
    if n < |s| {
      assert s == w + [c] + s[n + 1..];
      TokensConcat(w, c, s[n + 1..]);
    } else {
      assert s == w && s[n..] == "";
    }
  }

  method SkipRun(s: string, pos: nat, c: char) returns (start: nat)
    requires pos <= |s|
    ensures pos <= start <= |s| && (start < |s| ==> s[start] != c)
    ensures Tokens(s[pos..], c) == Tokens(s[start..], c)
  {
    start := pos;
    while start < |s| && s[start] == c
      invariant pos <= start <= |s|
      invariant forall i :: pos <= i < start ==> s[i] == c
    {
      start := start + 1;
    }
    SkipSeparators(s[pos..], c, start - pos);
    assert s[pos..][start - pos..] == s[start..];
  }

  method EndOfWord(s: string, start: nat, c: char) returns (end: nat)
    requires start < |s| && s[start] != c
    ensures start < end <= |s| && c !in s[start..end] && (end < |s| ==> s[end] == c)
  {
    end := start + 1;
    while end < |s| && s[end] != c
      invariant start < end <= |s|
      invariant forall i :: start <= i < end ==> s[i] != c
    {
      end := end + 1;
    }
  }

  /** One call of strtok that continues at position pos. */
  method NextToken(s: string, pos: nat, c: char) returns (token: Option<string>, next: nat)
    requires pos <= |s|
    ensures pos <= next <= |s|
    ensures token.None? ==> Tokens(s[pos..], c) == []
    ensures token.Some? ==> pos < next && Tokens(s[pos..], c) == [token.value] + Tokens(s[next..], c)
    ensures token.Some? ==> pos + |token.value| <= next && (next == pos + |token.value| ==> next == |s|)
  {
    var start := SkipRun(s, pos, c);
    if start == |s| {
      return None, start;
    }
    var end := EndOfWord(s, start, c);
    next := if end < |s| then end + 1 else end;
    assert s[start..][..end - start] == s[start..end];
    assert s[start..][next - start..] == s[next..];
    TokenAt(s[start..], c, end - start);
    return Some(s[start..end]), next;
  }

  lemma ContainsPart(s: string, t: string, u: string, sub: string)
    ensures Contains(t, sub) ==> Contains(s + t + u, sub)
  {
    if Contains(t, sub) {
      var i: nat :| i <= |t| && OccursAt(t, sub, i);
      assert (s + t + u)[|s| + i..|s| + i + |sub|] == t[i..i + |sub|];
      assert OccursAt(s + t + u, sub, |s| + i);
    }
  }

  /** A text without separators occurs in s only within one of its tokens. */
  lemma {:induction false} ContainsInToken(s: string, sub: string, c: char)
    requires IsToken(sub, c)
    ensures Contains(s, sub) <==> exists w :: w in Tokens(s, c) && Contains(w, sub)
    decreases |s|
  {
    if s != "" {
      if s[0] == c {
        ContainsInToken(s[1..], sub, c);
        SplitOccurrence(s, 0, sub, c);
        assert s[..0] == "" && s[0 + 1..] == s[1..];
        assert !Contains("", sub);
      } else {
        var w := Word(s, c);
        var rest := s[|w|..];
        ContainsInToken(rest, sub, c);
        assert w == s[..|w|];
        if |w| < |s| {
          SplitOccurrence(s, |w|, sub, c);
          SplitOccurrence(rest, 0, sub, c);
          assert rest[..0] == "" && rest[1..] == s[|w| + 1..];
          assert !Contains("", sub);
        } else {
          assert s == w && rest == "";
          assert !Contains("", sub);
        }
      }
    } else {
      assert !Contains("", sub);
    }
  }

  lemma NoSpan(s: string, n: nat, sub: string, c: char, i: nat)
    requires IsToken(sub, c) && n < |s| && s[n] == c && OccursAt(s, sub, i)
    ensures i + |sub| <= n || i > n
  {
    forall k | i <= k < i + |sub|
      ensures s[k] != c
    {
      assert s[k] == s[i..i + |sub|][k - i];
    }
  }

  lemma OccursWithin(s: string, from: nat, to: nat, sub: string, i: nat)
    requires from <= i && i + |sub| <= to <= |s| && OccursAt(s, sub, i)
    ensures Contains(s[from..to], sub)
  {
    var part, d := s[from..to], i - from;
    forall k | 0 <= k < |sub|
      ensures part[d + k] == sub[k]
    {
      assert s[i..i + |sub|][k] == s[from + (d + k)];
    }
    assert part[d..d + |sub|] == sub;
    assert OccursAt(s[from..to], sub, i - from);
  }

  /** An occurrence does not reach across a separator. */
  lemma SplitOccurrence(s: string, n: nat, sub: string, c: char)
    requires IsToken(sub, c) && n < |s| && s[n] == c
    ensures Contains(s, sub) <==> Contains(s[..n], sub) || Contains(s[n + 1..], sub)
  {
    assert s == "" + s[..n] + s[n..] && s == s[..n + 1] + s[n + 1..] + "";
    ContainsPart("", s[..n], s[n..], sub);
    ContainsPart(s[..n + 1], s[n + 1..], "", sub);
    if Contains(s, sub) {
      var i: nat :| i <= |s| && OccursAt(s, sub, i);
      NoSpan(s, n, sub, c, i);
      if i > n {
        OccursWithin(s, n + 1, |s|, sub, i);
        assert s[n + 1..|s|] == s[n + 1..];
      } else {
        OccursWithin(s, 0, n, sub, i);
        assert s[0..n] == s[..n];
      }
    }
  }
}
