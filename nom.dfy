/** The parser-combinator primitives both grammars are built from (the `nom` crate's
    `tag`, `char`, character classes and searches), as pure functions over `string`. */
module Nom {
  import opened Wrappers

  /** A parser's outcome: the unconsumed input and the value, or a recoverable failure. */
  datatype Parsed<T> = Parsed(rest: string, value: T) | Failed

  predicate IsAsciiAlpha(c: char) { 'a' <= c <= 'z' || 'A' <= c <= 'Z' }

  predicate IsAsciiDigit(c: char) { '0' <= c <= '9' }

  predicate IsAsciiAlphanumeric(c: char) { IsAsciiAlpha(c) || IsAsciiDigit(c) }

  /** nom's `multispace` class. */
  predicate IsMultispace(c: char) { c == ' ' || c == '\t' || c == '\r' || c == '\n' }

  /** `rest` is what is left of `s` after a parser consumed a prefix of it. */
  predicate SuffixOf(rest: string, s: string)
  {
    |rest| <= |s| && s[|s| - |rest|..] == rest
  }

  lemma SuffixOfAppend(p: string, r: string)
    ensures SuffixOf(r, p + r)
  {
    assert (p + r)[|p|..] == r;
  }

  /** Slicing `v + t` inside `v` only sees `v`. */
  lemma SliceAppend(v: string, t: string, n: nat)
    requires n <= |v|
    ensures (v + t)[..n] == v[..n] && (v + t)[n..] == v[n..] + t
  {
  }

  lemma SuffixTrans(a: string, b: string, c: string)
    requires SuffixOf(a, b) && SuffixOf(b, c)
    ensures SuffixOf(a, c)
  {
    assert c[|c| - |a|..] == c[|c| - |b|..][|b| - |a|..];
  }

  /** Length of the longest prefix of `s` whose characters all satisfy `p`. */
  function Span(s: string, p: char -> bool): (n: nat)
    ensures n <= |s|
  {
    if s == [] || !p(s[0]) then 0 else 1 + Span(s[1..], p)
  }

  /** `Span` is the maximal run: every character in it satisfies `p`, the next one does not. */
  lemma {:induction false} SpanIsMaximalRun(s: string, p: char -> bool)
    ensures forall i :: 0 <= i < Span(s, p) ==> p(s[i])
    ensures Span(s, p) < |s| ==> !p(s[Span(s, p)])
  {
    if s != [] && p(s[0]) {
      SpanIsMaximalRun(s[1..], p);
      forall i | 1 <= i < Span(s, p) ensures p(s[i]) {
        assert s[i] == s[1..][i - 1];
      }
    }
  }

  /** A run of `p` characters followed by a character outside `p` is measured exactly. */
  lemma {:induction false} SpanStopsAt(u: string, t: string, p: char -> bool)
    requires forall i :: 0 <= i < |u| ==> p(u[i])
    requires t == [] || !p(t[0])
    ensures Span(u + t, p) == |u|
  {
    if u != [] {
      assert (u + t)[1..] == u[1..] + t;
      SpanStopsAt(u[1..], t, p);
    } else {
      assert u + t == t;
    }
  }

  /** Appending text that starts outside `p` does not change the run. */
  lemma {:induction false} SpanAppend(v: string, t: string, p: char -> bool)
    requires t == [] || !p(t[0])
    ensures Span(v + t, p) == Span(v, p)
  {
    if v == [] {
      assert v + t == t;
    } else {
      assert (v + t)[0] == v[0];
      if p(v[0]) {
        assert (v + t)[1..] == v[1..] + t;
        SpanAppend(v[1..], t, p);
      }
    }
  }

  /** Position of the first `c` in `s`, if any (the search behind `take_until` and `split`). */
  function IndexOf(s: string, c: char): (r: Option<nat>)
    ensures r.Some? ==> r.value < |s|
  {
    if s == [] then None
    else if s[0] == c then Some(0)
    else match IndexOf(s[1..], c)
      case None => None
      case Some(k) => Some(k + 1)
  }

  /** `IndexOf` finds the first occurrence, and fails exactly when there is none. */
  lemma {:induction false} IndexOfFindsFirst(s: string, c: char)
    ensures IndexOf(s, c).None? <==> c !in s
    ensures IndexOf(s, c).Some? ==> s[IndexOf(s, c).value] == c && c !in s[..IndexOf(s, c).value]
  {
    if s != [] && s[0] != c {
      IndexOfFindsFirst(s[1..], c);
      assert s == [s[0]] + s[1..];
      if IndexOf(s[1..], c).Some? {
        var k := IndexOf(s[1..], c).value;
        assert s[..k + 1] == [s[0]] + s[1..][..k];
      }
    }
  }

  /** The first `c` after a `c`-free prefix is found right after that prefix. */
  lemma {:induction false} IndexOfPrefix(v: string, c: char, rest: string)
    requires c !in v
    ensures IndexOf(v + [c] + rest, c) == Some(|v|)
  {
    if v != [] {
      assert (v + [c] + rest)[1..] == v[1..] + [c] + rest;
      IndexOfPrefix(v[1..], c, rest);
    }
  }

  /** `tag(k)`: the literal text `k`. */
  function Tag(k: string, s: string): (r: Parsed<string>)
    ensures r.Parsed? <==> |k| <= |s| && s[..|k|] == k
    ensures r.Parsed? ==> r.value == k && s == k + r.rest
  {
    if |k| <= |s| && s[..|k|] == k then Parsed(s[|k|..], k) else Failed
  }

  /** `char(c)`: exactly the character `c`. */
  function Char(c: char, s: string): (r: Parsed<char>)
    ensures r.Parsed? <==> |s| > 0 && s[0] == c
    ensures r.Parsed? ==> r.value == c && s == [c] + r.rest
  {
    if |s| > 0 && s[0] == c then Parsed(s[1..], c) else Failed
  }

  /** `multispace0`: skip any whitespace. */
  function Multispace0(s: string): (rest: string)
    ensures SuffixOf(rest, s)
  {
    s[Span(s, IsMultispace)..]
  }

  /** `take_until(c)`: everything before the first `c`; fails when there is none. */
  function TakeUntil(c: char, s: string): (r: Parsed<string>)
    ensures r.Parsed? <==> c in s
    ensures r.Parsed? ==> c !in r.value && s == r.value + r.rest && r.rest[0] == c
  {
    IndexOfFindsFirst(s, c);
    match IndexOf(s, c)
    case None => Failed
    case Some(k) =>
      assert s == s[..k] + s[k..];
      Parsed(s[k..], s[..k])
  }

  lemma ConsAppend<T>(acc: seq<T>, xs: seq<T>)
    requires xs != []
    ensures acc + [xs[0]] + xs[1..] == acc + xs
  {
  }

  lemma ConsSplit<T>(xs: seq<T>)
    requires xs != []
    ensures [xs[0]] + xs[1..] == xs
  {
  }
}
