/**
 `apr_fnmatch_test` (strings/apr_fnmatch.c): a pattern it clears is one plain
 string for `apr_fnmatch` with no flags.
 */
module GlobTest {
  import opened Apr
  import GlobLetters
  import opened GlobMatch
  import opened GlobSyntax

  const NO_FLAGS := Flags(false, false, false, false)

  /** Whether the character at `k` is not escaped by a backslash before it. */
  predicate Unescaped(p: string, k: nat)
    requires k <= |p|
  {
    k == 0 || p[k - 1] != '\\' || !Unescaped(p, k - 1)
  }

  ghost predicate OpenBefore(p: string, n: nat)
    requires n <= |p|
  {
    exists a | 0 <= a < n :: p[a] == '[' && Unescaped(p, a)
  }

  /** Among the first `n` characters: an unescaped `?` or `*`, or an unescaped `]`
      somewhere after an unescaped `[`. */
  ghost predicate GlobBefore(p: string, n: nat)
    requires n <= |p|
  {
    exists k | 0 <= k < n ::
      Unescaped(p, k) && (p[k] == '?' || p[k] == '*' || (p[k] == ']' && OpenBefore(p, k)))
  }

  ghost predicate HasGlob(p: string) {
    GlobBefore(p, |p|)
  }

  /** The pattern with its escaping backslashes removed; a trailing one stays. */
  function Unescape(p: string, i: nat): string
    requires i <= |p|
    decreases |p| - i
  {
    if i == |p| then ""
    else if p[i] == '\\' && i + 1 < |p| then [p[i + 1]] + Unescape(p, i + 2)
    else [p[i]] + Unescape(p, i + 1)
  }

  /** The scan of `apr_fnmatch_test`. */
  method AprFnmatchTest(p: string) returns (glob: bool)
    ensures glob <==> HasGlob(p)
    ensures !glob ==> forall s :: Matches(p, s, NO_FLAGS) <==> s == Unescape(p, 0)
  {
    var i, nesting := 0, 0;
    while i < |p|
      invariant 0 <= i <= |p| && 0 <= nesting && Unescaped(p, i)
      invariant nesting > 0 <==> OpenBefore(p, i)
      invariant !GlobBefore(p, i)
    {
      OneFurther(p, i);
      match p[i] {
        case '?' => return true;
        case '*' => return true;
        case '\\' =>
          i := i + 1;
          if i == |p| { break; }
          OneFurther(p, i);
        case '[' => nesting := nesting + 1;
        case ']' => if nesting > 0 { return true; }
        case _ =>
      }
      i := i + 1;
    }
    forall s ensures Matches(p, s, NO_FLAGS) <==> s == Unescape(p, 0) {
      PlainPatternMatchesOneString(p, s);
    }
    return false;
  }

  /** What one more character adds. */
  lemma OneFurther(p: string, i: nat)
    requires i < |p|
    ensures Unescaped(p, i + 1) <==> p[i] != '\\' || !Unescaped(p, i)
    ensures OpenBefore(p, i + 1) <==> OpenBefore(p, i) || (p[i] == '[' && Unescaped(p, i))
    ensures GlobBefore(p, i + 1) <==>
            || GlobBefore(p, i)
            || (Unescaped(p, i) && (p[i] == '?' || p[i] == '*' || (p[i] == ']' && OpenBefore(p, i))))
    ensures GlobBefore(p, i + 1) ==> HasGlob(p)
  {
  }

  /** Without backslashes: a `?`, a `*`, or a `[` with a `]` behind it; and a backslash keeps the
      character behind it from being one. */
  lemma WhatIsReported(p: string, c: char)
    requires '\\' !in p
    ensures HasGlob(p) <==>
            || '?' in p || '*' in p
            || exists a, b | 0 <= a < b < |p| :: p[a] == '[' && p[b] == ']'
    ensures !HasGlob(['\\', c])
  {
    assert forall k | 0 <= k < |p| :: Unescaped(p, k);
    assert forall a, b | 0 <= a < b < |p| && p[a] == '[' && p[b] == ']' :: OpenBefore(p, b);
    assert Unescaped(['\\', c], 0);
  }

  /** No unescaped `]` ahead: no bracket expression is closed. */
  lemma {:induction false} NeverCloses(p: string, k: nat)
    requires k <= |p| && Unescaped(p, k)
    requires forall b | k <= b < |p| :: p[b] == ']' ==> !Unescaped(p, b)
    ensures Elements(p, k, NO_FLAGS).None?
    decreases |p| - k
  {
    if k < |p| {
      var a := if p[k] == '\\' then k + 1 else k;
      if a < |p| {
        assert Unescaped(p, a + 1);
        if RangeAt(p, a, NO_FLAGS).Some? {
          var n := RangeAt(p, a, NO_FLAGS).value.1;
          assert Unescaped(p, n) by {
            if n > a + 1 {
              assert p[a + 1] == '-' && Unescaped(p, a + 2);
              assert p[a + 2] == '\\' ==> n == a + 4 && !Unescaped(p, a + 3);
            }
          }
          NeverCloses(p, n);
        }
      }
    }
  }

  /** What the test clears reads as a literal character at every unescaped place. */
  lemma PlainItem(p: string, i: nat) returns (c: char, n: nat)
    requires !HasGlob(p) && i < |p| && Unescaped(p, i)
    ensures ItemAt(p, i, NO_FLAGS) == (Lit(c), n) && (n == |p| || Unescaped(p, n))
    ensures Unescape(p, i) == [c] + Unescape(p, n)
  {
    if p[i] == '[' {
      var k := BodyStart(p, i);
      assert Unescaped(p, i + 1);
      assert k == i + 2 ==> Unescaped(p, i + 2);
      forall b | k <= b < |p| && p[b] == ']' ensures !Unescaped(p, b) {
        assert OpenBefore(p, b);
      }
      NeverCloses(p, k);
    }
    assert p[i] == '\\' && i + 1 < |p| ==> !Unescaped(p, i + 1) && Unescaped(p, i + 2);
    n := ItemAt(p, i, NO_FLAGS).1;
    c := if n == i + 2 then p[i + 1] else p[i];
  }

  lemma {:induction false} PlainFrom(p: string, i: nat, s: string, j: nat, start: bool)
    requires !HasGlob(p) && (i == |p| || (i < |p| && Unescaped(p, i))) && j <= |s|
    ensures MatchAt(p, i, s, j, start, NO_FLAGS) <==> s[j..] == Unescape(p, i)
    decreases |p| - i
  {
    hide ItemAt, HasGlob, SegEnd, Unescaped;
    if i == |p| {
      assert Unescape(p, i) == "";
    } else {
      var c, n := PlainItem(p, i);
      WholeSegment(s, j);
      if j < |s| {
        PlainFrom(p, n, s, j + 1, false);
        assert s[j..] == [s[j]] + s[j + 1..];
        assert s[j..][1..] == s[j + 1..];
        if s[j..] == Unescape(p, i) { assert s[j..][1..] == Unescape(p, n) && s[j..][0] == c; }
      }
    }
  }

  lemma {:induction false} WholeSegment(s: string, j: nat)
    requires j <= |s|
    ensures SegEnd(s, j, NO_FLAGS) == |s|
    decreases |s| - j
  {
    if j < |s| { WholeSegment(s, j + 1); }
  }

  lemma PlainPatternMatchesOneString(p: string, s: string)
    requires !HasGlob(p)
    ensures Matches(p, s, NO_FLAGS) <==> s == Unescape(p, 0)
  {
    MatchesIffMatchAt(p, s, NO_FLAGS);
    PlainFrom(p, 0, s, 0, true);
    assert s[0..] == s;
  }

  // ---- Quoting ----

  /** Every character behind a backslash. */
  function Quote(s: string): string {
    if s == "" then "" else ['\\', s[0]] + Quote(s[1..])
  }

  lemma {:induction false} QuoteShape(s: string, k: nat)
    requires k < |s|
    ensures |Quote(s)| == 2 * |s| && Quote(s)[2 * k] == '\\' && Quote(s)[2 * k + 1] == s[k]
    decreases s
  {
    if k > 0 { QuoteShape(s[1..], k - 1); }
    else if |s| > 1 { QuoteShape(s[1..], 0); }
  }

  lemma {:induction false} QuoteEscapes(s: string, k: nat)
    requires |Quote(s)| == 2 * |s| && k <= 2 * |s|
    ensures Unescaped(Quote(s), k) <==> k % 2 == 0
    decreases k
  {
    if k > 0 {
      QuoteEscapes(s, k - 1);
      if (k - 1) % 2 == 0 { QuoteShape(s, (k - 1) / 2); }
    }
  }

  lemma {:induction false} UnescapeQuote(s: string, k: nat)
    requires k <= |s| && |Quote(s)| == 2 * |s|
    ensures Unescape(Quote(s), 2 * k) == s[k..]
    decreases |s| - k
  {
    if k < |s| {
      QuoteShape(s, k);
      UnescapeQuote(s, k + 1);
    }
  }

  /** Every string can be quoted into a pattern that matches it and nothing else. */
  lemma QuotedMatchesOnlyItself(s: string, t: string)
    ensures Matches(Quote(s), t, NO_FLAGS) <==> t == s
  {
    var q := Quote(s);
    if s != "" { QuoteShape(s, 0); }
    forall k | 0 <= k < |q| ensures Unescaped(q, k) ==> q[k] == '\\' {
      QuoteEscapes(s, k);
      QuoteShape(s, k / 2);
    }
    UnescapeQuote(s, 0);
    PlainPatternMatchesOneString(q, t);
  }

  // ---- Brackets without a list ----

  /** A `]` right behind the opening is a member of the list; with nothing to close
      it, all of these patterns are ordinary characters. */
  lemma BracketsWithoutList(s: string, f: Flags)
    ensures Matches("[]", s, f) <==> s == "[]"
    ensures Matches("[!]", s, f) <==> s == "[!]"
    ensures Matches("[^]", s, f) <==> s == "[^]"
  {
    PlainLetters("[]", s, f);
    PlainLetters("[!]", s, f);
    PlainLetters("[^]", s, f);
  }

  lemma PlainLetters(p: string, s: string, f: Flags)
    requires p == "[]" || p == "[!]" || p == "[^]"
    ensures Matches(p, s, f) <==> s == p
  {
    forall i | 0 <= i < |p| ensures ItemAt(p, i, f) == (Lit(p[i]), i + 1) {
      NotABracket(p, i, f);
    }
    GlobLetters.LettersOnly(p, s, f);
  }

  lemma NotABracket(p: string, i: nat, f: Flags)
    requires (p == "[]" || p == "[!]" || p == "[^]") && i < |p|
    ensures ItemAt(p, i, f) == (Lit(p[i]), i + 1)
  {
    if i == 0 {
      var k := |p| - 1;
      assert BodyStart(p, 0) == k && At(p, k) == ']' && RangeAt(p, k, f) == Some((Range(']', ']'), |p|));
    }
  }
}
