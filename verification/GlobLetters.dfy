/**
 What short patterns written out character by character match (strings/apr_fnmatch.c).
 */
module GlobLetters {
  import opened Apr
  import opened GlobSyntax
  import opened GlobMatch

  /** One character, which neither flag keeps from being matched. */
  predicate One(s: string, f: Flags) {
    |s| == 1 && !(f.pathname && s[0] == '/') && !(f.period && s[0] == '.')
  }

  /** A pattern that is one item for one character. */
  lemma OneItem(p: string, it: Item, s: string, f: Flags)
    requires p != "" && ItemAt(p, 0, f) == (it, |p|) && it.Single()
    ensures Matches(p, s, f) <==>
            && |s| == 1 && Accepts(it, s[0], f) && !(f.pathname && s[0] == '/')
            && !(f.period && s[0] == '.' && it != Lit('.'))
  {
    MatchesIffMatchAt(p, s, f);
    hide ItemAt, Accepts;
  }

  // ---- Lists ----

  /** A character that means itself wherever it stands in a list. */
  predicate Plain(c: char) {
    c !in "]-!^\\/"
  }

  /** `[` or `[!` or `[^`. */
  predicate Opens(p: string, k: nat) {
    && 0 < k < |p| && p[0] == '[' && Plain(p[k])
    && (k == 1 || (k == 2 && (p[1] == '!' || p[1] == '^')))
  }

  lemma OpensList(p: string, k: nat, f: Flags)
    requires Opens(p, k)
    ensures BodyStart(p, 0) == k && BracketAt(p, 0, f) == Elements(p, k, f)
  {
  }

  /** A list that is one range. */
  lemma RangeItem(p: string, k: nat, f: Flags)
    requires Opens(p, k) && |p| == k + 4 && p[k + 1] == '-' && Plain(p[k + 2]) && p[k + 3] == ']'
    ensures ItemAt(p, 0, f) == (Set(k == 2, [Range(p[k], p[k + 2])]), |p|)
  {
    OpensList(p, k, f);
    var r := Range(p[k], p[k + 2]);
    assert RangeAt(p, k, f) == Some((r, k + 3));
    assert Elements(p, k + 3, f) == Some(([], k + 4));
    assert [r] + [] == [r];
    assert Prepend(p, Some((r, k + 3)), f) == Some(([r], k + 4));
  }

  lemma RangeMatchesAs(p: string, k: nat, s: string, f: Flags)
    requires Opens(p, k) && |p| == k + 4 && p[k + 1] == '-' && Plain(p[k + 2]) && p[k + 3] == ']'
    ensures Matches(p, s, f) <==> One(s, f) && InRange(s[0], Range(p[k], p[k + 2]), f) == (k == 1)
  {
    RangeItem(p, k, f);
    var r := Range(p[k], p[k + 2]);
    OneItem(p, Set(k == 2, [r]), s, f);
    if |s| == 1 { OneRange(r, s[0], f); }
  }

  lemma OneRange(r: Range, c: char, f: Flags)
    ensures InUnion(c, [r], f) <==> InRange(c, r, f)
  {
    assert [r][0] == r;
  }

  /** `[a-b]` holds both its ends and what lies between, `[!a-b]` and `[^a-b]` the rest. */
  lemma RangeMatches(a: char, b: char, s: string, f: Flags)
    requires Plain(a) && Plain(b) && !f.caseBlind
    ensures Matches(['[', a, '-', b, ']'], s, f) <==> One(s, f) && a <= s[0] <= b
    ensures Matches(['[', '!', a, '-', b, ']'], s, f) <==> One(s, f) && !(a <= s[0] <= b)
    ensures Matches(['[', '^', a, '-', b, ']'], s, f) <==> One(s, f) && !(a <= s[0] <= b)
  {
    hide Matches;
    RangeMatchesAs(['[', a, '-', b, ']'], 1, s, f);
    RangeMatchesAs(['[', '!', a, '-', b, ']'], 2, s, f);
    RangeMatchesAs(['[', '^', a, '-', b, ']'], 2, s, f);
  }

  /** Ranges of letters without regard to case: the letters between, and those 32 off. */
  lemma RangeOfLetters(a: char, b: char, s: string, f: Flags)
    requires f.caseBlind
    ensures 'a' <= a <= 'z' && 'a' <= b <= 'z' ==>
              (Matches(['[', a, '-', b, ']'], s, f) <==>
                |s| == 1 && (a <= s[0] <= b || a as int <= s[0] as int + 32 <= b as int))
    ensures 'A' <= a <= 'Z' && 'A' <= b <= 'Z' ==>
              (Matches(['[', a, '-', b, ']'], s, f) <==>
                |s| == 1 && (a <= s[0] <= b || a as int + 32 <= s[0] as int <= b as int + 32))
  {
    hide Matches;
    if Plain(a) && Plain(b) { RangeMatchesAs(['[', a, '-', b, ']'], 1, s, f); }
  }

  /** One letter, alone or in a list, without regard to case: itself, and the one 32 off.
      Any other character stands for itself. */
  lemma LetterMatches(x: char, s: string, f: Flags)
    requires f.caseBlind && Plain(x) && x !in "[*?."
    ensures Matches([x], s, f) <==> Matches(['[', x, ']'], s, f)
    ensures Matches([x], s, f) <==>
            && |s| == 1
            && (s[0] == x || ('a' <= x <= 'z' && s[0] as int == x as int - 32)
                || ('A' <= x <= 'Z' && s[0] as int == x as int + 32))
  {
    LetterItem(x, f);
    OneItem([x], Lit(x), s, f);
    var p := ['[', x, ']'];
    ListItem(p, 1, f);
    assert p[1..|p| - 1] == [x] && Singles([x]) == [Range(x, x)];
    OneItem(p, Set(false, [Range(x, x)]), s, f);
    if |s| == 1 { OneRange(Range(x, x), s[0], f); }
    hide Matches;
  }

  lemma LetterItem(x: char, f: Flags)
    requires Plain(x) && x !in "[*?"
    ensures ItemAt([x], 0, f) == (Lit(x), 1)
  {
  }

  /** Each character a range of its own. */
  function Singles(w: string): (rs: seq<Range>)
    ensures |rs| == |w| && forall k | 0 <= k < |w| :: rs[k] == Range(w[k], w[k])
  {
    if w == "" then [] else [Range(w[0], w[0])] + Singles(w[1..])
  }

  predicate AllPlain(w: string) {
    forall k | 0 <= k < |w| :: Plain(w[k])
  }

  lemma {:induction false} ListElements(p: string, i: nat, f: Flags)
    requires i < |p| && p[|p| - 1] == ']' && AllPlain(p[i..|p| - 1])
    ensures Elements(p, i, f) == Some((Singles(p[i..|p| - 1]), |p|))
    decreases |p| - i
  {
    var w := p[i..|p| - 1];
    if w != "" {
      assert w[0] == p[i] && w[1..] == p[i + 1..|p| - 1];
      assert forall k | 0 <= k < |w[1..]| :: w[1..][k] == w[k + 1];
      assert AllPlain(p[i + 1..|p| - 1]);
      ListElements(p, i + 1, f);
      assert At(p, i + 1) != '-' by { if |w| > 1 { assert w[1] == p[i + 1]; } }
      assert RangeAt(p, i, f) == Some((Range(p[i], p[i]), i + 1));
    }
  }

  lemma ListItem(p: string, k: nat, f: Flags)
    requires Opens(p, k) && p[|p| - 1] == ']' && AllPlain(p[k..|p| - 1])
    ensures ItemAt(p, 0, f) == (Set(k == 2, Singles(p[k..|p| - 1])), |p|)
  {
    OpensList(p, k, f);
    ListElements(p, k, f);
  }

  /** A list of characters holds just these, `[!` and `[^` the rest. */
  lemma ListMatches(w: string, s: string, f: Flags)
    requires w != "" && AllPlain(w) && !f.caseBlind
    ensures Matches("[" + w + "]", s, f) <==> One(s, f) && s[0] in w
    ensures Matches("[!" + w + "]", s, f) <==> One(s, f) && s[0] !in w
    ensures Matches("[^" + w + "]", s, f) <==> One(s, f) && s[0] !in w
  {
    ListMatchesAs("[", w, s, f);
    ListMatchesAs("[!", w, s, f);
    ListMatchesAs("[^", w, s, f);
  }

  lemma ListMatchesAs(open: string, w: string, s: string, f: Flags)
    requires w != "" && AllPlain(w) && !f.caseBlind && (open == "[" || open == "[!" || open == "[^")
    ensures Matches(open + w + "]", s, f) <==> One(s, f) && (s[0] in w) == (open == "[")
  {
    var p := open + w + "]";
    assert p[|open|..|p| - 1] == w;
    assert p[0] == open[0] && p[|open|] == w[0] && (|open| == 2 ==> p[1] == open[1]);
    hide Matches, ItemAt, InUnion;
    ListItem(p, |open|, f);
    OneItem(p, Set(|open| == 2, Singles(w)), s, f);
    if |s| == 1 { AmongSingles(w, s[0], f); }
  }

  lemma AmongSingles(w: string, c: char, f: Flags)
    requires !f.caseBlind
    ensures InUnion(c, Singles(w), f) <==> c in w
  {
    if c in w {
      var k :| 0 <= k < |w| && w[k] == c;
      assert InRange(c, Singles(w)[k], f);
    }
  }

  /** A hyphen in front of the `]` is a character like others, and so is a `]` right behind
      the opening. */
  lemma HyphenAndBracket(a: char, s: string, f: Flags)
    requires Plain(a) && !f.caseBlind
    ensures Matches(['[', a, '-', ']'], s, f) <==> One(s, f) && (s[0] == a || s[0] == '-')
    ensures Matches(['[', ']', a, ']'], s, f) <==> One(s, f) && (s[0] == a || s[0] == ']')
  {
    var hyphen, bracket := ['[', a, '-', ']'], ['[', ']', a, ']'];
    TwoItem(hyphen, f);
    TwoItem(bracket, f);
    OneItem(hyphen, Set(false, Singles([a, '-'])), s, f);
    OneItem(bracket, Set(false, Singles([']', a])), s, f);
    if |s| == 1 {
      AmongSingles([a, '-'], s[0], f);
      AmongSingles([']', a], s[0], f);
    }
  }

  lemma TwoItem(p: string, f: Flags)
    requires |p| == 4 && p[0] == '[' && p[3] == ']'
    requires (Plain(p[1]) && p[2] == '-') || (p[1] == ']' && Plain(p[2]))
    ensures ItemAt(p, 0, f) == (Set(false, Singles([p[1], p[2]])), 4)
  {
    var r, q := Range(p[1], p[1]), Range(p[2], p[2]);
    assert BodyStart(p, 0) == 1;
    assert RangeAt(p, 1, f) == Some((r, 2)) && RangeAt(p, 2, f) == Some((q, 3));
    assert Elements(p, 3, f) == Some(([], 4)) && [q] + [] == [q];
    assert Elements(p, 2, f) == Some(([q], 4));
    assert Singles([p[1], p[2]]) == [r] + [q];
    if Plain(p[1]) { assert Elements(p, 1, f) == Prepend(p, RangeAt(p, 1, f), f); }
    assert BracketAt(p, 0, f) == Prepend(p, Some((r, 2)), f);
  }

  /** A backslash takes the meaning of the character behind it, in a list too; under
      APR_FNM_NOESCAPE it is a character like others. */
  lemma BackslashMatches(x: char, s: string, f: Flags)
    requires !f.caseBlind && (f.pathname ==> x != '/')
    ensures !f.noEscape ==> (Matches(['[', '\\', x, ']'], s, f) <==> One(s, f) && s[0] == x)
    ensures !f.noEscape ==> (Matches(['\\', x], s, f) <==> s == [x])
    ensures f.noEscape && Plain(x) && x !in "[*?" ==>
              && (Matches(['[', '\\', x, ']'], s, f) <==> One(s, f) && (s[0] == '\\' || s[0] == x))
              && (Matches(['\\', x], s, f) <==> s == ['\\', x])
  {
    BackslashItem(x, f);
    var list, two := ['[', '\\', x, ']'], ['\\', x];
    if !f.noEscape {
      OneItem(list, Set(false, [Range(x, x)]), s, f);
      OneItem(two, Lit(x), s, f);
      if |s| == 1 { OneRange(Range(x, x), s[0], f); }
    } else if Plain(x) && x !in "[*?" {
      OneItem(list, Set(false, Singles(['\\', x])), s, f);
      if |s| == 1 { AmongSingles(['\\', x], s[0], f); }
      TwoLetters(two, s, f);
    }
  }

  lemma BackslashItem(x: char, f: Flags)
    requires f.pathname ==> x != '/'
    ensures var list, two := ['[', '\\', x, ']'], ['\\', x];
            && (!f.noEscape ==>
                  ItemAt(list, 0, f) == (Set(false, [Range(x, x)]), 4) && ItemAt(two, 0, f) == (Lit(x), 2))
            && (f.noEscape && Plain(x) ==> ItemAt(list, 0, f) == (Set(false, Singles(['\\', x])), 4))
  {
    var p := ['[', '\\', x, ']'];
    var r := Range(x, x);
    assert BodyStart(p, 0) == 1 && RangeAt(p, 2, f) == Some((r, 3));
    assert Elements(p, 3, f) == Some(([], 4)) && [r] + [] == [r];
    assert Prepend(p, Some((r, 3)), f) == Some(([r], 4));
    if !f.noEscape {
      assert Elements(p, 1, f) == Prepend(p, RangeAt(p, 2, f), f);
    } else if Plain(x) {
      assert Elements(p, 2, f) == Some(([r], 4));
      assert RangeAt(p, 1, f) == Some((Range('\\', '\\'), 2));
      assert Elements(p, 1, f) == Prepend(p, RangeAt(p, 1, f), f);
      assert Singles(['\\', x]) == [Range('\\', '\\')] + [r];
    }
  }

  lemma TwoLetters(p: string, s: string, f: Flags)
    requires |p| == 2 && f.noEscape && !f.caseBlind && p[0] == '\\' && Plain(p[1]) && p[1] !in "[*?"
    ensures Matches(p, s, f) <==> s == p
  {
    MatchesIffMatchAt(p, s, f);
    assert ItemAt(p, 0, f) == (Lit(p[0]), 1) && ItemAt(p, 1, f) == (Lit(p[1]), 2);
    hide ItemAt;
    if s != "" && s[0] == p[0] {
      assert SegEnd(s, 0, f) > 0;
      assert MatchAt(p, 0, s, 0, true, f) <==> MatchAt(p, 1, s, 1, false, f);
      if |s| > 1 && s[1] == p[1] {
        assert SegEnd(s, 1, f) > 1;
        assert MatchAt(p, 1, s, 1, false, f) <==> MatchAt(p, 2, s, 2, false, f);
      }
    }
    assert s == p <==> |s| == 2 && s[0] == p[0] && s[1] == p[1];
  }

  // ---- Wild characters ----

  /** `?` stands for one character, `*` for any string, but not for a slash under
      APR_FNM_PATHNAME, nor for a leading period under APR_FNM_PERIOD. */
  lemma WildMatches(s: string, f: Flags)
    ensures Matches("?", s, f) <==> |s| == 1 && !(f.pathname && s[0] == '/') && !(f.period && s[0] == '.')
    ensures Matches("*", s, f) <==> !(f.pathname && '/' in s) && !(f.period && s != "" && s[0] == '.')
    ensures Matches("/", s, f) <==> s == "/"
  {
    assert ItemAt("?", 0, f) == (Any, 1);
    OneItem("?", Any, s, f);
    StarMatches(s, f);
    SlashMatches(s, f);
  }

  lemma StarMatches(s: string, f: Flags)
    ensures Matches("*", s, f) <==> !(f.pathname && '/' in s) && !(f.period && s != "" && s[0] == '.')
  {
    MatchesIffMatchAt("*", s, f);
    PieceWithinSegment(s, 0, |s|, f);
    assert s[0..|s|] == s && ItemAt("*", 0, f) == (Star, 1);
    hide ItemAt, SegEnd;
    forall k | 0 <= k <= |s| ensures MatchAt("*", 1, s, k, false, f) <==> k == |s| {
    }
    assert MatchAt("*", 1, s, |s|, false, f);
  }

  lemma SlashMatches(s: string, f: Flags)
    ensures Matches("/", s, f) <==> s == "/"
  {
    MatchesIffMatchAt("/", s, f);
    assert ItemAt("/", 0, f) == (if f.pathname then Sep else Lit('/'), 1);
    hide ItemAt;
    if s != "" {
      assert MatchAt("/", 1, s, 1, f.pathname, f) <==> |s| == 1;
    }
  }

  // ---- Leading periods ----

  /** Under APR_FNM_PERIOD, outside of pathnames, nothing changes but that a string with a
      leading period needs a pattern with a leading period, plain or escaped. */
  lemma PeriodMatches(p: string, s: string, f: Flags)
    requires f.period && !f.pathname
    ensures Matches(p, s, f) <==>
            && Matches(p, s, f.(period := false))
            && (s != "" && s[0] == '.' ==>
                  p != "" && (p[0] == '.' || (!f.noEscape && |p| > 1 && p[0] == '\\' && p[1] == '.')))
  {
    var g := f.(period := false);
    MatchesIffMatchAt(p, s, f);
    MatchesIffMatchAt(p, s, g);
    SameBehind(p, 0, s, 0, f);
    PeriodItem(p, f);
    StartOfSegment(p, s, f);
    StartOfSegment(p, s, g);
  }

  /** What is asked of the start comes on top of the rest. */
  lemma StartOfSegment(p: string, s: string, f: Flags)
    ensures MatchAt(p, 0, s, 0, true, f) <==> PeriodAt(p, 0, s, 0, true, f) && MatchAt(p, 0, s, 0, false, f)
  {
    hide ItemAt, SegEnd, Accepts;
  }

  lemma PeriodItem(p: string, f: Flags)
    requires !f.pathname
    ensures p != "" && ItemAt(p, 0, f).0 == Lit('.') <==>
            p != "" && (p[0] == '.' || (!f.noEscape && |p| > 1 && p[0] == '\\' && p[1] == '.'))
  {
    hide BracketAt;
  }

  lemma SameRange(p: string, a: nat, f: Flags)
    requires a < |p|
    ensures RangeAt(p, a, f) == RangeAt(p, a, f.(period := false))
  {
  }

  lemma {:induction false} SameList(p: string, i: nat, f: Flags)
    requires i <= |p|
    ensures Elements(p, i, f) == Elements(p, i, f.(period := false))
    decreases |p| - i
  {
    var g := f.(period := false);
    if i < |p| && p[i] != ']' {
      var a := if f.Escape() && p[i] == '\\' then i + 1 else i;
      if a < |p| {
        SameRange(p, a, f);
        hide RangeAt;
        if RangeAt(p, a, f).Some? { SameList(p, RangeAt(p, a, f).value.1, f); }
      }
    }
  }

  lemma SameItem(p: string, i: nat, f: Flags)
    requires i < |p|
    ensures ItemAt(p, i, f) == ItemAt(p, i, f.(period := false))
  {
    hide Elements, RangeAt;
    var k := BodyStart(p, i);
    if k <= |p| { SameList(p, k, f); }
    if k < |p| {
      SameRange(p, k, f);
      if RangeAt(p, k, f).Some? { SameList(p, RangeAt(p, k, f).value.1, f); }
    }
  }

  lemma SameAccepts(it: Item, c: char, f: Flags)
    requires it.Single()
    ensures Accepts(it, c, f) <==> Accepts(it, c, f.(period := false))
  {
    var g := f.(period := false);
    if it.Set? {
      assert forall k | 0 <= k < |it.ranges| :: InRange(c, it.ranges[k], f) == InRange(c, it.ranges[k], g);
    }
  }

  lemma {:induction false} SameBehind(p: string, i: nat, s: string, j: nat, f: Flags)
    requires i <= |p| && j <= |s| && !f.pathname
    ensures var g := f.(period := false);
            MatchAt(p, i, s, j, false, f) <==> MatchAt(p, i, s, j, false, g)
    decreases |p| - i
  {
    var g := f.(period := false);
    if i < |p| {
      SameItem(p, i, f);
      SameEnd(s, j, f);
      if ItemAt(p, i, f).0.Single() && j < |s| { SameAccepts(ItemAt(p, i, f).0, s[j], f); }
      hide ItemAt, SegEnd, Accepts;
      var n := ItemAt(p, i, f).1;
      forall k | j <= k <= |s| ensures MatchAt(p, n, s, k, false, f) <==> MatchAt(p, n, s, k, false, g) {
        SameBehind(p, n, s, k, f);
      }
    }
  }

  lemma SameEnd(s: string, j: nat, f: Flags)
    requires j <= |s| && !f.pathname
    ensures SegEnd(s, j, f) == |s| == SegEnd(s, j, f.(period := false))
  {
  }

  // ---- Whole paths ----

  /** Every character of the pattern is an item by itself. */
  predicate Letters(p: string, f: Flags) {
    forall k | 0 <= k < |p| :: ItemAt(p, k, f) == (if f.pathname && p[k] == '/' then Sep else Lit(p[k]), k + 1)
  }

  /** No character of it has another case, or case counts. */
  predicate Caseless(p: string, f: Flags) {
    f.caseBlind ==> forall k | 0 <= k < |p| :: !('a' <= p[k] <= 'z' || 'A' <= p[k] <= 'Z')
  }

  lemma {:induction false} LettersMatch(p: string, i: nat, s: string, j: nat, start: bool, f: Flags)
    requires i <= |p| && j <= |s| && Caseless(p, f) && Letters(p, f)
    ensures MatchAt(p, i, s, j, start, f) <==> s[j..] == p[i..]
    decreases |p| - i
  {
    hide ItemAt;
    if i < |p| && j < |s| {
      LettersMatch(p, i + 1, s, j + 1, f.pathname && p[i] == '/', f);
      assert s[j..] == [s[j]] + s[j + 1..] && p[i..] == [p[i]] + p[i + 1..];
    }
  }

  /** A pattern of plain characters matches itself, without letters even under
      APR_FNM_CASE_BLIND. */
  lemma PlainMatchesItself(p: string, s: string, f: Flags)
    requires Caseless(p, f) && forall k | 0 <= k < |p| :: p[k] !in "[*?\\"
    ensures Matches(p, s, f) <==> s == p
  {
    LettersOnly(p, s, f);
  }

  /** So does one with a `[` that nothing closes, or that a slash cuts off from its `]`
      under APR_FNM_PATHNAME. */
  lemma UnclosedMatchesItself(a: char, b: char, s: string, f: Flags)
    requires !f.caseBlind && Plain(a) && Plain(b) && a !in "[*?" && b !in "[*?"
    ensures Matches(['[', a, b], s, f) <==> s == ['[', a, b]
    ensures f.pathname ==> (Matches(['[', a, '/', b, ']'], s, f) <==> s == ['[', a, '/', b, ']'])
  {
    var open := ['[', a, b];
    assert Elements(open, 3, f) == None && Elements(open, 2, f) == None && Elements(open, 1, f) == None;
    LettersOnly(open, s, f);
    if f.pathname {
      var cut := ['[', a, '/', b, ']'];
      assert Elements(cut, 2, f) == None && Elements(cut, 1, f) == None;
      LettersOnly(cut, s, f);
    }
  }

  lemma LettersOnly(p: string, s: string, f: Flags)
    requires Caseless(p, f) && Letters(p, f)
    ensures Matches(p, s, f) <==> s == p
  {
    MatchesIffMatchAt(p, s, f);
    LettersMatch(p, 0, s, 0, true, f);
    assert s[0..] == s && p[0..] == p;
  }
}
