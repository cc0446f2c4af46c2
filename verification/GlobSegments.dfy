/**
 APR_FNM_PATHNAME, segment by segment.
 */
module GlobSegments {
  import opened Apr
  import opened GlobSyntax
  import opened GlobMatch

  // The pattern is cut at every `/` and `\/` by a scan that knows nothing of brackets,
  // the string at every `/`, and the whole matches exactly when the pieces match
  // pairwise without the flag.

  /** The first separator at or after `i`, or the end. Backslashes pair with the
      character after them; brackets play no part. */
  function Stop(p: string, i: nat, f: Flags): (e: nat)
    requires i <= |p|
    ensures i <= e <= |p|
    ensures e < |p| ==> SepAt(p, e, f)
    decreases |p| - i
  {
    if i == |p| || SepAt(p, i, f) then i
    else if f.Escape() && p[i] == '\\' && i + 1 < |p| then Stop(p, i + 2, f)
    else Stop(p, i + 1, f)
  }

  /** The pieces of the pattern between separators. */
  function PatternSegments(p: string, i: nat, f: Flags): (r: seq<string>)
    requires i <= |p|
    ensures |r| > 0
    decreases |p| - i
  {
    var e := Stop(p, i, f);
    if e == |p| then [p[i..e]]
    else [p[i..e]] + PatternSegments(p, if p[e] == '/' then e + 1 else e + 2, f)
  }

  /** The pieces of the string between slashes. */
  function StringSegments(s: string, j: nat, f: Flags): (r: seq<string>)
    requires j <= |s|
    ensures |r| > 0
    decreases |s| - j
  {
    var e := SegEnd(s, j, f);
    if e == |s| then [s[j..e]] else [s[j..e]] + StringSegments(s, e + 1, f)
  }

  /** The same flags without APR_FNM_PATHNAME. */
  function Plain(f: Flags): Flags {
    f.(pathname := false)
  }

  // ---- A bracket never reaches over a separator ----

  /** A bracket result seen from `o` characters further left. */
  function Shift<T>(r: Option<(T, nat)>, o: nat): Option<(T, int)> {
    if r.None? then None else Some((r.value.0, r.value.1 as int - o))
  }

  /** What a range is does not depend on what comes after the segment. */
  lemma RangeInSegment(p: string, o: nat, a: nat, e: nat, f: Flags)
    requires f.pathname && o <= a < e <= |p| && p[a] != '/' && Stop(p, a + 1, f) == e
    ensures Shift(RangeAt(p, a, f), o) == Shift(RangeAt(p[o..e], a - o, Plain(f)), 0)
    ensures RangeAt(p, a, f).Some? ==> RangeAt(p, a, f).value.1 <= e && Stop(p, RangeAt(p, a, f).value.1, f) == e
  {
    var q := p[o..e];
    assert forall k | o <= k < e :: q[k - o] == p[k];
    if At(p, a + 1) == '-' && At(p, a + 2) != ']' {
      assert Stop(p, a + 2, f) == e;
    }
  }

  /** Where the character of a list element at `i` stands, behind its escape. */
  function Unescaped(p: string, i: nat, f: Flags): (a: nat)
    requires i < |p|
    ensures i <= a <= |p|
  {
    if f.Escape() && p[i] == '\\' then i + 1 else i
  }

  /** What stands at `i` in a list. */
  lemma ElementsCases(p: string, i: nat, f: Flags)
    requires i < |p|
    ensures Elements(p, i, f) ==
            if p[i] == ']' then Some(([], i + 1)) else
            var a := Unescaped(p, i, f);
            if a == |p| || (f.pathname && p[a] == '/') then None else Prepend(p, RangeAt(p, a, f), f)
  {
  }

  /** A list that reaches the end of the segment, or of the pattern, is broken off. */
  lemma BrokenOff(p: string, e: nat, f: Flags)
    requires e <= |p| && (e == |p| || SepAt(p, e, f))
    ensures Elements(p, e, f) == None
  {
  }

  lemma EscapeInSegment(p: string, k: nat, e: nat, f: Flags)
    requires f.pathname && k < e <= |p| && Stop(p, k, f) == e
    ensures p[k] == ']' ==> Stop(p, k + 1, f) == e
    ensures var a := Unescaped(p, k, f);
            if a == |p| then e == |p| else a < e && p[a] != '/' && Stop(p, a + 1, f) == e
  {
  }

  lemma {:induction false} ElementsInSegment(p: string, o: nat, k: nat, e: nat, f: Flags)
    requires f.pathname && o <= k <= e <= |p| && Stop(p, k, f) == e
    ensures Shift(Elements(p, k, f), o) == Shift(Elements(p[o..e], k - o, Plain(f)), 0)
    ensures Elements(p, k, f).Some? ==> Elements(p, k, f).value.1 <= e && Stop(p, Elements(p, k, f).value.1, f) == e
    decreases |p| - k, 2
  {
    hide RangeAt, Prepend, Elements, Stop;
    var q := p[o..e];
    if k == e {
      StopIs(p, k, f);
      BrokenOff(p, e, f);
      BrokenOff(q, e - o, Plain(f));
    } else {
      ElementsCases(p, k, f);
      ElementsCases(q, k - o, Plain(f));
      EscapeInSegment(p, k, e, f);
      assert q[k - o] == p[k];
      var a := Unescaped(p, k, f);
      if p[k] != ']' && a < |p| { PrependInSegment(p, o, a, e, f); }
    }
  }

  lemma StopIs(p: string, i: nat, f: Flags)
    requires i <= |p| && Stop(p, i, f) == i
    ensures i == |p| || SepAt(p, i, f)
  {
  }

  lemma {:induction false} PrependInSegment(p: string, o: nat, a: nat, e: nat, f: Flags)
    requires f.pathname && o <= a < e <= |p| && p[a] != '/' && Stop(p, a + 1, f) == e
    ensures var r := Prepend(p, RangeAt(p, a, f), f);
            && Shift(r, o) == Shift(Prepend(p[o..e], RangeAt(p[o..e], a - o, Plain(f)), Plain(f)), 0)
            && (r.Some? ==> r.value.1 <= e && Stop(p, r.value.1, f) == e)
    decreases |p| - a, 1
  {
    hide RangeAt, Elements, Stop;
    RangeInSegment(p, o, a, e, f);
    var r := RangeAt(p, a, f);
    if r.Some? {
      ElementsInSegment(p, o, r.value.1, e, f);
    }
  }

  /** Looking at a place of the segment, or just behind it. */
  lemma CharInSegment(p: string, o: nat, m: nat, e: nat, f: Flags)
    requires o <= m <= e <= |p| && Stop(p, m, f) == e
    ensures m < e ==> At(p[o..e], m - o) == At(p, m)
    ensures m == e ==> At(p[o..e], m - o) == '\0' && (At(p, m) == '\0' || At(p, m) == '/' || At(p, m) == '\\')
  {
  }

  lemma BodyInSegment(p: string, o: nat, i: nat, e: nat, f: Flags)
    requires f.pathname && o <= i < e <= |p| && p[i] == '[' && Stop(p, i, f) == e
    ensures BodyStart(p, i) - o == BodyStart(p[o..e], i - o)
    ensures BodyStart(p, i) <= e && Stop(p, BodyStart(p, i), f) == e
  {
    assert Stop(p, i + 1, f) == e;
    CharInSegment(p, o, i + 1, e, f);
  }

  lemma BracketInSegment(p: string, o: nat, i: nat, e: nat, f: Flags)
    requires f.pathname && o <= i < e <= |p| && p[i] == '[' && Stop(p, i, f) == e
    ensures Shift(BracketAt(p, i, f), o) == Shift(BracketAt(p[o..e], i - o, Plain(f)), 0)
    ensures BracketAt(p, i, f).Some? ==> BracketAt(p, i, f).value.1 <= e && Stop(p, BracketAt(p, i, f).value.1, f) == e
  {
    hide Prepend, Elements, RangeAt;
    BodyInSegment(p, o, i, e, f);
    var k := BodyStart(p, i);
    CharInSegment(p, o, k, e, f);
    if At(p, k) == ']' {
      PrependInSegment(p, o, k, e, f);
    } else {
      ElementsInSegment(p, o, k, e, f);
    }
  }

  /** An item of a segment is the same item in the segment taken by itself. */
  lemma ItemInSegment(p: string, o: nat, i: nat, e: nat, f: Flags)
    requires f.pathname && o <= i < e <= |p| && Stop(p, i, f) == e
    ensures var (it, n) := ItemAt(p, i, f);
            && !it.Sep? && n <= e && Stop(p, n, f) == e
            && ItemAt(p[o..e], i - o, Plain(f)) == (it, n - o)
  {
    hide BracketAt, BodyStart;
    CharInSegment(p, o, i, e, f);
    if p[i] == '[' {
      BracketInSegment(p, o, i, e, f);
      BodyInSegment(p, o, i, e, f);
    } else if p[i] == '\\' && i + 1 < e {
      assert p[o..e][i + 1 - o] == p[i + 1];
    }
  }

  // ---- Matching segment by segment ----

  /** What is left to match once both segments are used up. */
  ghost predicate RestMatches(p: string, e: nat, s: string, se: nat, f: Flags)
    requires e <= |p| && se <= |s|
  {
    if e == |p| then se == |s|
    else se < |s| && MatchAt(p, ItemAt(p, e, f).1, s, se + 1, true, f)
  }

  lemma {:induction false} MatchInSegment(
    p: string, o: nat, i: nat, e: nat, s: string, so: nat, j: nat, se: nat, start: bool, f: Flags)
    requires f.pathname && o <= i <= e <= |p| && Stop(p, i, f) == e
    requires so <= j <= se <= |s| && SegEnd(s, j, f) == se
    ensures MatchAt(p, i, s, j, start, f) <==>
            MatchAt(p[o..e], i - o, s[so..se], j - so, start, Plain(f)) && RestMatches(p, e, s, se, f)
    decreases |p| - i
  {
    hide ItemAt, SegEnd, Stop, SepAt;
    var q, w, g := p[o..e], s[so..se], Plain(f);
    assert forall m | so <= m < se :: w[m - so] == s[m];
    PlainSegEnd(w, j - so, g);
    if i == e {
    } else {
      ItemInSegment(p, o, i, e, f);
      var (it, n) := ItemAt(p, i, f);
      if it.Star? {
        assert MatchAt(p, i, s, j, start, f) <==> PeriodAt(p, i, s, j, start, f) && StarAt(p, n, s, j, f);
        assert MatchAt(q, i - o, w, j - so, start, g) <==>
               PeriodAt(q, i - o, w, j - so, start, g) && StarAt(q, n - o, w, j - so, g);
        assert PeriodAt(p, i, s, j, start, f) <==> PeriodAt(q, i - o, w, j - so, start, g);
        forall k | j <= k <= se
          ensures MatchAt(p, n, s, k, false, f) <==>
                  MatchAt(q, n - o, w, k - so, false, g) && RestMatches(p, e, s, se, f)
        {
          SegEndWithin(s, j, k, f);
          MatchInSegment(p, o, n, e, s, so, k, se, false, f);
        }
        StarShift(p, n, s, j, se, q, n - o, w, so, RestMatches(p, e, s, se, f), f);
      } else if j < se {
        SegEndWithin(s, j, j + 1, f);
        MatchInSegment(p, o, n, e, s, so, j + 1, se, false, f);
      }
    }
  }

  lemma {:induction false} PlainSegEnd(w: string, j: nat, g: Flags)
    requires j <= |w| && !g.pathname
    ensures SegEnd(w, j, g) == |w|
    decreases |w| - j
  {
    if j < |w| { PlainSegEnd(w, j + 1, g); }
  }

  /** The choice of a `*` carried over from the whole to the segment. */
  lemma StarShift(
    p: string, n: nat, s: string, j: nat, se: nat, q: string, m: nat, w: string, so: nat, rest: bool, f: Flags)
    requires n <= |p| && m <= |q| && so <= j <= se <= |s| && |w| == se - so
    requires forall k | j <= k <= se ::
               MatchAt(p, n, s, k, false, f) <==> MatchAt(q, m, w, k - so, false, Plain(f)) && rest
    requires SegEnd(s, j, f) == se
    ensures StarAt(p, n, s, j, f) <==> StarAt(q, m, w, j - so, Plain(f)) && rest
  {
    PlainSegEnd(w, j - so, Plain(f));
    if rest && exists k | j - so <= k <= |w| :: MatchAt(q, m, w, k, false, Plain(f)) {
      var k :| j - so <= k <= |w| && MatchAt(q, m, w, k, false, Plain(f));
      assert MatchAt(q, m, w, (k + so) - so, false, Plain(f));
      assert MatchAt(p, n, s, k + so, false, f);
    }
    if exists k | j <= k <= se :: MatchAt(p, n, s, k, false, f) {
      var k :| j <= k <= se && MatchAt(p, n, s, k, false, f);
      assert MatchAt(q, m, w, k - so, false, Plain(f));
    }
  }

  /** As many segments on both sides, and each pair matches without the flag. */
  ghost predicate SegmentsMatch(ps: seq<string>, ss: seq<string>, f: Flags) {
    |ps| == |ss| && forall k | 0 <= k < |ps| :: Matches(ps[k], ss[k], Plain(f))
  }

  lemma {:induction false} MatchBySegmentsFrom(p: string, i: nat, s: string, j: nat, f: Flags)
    requires f.pathname && i <= |p| && j <= |s|
    ensures MatchAt(p, i, s, j, true, f) <==> SegmentsMatch(PatternSegments(p, i, f), StringSegments(s, j, f), f)
    decreases |p| - i
  {
    hide Matches, Stop, SegEnd, MatchAt;
    var e, se := Stop(p, i, f), SegEnd(s, j, f);
    var ps, ss := PatternSegments(p, i, f), StringSegments(s, j, f);
    MatchInSegment(p, i, i, e, s, j, j, se, true, f);
    MatchesIffMatchAt(p[i..e], s[j..se], Plain(f));
    assert ps[0] == p[i..e] && ss[0] == s[j..se];
    if e < |p| && se < |s| {
      var n := ItemAt(p, e, f).1;
      MatchBySegmentsFrom(p, n, s, se + 1, f);
      var ps', ss' := PatternSegments(p, n, f), StringSegments(s, se + 1, f);
      assert ps == [p[i..e]] + ps' && ss == [s[j..se]] + ss';
      if SegmentsMatch(ps, ss, f) {
        forall k | 0 <= k < |ps'| ensures Matches(ps'[k], ss'[k], Plain(f)) {
          assert Matches(ps[k + 1], ss[k + 1], Plain(f));
        }
      }
      if Matches(ps[0], ss[0], Plain(f)) && SegmentsMatch(ps', ss', f) {
        forall k | 0 <= k < |ps| ensures Matches(ps[k], ss[k], Plain(f)) {
          if k > 0 { assert Matches(ps'[k - 1], ss'[k - 1], Plain(f)); }
        }
      }
    }
  }

  /** With APR_FNM_PATHNAME a match is a match of every pair of segments. */
  lemma MatchesBySegments(p: string, s: string, f: Flags)
    requires f.pathname
    ensures Matches(p, s, f) <==> SegmentsMatch(PatternSegments(p, 0, f), StringSegments(s, 0, f), f)
  {
    MatchesIffMatchAt(p, s, f);
    MatchBySegmentsFrom(p, 0, s, 0, f);
  }
}
