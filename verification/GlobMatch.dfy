/**
 What it means for a pattern to match a string.
 */
module GlobMatch {
  import opened Apr
  import opened GlobSyntax

  // First by cutting the string into one piece per item, then by a recursion over
  // places in the pattern and the string; then the facts about runs of one-character
  // items that make the greedy search of `apr_fnmatch` complete.

  // ---- The meaning of a pattern ----

  /** Whether item `it` may stand for the piece `s[a..b]`. */
  predicate Fits(it: Item, s: string, a: nat, b: nat, f: Flags)
    requires a <= b <= |s|
  {
    match it
    case Star => f.pathname ==> '/' !in s[a..b]
    case Sep => s[a..b] == "/"
    case _ => b == a + 1 && Accepts(it, s[a], f) && (f.pathname ==> s[a] != '/')
  }

  /** Whether item `k` is the first of its segment. */
  predicate StartsSegment(items: seq<Item>, k: nat)
    requires k <= |items|
  {
    k == 0 || items[k - 1].Sep?
  }

  /** A leading period is matched by a period of the pattern and nothing else. */
  predicate PeriodRule(items: seq<Item>, k: nat, s: string, j: nat, f: Flags)
    requires k <= |items|
  {
    f.period && j < |s| && s[j] == '.' && StartsSegment(items, k)
    ==> k < |items| && items[k] == Lit('.')
  }

  /** `cuts` divides all of `s` into one fitting piece per item. */
  ghost predicate Division(items: seq<Item>, s: string, cuts: seq<nat>, f: Flags) {
    && |cuts| == |items| + 1
    && cuts[0] == 0 && cuts[|items|] == |s|
    && (forall k {:trigger cuts[k]} | 0 <= k < |items| :: cuts[k] <= cuts[k + 1] <= |s|)
    && (forall k {:trigger items[k]} | 0 <= k < |items| :: Fits(items[k], s, cuts[k], cuts[k + 1], f))
    && (forall k {:trigger cuts[k]} | 0 <= k <= |items| :: PeriodRule(items, k, s, cuts[k], f))
  }

  /** The pattern `p` matches the whole of `s`. */
  ghost predicate Matches(p: string, s: string, f: Flags) {
    exists cuts :: Division(Parse(p, 0, f), s, cuts, f)
  }

  // ---- The same, by recursion ----

  /** The end of the string segment around `j`. */
  function SegEnd(s: string, j: nat, f: Flags): (e: nat)
    requires j <= |s|
    ensures j <= e <= |s|
    ensures forall k | j <= k < e :: !f.pathname || s[k] != '/'
    ensures e < |s| ==> f.pathname && s[e] == '/'
    decreases |s| - j
  {
    if j == |s| || (f.pathname && s[j] == '/') then j else SegEnd(s, j + 1, f)
  }

  lemma {:induction false} SegEndWithin(s: string, j: nat, k: nat, f: Flags)
    requires j <= |s| && j <= k <= SegEnd(s, j, f)
    ensures SegEnd(s, k, f) == SegEnd(s, j, f)
    decreases k - j
  {
    if j < k { SegEndWithin(s, j + 1, k, f); }
  }

  predicate PeriodAt(p: string, i: nat, s: string, j: nat, start: bool, f: Flags) {
    f.period && start && j < |s| && s[j] == '.' ==> i < |p| && ItemAt(p, i, f).0 == Lit('.')
  }

  /** The items from `i` match the string from `j`; `start` says whether a
      segment starts here. */
  ghost predicate MatchAt(p: string, i: nat, s: string, j: nat, start: bool, f: Flags)
    requires i <= |p| && j <= |s|
    decreases |p| - i
  {
    PeriodAt(p, i, s, j, start, f) &&
    if i == |p| then j == |s| else
    var (it, n) := ItemAt(p, i, f);
    if it.Star? then exists k | j <= k <= SegEnd(s, j, f) :: MatchAt(p, n, s, k, false, f)
    else if it.Sep? then j < |s| && s[j] == '/' && MatchAt(p, n, s, j + 1, true, f)
    else j < SegEnd(s, j, f) && Accepts(it, s[j], f) && MatchAt(p, n, s, j + 1, false, f)
  }

  /** A `*` followed by the items from `i` matches from `j`. */
  ghost predicate StarAt(p: string, i: nat, s: string, j: nat, f: Flags)
    requires i <= |p| && j <= |s|
  {
    exists k | j <= k <= SegEnd(s, j, f) :: MatchAt(p, i, s, k, false, f)
  }

  // ---- Both definitions agree ----

  /** As Division, for the items and the string from `j`, when the items
      start a segment or not. */
  ghost predicate DivisionFrom(items: seq<Item>, s: string, j: nat, cuts: seq<nat>, start: bool, f: Flags) {
    && |cuts| == |items| + 1
    && cuts[0] == j && cuts[|items|] == |s|
    && (forall k {:trigger cuts[k]} | 0 <= k < |items| :: cuts[k] <= cuts[k + 1] <= |s|)
    && (forall k {:trigger items[k]} | 0 <= k < |items| :: Fits(items[k], s, cuts[k], cuts[k + 1], f))
    && (forall k {:trigger cuts[k]} | 1 <= k <= |items| :: PeriodRule(items, k, s, cuts[k], f))
    && (start ==> PeriodRule(items, 0, s, j, f))
  }

  /** The first piece taken off a division leaves a division. */
  lemma DivisionTail(it: Item, rest: seq<Item>, s: string, j: nat, cuts: seq<nat>, start: bool, f: Flags)
    requires DivisionFrom([it] + rest, s, j, cuts, start, f)
    ensures j <= cuts[1] <= |s| && Fits(it, s, j, cuts[1], f)
    ensures start ==> PeriodRule([it], 0, s, j, f)
    ensures DivisionFrom(rest, s, cuts[1], cuts[1..], it.Sep?, f)
  {
    var items := [it] + rest;
    assert items[0] == it && cuts[0] <= cuts[0 + 1] && Fits(items[0], s, cuts[0], cuts[0 + 1], f);
    assert PeriodRule(items, 1, s, cuts[1], f);
    assert forall k | 0 <= k < |cuts[1..]| :: cuts[1..][k] == cuts[k + 1];
    assert forall k | 0 <= k < |rest| :: rest[k] == items[k + 1];
    forall k | 0 <= k < |rest| ensures Fits(rest[k], s, cuts[1..][k], cuts[1..][k + 1], f) {
      assert Fits(items[k + 1], s, cuts[k + 1], cuts[k + 1 + 1], f);
    }
    forall k {:trigger cuts[1..][k]} | 1 <= k <= |rest| ensures PeriodRule(rest, k, s, cuts[1..][k], f) {
      assert PeriodRule(items, k + 1, s, cuts[k + 1], f);
      assert rest[k - 1] == items[k + 1 - 1];
    }
  }

  /** A fitting piece put in front of a division gives a division. */
  lemma DivisionCons(it: Item, rest: seq<Item>, s: string, j: nat, cuts: seq<nat>, start: bool, f: Flags)
    requires |cuts| > 0 && DivisionFrom(rest, s, cuts[0], cuts, it.Sep?, f)
    requires j <= cuts[0] <= |s| && Fits(it, s, j, cuts[0], f)
    requires start ==> PeriodRule([it], 0, s, j, f)
    ensures DivisionFrom([it] + rest, s, j, [j] + cuts, start, f)
  {
    var items, all := [it] + rest, [j] + cuts;
    assert forall k | 0 < k < |all| :: all[k] == cuts[k - 1];
    assert forall k | 0 < k < |items| :: items[k] == rest[k - 1];
    forall k {:trigger items[k]} | 0 <= k < |items| ensures Fits(items[k], s, all[k], all[k + 1], f) {
      if k > 0 { assert Fits(rest[k - 1], s, cuts[k - 1], cuts[k - 1 + 1], f); }
    }
    forall k {:trigger all[k]} | 1 <= k <= |items| ensures PeriodRule(items, k, s, all[k], f) {
      if k > 1 {
        assert PeriodRule(rest, k - 1, s, cuts[k - 1], f);
        assert rest[k - 1 - 1] == items[k - 1];
      }
    }
    if start { assert items[0] == [it][0]; }
  }

  lemma {:induction false} DivisionToMatch(p: string, i: nat, s: string, j: nat, cuts: seq<nat>, start: bool, f: Flags)
    requires i <= |p| && j <= |s|
    requires DivisionFrom(Parse(p, i, f), s, j, cuts, start, f)
    ensures MatchAt(p, i, s, j, start, f)
    decreases |p| - i
  {
    if i < |p| {
      var (it, n) := ItemAt(p, i, f);
      DivisionTail(it, Parse(p, n, f), s, j, cuts, start, f);
      DivisionToMatch(p, n, s, cuts[1], cuts[1..], it.Sep?, f);
      PieceWithinSegment(s, j, cuts[1], f);
      if it.Sep? { assert s[j..cuts[1]][0] == s[j]; }
    }
  }

  /** A piece without `/` stays in its segment, and the other way round. */
  lemma PieceWithinSegment(s: string, j: nat, k: nat, f: Flags)
    requires j <= k <= |s|
    ensures (f.pathname ==> '/' !in s[j..k]) <==> k <= SegEnd(s, j, f)
  {
    var e := SegEnd(s, j, f);
    if e < k { assert s[j..k][e - j] == '/'; }
    else {
      forall c | c in s[j..k] ensures f.pathname ==> c != '/' {
        var m :| 0 <= m < |s[j..k]| && s[j..k][m] == c;
        assert s[j + m] == c;
      }
    }
  }

  lemma {:induction false} MatchToDivision(p: string, i: nat, s: string, j: nat, start: bool, f: Flags)
    returns (cuts: seq<nat>)
    requires i <= |p| && j <= |s|
    requires MatchAt(p, i, s, j, start, f)
    ensures DivisionFrom(Parse(p, i, f), s, j, cuts, start, f)
    decreases |p| - i
  {
    if i == |p| {
      cuts := [j];
    } else {
      var (it, n) := ItemAt(p, i, f);
      var j' := j + 1;
      if it.Star? {
        j' :| j <= j' <= SegEnd(s, j, f) && MatchAt(p, n, s, j', false, f);
      }
      PieceWithinSegment(s, j, j', f);
      var rest := MatchToDivision(p, n, s, j', it.Sep?, f);
      DivisionCons(it, Parse(p, n, f), s, j, rest, start, f);
      cuts := [j] + rest;
    }
  }

  /** The recursion decides exactly the existence of a division. */
  lemma MatchesIffMatchAt(p: string, s: string, f: Flags)
    ensures Matches(p, s, f) <==> MatchAt(p, 0, s, 0, true, f)
  {
    var items := Parse(p, 0, f);
    if Matches(p, s, f) {
      var cuts :| Division(items, s, cuts, f);
      assert PeriodRule(items, 0, s, cuts[0], f);
      DivisionToMatch(p, 0, s, 0, cuts, true, f);
    }
    if MatchAt(p, 0, s, 0, true, f) {
      var cuts := MatchToDivision(p, 0, s, 0, true, f);
      forall k | 0 <= k <= |items| ensures PeriodRule(items, k, s, cuts[k], f) {
      }
      assert Division(items, s, cuts, f);
    }
  }

  // ---- Stars ----

  /** A `*` standing at `i` matches from every earlier place of the segment too. */
  lemma StarReachesBack(p: string, i: nat, s: string, j: nat, k: nat, f: Flags)
    requires i < |p| && p[i] == '*'
    requires j <= |s| && j <= k <= SegEnd(s, j, f)
    requires MatchAt(p, i, s, k, false, f)
    ensures MatchAt(p, i, s, j, false, f)
  {
    SegEndWithin(s, j, k, f);
  }

  /** Either the items match right here or one place further on. */
  lemma StarUnfold(p: string, i: nat, s: string, j: nat, f: Flags)
    requires i <= |p| && j <= |s|
    ensures StarAt(p, i, s, j, f) <==>
            MatchAt(p, i, s, j, false, f) || (j < SegEnd(s, j, f) && StarAt(p, i, s, j + 1, f))
  {
    if j < SegEnd(s, j, f) { SegEndWithin(s, j, j + 1, f); }
  }

  /** Several `*` in a row are as good as one. */
  lemma StarStar(p: string, i: nat, s: string, j: nat, f: Flags)
    requires i < |p| && p[i] == '*' && j <= |s|
    ensures StarAt(p, i, s, j, f) <==> StarAt(p, i + 1, s, j, f)
    ensures MatchAt(p, i, s, j, false, f) <==> StarAt(p, i + 1, s, j, f)
  {
    if StarAt(p, i, s, j, f) {
      var k :| j <= k <= SegEnd(s, j, f) && MatchAt(p, i, s, k, false, f);
      StarReachesBack(p, i, s, j, k, f);
    }
    if StarAt(p, i + 1, s, j, f) { assert MatchAt(p, i, s, j, false, f); }
  }

  /** `*` and `?` may change places. */
  lemma StarAny(p: string, i: nat, s: string, j: nat, f: Flags)
    requires i < |p| && p[i] == '?' && j <= |s|
    ensures StarAt(p, i, s, j, f) <==> j < SegEnd(s, j, f) && StarAt(p, i + 1, s, j + 1, f)
  {
    var e := SegEnd(s, j, f);
    forall k | j <= k <= e
      ensures MatchAt(p, i, s, k, false, f) <==> k < e && MatchAt(p, i + 1, s, k + 1, false, f)
    {
      SegEndWithin(s, j, k, f);
    }
    if j < e {
      SegEndWithin(s, j, j + 1, f);
      if StarAt(p, i + 1, s, j + 1, f) {
        var k :| j + 1 <= k <= e && MatchAt(p, i + 1, s, k, false, f);
        assert MatchAt(p, i, s, k - 1, false, f);
      }
    }
  }

  // ---- Runs of one-character items ----

  /** The `t` items from `i` all stand for one character and end at `i'`. */
  predicate RunTo(p: string, i: nat, t: nat, i': nat, f: Flags)
    requires i <= |p|
    decreases t
  {
    if t == 0 then i == i'
    else i < |p| && ItemAt(p, i, f).0.Single() && RunTo(p, ItemAt(p, i, f).1, t - 1, i', f)
  }

  /** The `t` one-character items from `i` accept the `t` characters from `j`. */
  predicate RunAccepts(p: string, i: nat, t: nat, s: string, j: nat, f: Flags)
    requires i <= |p|
    decreases t
  {
    t > 0 ==>
      && i < |p| && j < |s| && ItemAt(p, i, f).0.Single() && Accepts(ItemAt(p, i, f).0, s[j], f)
      && RunAccepts(p, ItemAt(p, i, f).1, t - 1, s, j + 1, f)
  }

  /** Where a run from `i` on stops: at a `*`, a separator or the end of the pattern. */
  function RunStop(p: string, i: nat, f: Flags): (n: nat)
    requires i <= |p|
    ensures i <= n <= |p| && (n == |p| || p[n] == '*' || SepAt(p, n, f))
    decreases |p| - i
  {
    if i == |p| || p[i] == '*' || SepAt(p, i, f) then i else RunStop(p, ItemAt(p, i, f).1, f)
  }

  lemma {:induction false} RunExtend(p: string, i: nat, t: nat, i': nat, f: Flags)
    requires i <= |p| && RunTo(p, i, t, i', f) && i' < |p| && ItemAt(p, i', f).0.Single()
    ensures RunTo(p, i, t + 1, ItemAt(p, i', f).1, f)
    decreases t
  {
    if t > 0 { RunExtend(p, ItemAt(p, i, f).1, t - 1, i', f); }
  }

  lemma {:induction false} RunBounds(p: string, i: nat, t: nat, i': nat, f: Flags)
    requires i <= |p| && RunTo(p, i, t, i', f)
    ensures i + t <= i' <= |p|
    decreases t
  {
    if t > 0 { RunBounds(p, ItemAt(p, i, f).1, t - 1, i', f); }
  }

  lemma {:induction false} RunAcceptsExtend(p: string, i: nat, t: nat, i': nat, s: string, j: nat, f: Flags)
    requires i <= |p| && RunTo(p, i, t, i', f) && i' < |p| && ItemAt(p, i', f).0.Single()
    requires RunAccepts(p, i, t, s, j, f) && j + t < |s|
    ensures RunAccepts(p, i, t + 1, s, j, f) <==> Accepts(ItemAt(p, i', f).0, s[j + t], f)
    decreases t
  {
    if t > 0 { RunAcceptsExtend(p, ItemAt(p, i, f).1, t - 1, i', s, j + 1, f); }
  }

  /** The number of one-character items up to a place is determined by the place. */
  lemma {:induction false} RunUnique(p: string, i: nat, t: nat, u: nat, i': nat, i'': nat, f: Flags)
    requires i <= |p| && RunTo(p, i, t, i', f) && RunTo(p, i, u, i'', f)
    ensures t == u ==> i' == i''
    ensures t < u ==> i' < |p| && ItemAt(p, i', f).0.Single()
    decreases t
  {
    if t > 0 && u > 0 { RunUnique(p, ItemAt(p, i, f).1, t - 1, u - 1, i', i'', f); }
  }

  /** A run takes exactly as many characters as it has items. */
  lemma {:induction false} RunMatch(p: string, i: nat, t: nat, i': nat, s: string, j: nat, f: Flags)
    requires i <= |p| && RunTo(p, i, t, i', f) && i' <= |p| && j <= |s|
    ensures MatchAt(p, i, s, j, false, f) <==>
            j + t <= SegEnd(s, j, f) && RunAccepts(p, i, t, s, j, f) && MatchAt(p, i', s, j + t, false, f)
    decreases t
  {
    if t > 0 && j < SegEnd(s, j, f) {
      SegEndWithin(s, j, j + 1, f);
      RunMatch(p, ItemAt(p, i, f).1, t - 1, i', s, j + 1, f);
    }
  }

  // ---- Why restarting only at the latest star is enough ----

  /** Once a run between two stars has matched somewhere, later places need not be tried. */
  lemma FirstFitIsEnough(p: string, i: nat, t: nat, i': nat, s: string, j: nat, f: Flags)
    requires i <= |p| && RunTo(p, i, t, i', f) && i' < |p| && p[i'] == '*'
    requires j + t <= |s| && j + t <= SegEnd(s, j, f) && RunAccepts(p, i, t, s, j, f)
    ensures StarAt(p, i, s, j, f) <==> MatchAt(p, i', s, j + t, false, f)
  {
    RunMatch(p, i, t, i', s, j, f);
    var e := SegEnd(s, j, f);
    if StarAt(p, i, s, j, f) {
      var k :| j <= k <= e && MatchAt(p, i, s, k, false, f);
      SegEndWithin(s, j, k, f);
      RunMatch(p, i, t, i', s, k, f);
      SegEndWithin(s, j, j + t, f);
      StarReachesBack(p, i', s, j + t, k + t, f);
    }
  }

  /** A run that closes the pattern segment can only match the tail of the string segment. */
  lemma LastRunIsTail(p: string, i: nat, t: nat, i': nat, s: string, j: nat, f: Flags)
    requires i <= |p| && RunTo(p, i, t, i', f) && i' <= |p| && (i' == |p| || SepAt(p, i', f))
    requires j <= |s|
    ensures var e := SegEnd(s, j, f);
            StarAt(p, i, s, j, f) <==> j + t <= e && MatchAt(p, i, s, e - t, false, f)
  {
    var e := SegEnd(s, j, f);
    forall k | j <= k <= e && MatchAt(p, i, s, k, false, f) ensures k + t == e {
      SegEndWithin(s, j, k, f);
      RunMatch(p, i, t, i', s, k, f);
      assert MatchAt(p, i', s, k + t, false, f);
    }
  }

  /** Too few characters for the run: no place matches. */
  lemma RunTooLong(p: string, i: nat, t: nat, i': nat, s: string, j: nat, f: Flags)
    requires i <= |p| && RunTo(p, i, t, i', f) && i' <= |p|
    requires j <= |s| && j + t > SegEnd(s, j, f)
    ensures !StarAt(p, i, s, j, f)
  {
    forall k | j <= k <= SegEnd(s, j, f) ensures !MatchAt(p, i, s, k, false, f) {
      SegEndWithin(s, j, k, f);
      RunMatch(p, i, t, i', s, k, f);
    }
  }
}
