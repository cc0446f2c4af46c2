/** `fnmatch_ch` and `apr_fnmatch` (strings/apr_fnmatch.c). */
module Fnmatch {
  import opened Apr
  import opened GlobSyntax
  import opened GlobMatch
  import opened GlobCost

  // Pointers into the pattern and the string are indices; the loops of `apr_fnmatch`
  // are methods of their own so that each carries its own contract. Two counts run
  // along: `calls` of `fnmatch_ch` that compare the string, and `tests` of a character
  // by all calls, those that only count the pattern included.

  /** Reads one character or range of a bracket expression and looks `c` up in it. */
  method ElementCh(p: string, a: nat, c: char, f: Flags) returns (ok: bool, hit: bool, i: nat, ghost tests: nat)
    requires a < |p|
    ensures ok <==> RangeAt(p, a, f).Some?
    ensures ok ==> i == RangeAt(p, a, f).value.1 && hit == InRange(c, RangeAt(p, a, f).value.0, f)
    ensures tests == if ok then 1 else 0
  {
    i, hit := a, false;
    if At(p, i + 1) == '-' && At(p, i + 2) != ']' {
      var startch := p[i];
      i := if f.Escape() && At(p, i + 2) == '\\' then i + 3 else i + 2;
      if i >= |p| || (f.pathname && p[i] == '/') { return false, hit, i, 0; }
      if startch <= c <= p[i] {
        hit := true;
      } else if f.caseBlind && (IsUpper(c) || IsUpper(startch) || IsUpper(p[i]))
                && ToLower(startch) <= ToLower(c) <= ToLower(p[i]) {
        hit := true;
      }
    } else {
      if c == p[i] {
        hit := true;
      } else if f.caseBlind && (IsUpper(c) || IsUpper(p[i])) && ToLower(c) == ToLower(p[i]) {
        hit := true;
      }
    }
    return true, hit, i + 1, 1;
  }

  /** Reads the bracket expression opening at `i0` and looks `c` up in it on the
      way; a malformed one is left for the caller to rewind. */
  method BracketCh(p: string, i0: nat, c: char, f: Flags)
    returns (closed: bool, match_: bool, i: nat, ghost tests: nat)
    requires i0 < |p| && p[i0] == '['
    ensures closed <==> BracketAt(p, i0, f).Some?
    ensures closed ==> i == BracketAt(p, i0, f).value.1
    ensures closed ==> match_ == (InUnion(c, BracketAt(p, i0, f).value.0, f) != (BodyStart(p, i0) == i0 + 2))
    ensures tests == BracketTests(p, i0, f)
  {
    i := i0 + 1;
    var negate := At(p, i) == '!' || At(p, i) == '^';
    if negate { i := i + 1; }
    var leading := At(p, i) == ']';
    match_, tests, closed := false, 0, false;
    ghost var body := BracketAt(p, i0, f);
    Opening(p, i0, f);
    StartPending(body, c, f);
    ListStep(p, |p|, f);
    hide InUnion, Ahead, AheadTests, BracketAt, BracketTests, BodyStart, Pending;
    while leading || i < |p|
      invariant i0 < i <= |p| && (leading ==> i < |p| && p[i] == ']')
      invariant Pending(body, match_, Ahead(p, i, leading, f), c, f)
      invariant tests + AheadTests(p, i, leading, f) == BracketTests(p, i0, f)
      decreases |p| - i
    {
      ghost var rest := Ahead(p, i, leading, f);
      var ok, hit, n, one := NextCh(p, i, leading, c, f, body, match_);
      Decided(body, match_, rest, c, f);
      if !leading && p[i] == ']' {
        return true, match_ != negate, i + 1, tests;
      }
      if !ok { return; }
      match_, tests := match_ || hit, tests + one;
      i := n;
      leading := false;
    }
    Decided(body, match_, Ahead(p, i, leading, f), c, f);
  }

  /** One turn of that loop: unless the list ends here, reads an escape and the element
      behind it. `leading` is the jump to the label leadingclosebrace. */
  method NextCh(p: string, i0: nat, leading: bool, c: char, f: Flags, ghost body: RangeList, ghost seen: bool)
    returns (ok: bool, hit: bool, i: nat, ghost tests: nat)
    requires i0 < |p| && Pending(body, seen, Ahead(p, i0, leading, f), c, f)
    ensures !ok ==>
              AheadTests(p, i0, leading, f) == 0
              && Ahead(p, i0, leading, f) == if !leading && p[i0] == ']' then Some(([], i0 + 1)) else None
    ensures ok ==> (leading || p[i0] != ']') && i0 < i <= |p| && Pending(body, seen || hit, Ahead(p, i, false, f), c, f)
    ensures ok ==> AheadTests(p, i0, leading, f) == tests + AheadTests(p, i, false, f)
  {
    hide InUnion, InRange, RangeAt, Ahead, AheadTests, Pending;
    i := i0;
    if !leading {
      ListStep(p, i, f);
      if p[i] == ']' { return false, false, i, 0; }
      if f.Escape() && p[i] == '\\' {
        i := i + 1;
        if i == |p| { return false, false, i, 0; }
      }
      if f.pathname && p[i] == '/' { return false, false, i, 0; }
    }
    ElementStep(p, i, body, seen, c, f);
    ok, hit, i, tests := ElementCh(p, i, c, f);
  }

  /** The ranges a bracket still has at `i`, and the tests still to come. */
  function Ahead(p: string, i: nat, leading: bool, f: Flags): RangeList
    requires i <= |p| && (leading ==> i < |p|)
  {
    if leading then Prepend(p, RangeAt(p, i, f), f) else Elements(p, i, f)
  }

  function AheadTests(p: string, i: nat, leading: bool, f: Flags): nat
    requires i <= |p| && (leading ==> i < |p|)
  {
    if leading then ElementTests(p, i, f) else ListTests(p, i, f)
  }

  /** What stands at `i` in a list. */
  lemma ListStep(p: string, i: nat, f: Flags)
    requires i <= |p|
    ensures var rest, tests := Ahead(p, i, false, f), AheadTests(p, i, false, f);
            if i == |p| then rest == None && tests == 0
            else if p[i] == ']' then rest == Some(([], i + 1)) && tests == 0
            else
              var a := if f.Escape() && p[i] == '\\' then i + 1 else i;
              if a == |p| || (f.pathname && p[a] == '/') then rest == None && tests == 0
              else rest == Ahead(p, a, true, f) && tests == AheadTests(p, a, true, f)
  {
  }

  lemma Opening(p: string, i: nat, f: Flags)
    requires i < |p| && p[i] == '['
    ensures var k := BodyStart(p, i);
            && k == (if At(p, i + 1) == '!' || At(p, i + 1) == '^' then i + 2 else i + 1) <= |p|
            && BracketAt(p, i, f) == Ahead(p, k, At(p, k) == ']', f)
            && BracketTests(p, i, f) == AheadTests(p, k, At(p, k) == ']', f)
  {
  }

  lemma StartPending(body: RangeList, c: char, f: Flags)
    ensures Pending(body, false, body, c, f)
  {
  }

  /** At the end of the list what was read decides. */
  lemma Decided(body: RangeList, seen: bool, rest: RangeList, c: char, f: Flags)
    requires Pending(body, seen, rest, c, f)
    ensures rest == None ==> body == None
    ensures rest.Some? && rest.value.0 == [] ==> body.Some? && body.value.1 == rest.value.1
                                                 && InUnion(c, body.value.0, f) == seen
  {
  }

  /** What reading the element at `a` leaves. */
  lemma ElementStep(p: string, a: nat, body: RangeList, seen: bool, c: char, f: Flags)
    requires a < |p| && Pending(body, seen, Ahead(p, a, true, f), c, f)
    ensures var r := RangeAt(p, a, f);
            if r.None? then Ahead(p, a, true, f) == None && AheadTests(p, a, true, f) == 0
            else
              && Pending(body, seen || InRange(c, r.value.0, f), Ahead(p, r.value.1, false, f), c, f)
              && AheadTests(p, a, true, f) == 1 + AheadTests(p, r.value.1, false, f)
  {
    hide RangeAt, InRange, InUnion, Elements, ListTests;
    UnionPrepend(p, a, c, f);
  }

  /** `rest` is still to be read of the bracket `body`, and `seen` says whether
      what was read holds `c`. */
  predicate Pending(body: RangeList, seen: bool, rest: RangeList, c: char, f: Flags) {
    && body.Some? == rest.Some?
    && (body.Some? ==> body.value.1 == rest.value.1
                       && InUnion(c, body.value.0, f) == (seen || InUnion(c, rest.value.0, f)))
  }

  /** Compares one item of the pattern, not a `*`, with one character of the
      string and moves both indices over what was compared. The number of tests is the
      same for every character. */
  method FnmatchCh(p: string, i0: nat, s: string, j0: nat, f: Flags)
    returns (match_: bool, i: nat, j: nat, ghost tests: nat)
    requires i0 <= |p| && j0 <= |s|
    // An item and an ordinary character: the item decides, both indices advance.
    ensures i0 < |p| && j0 < |s| && !(f.pathname && s[j0] == '/') && ItemAt(p, i0, f).0.Single() ==>
              match_ == Accepts(ItemAt(p, i0, f).0, s[j0], f) && i == ItemAt(p, i0, f).1 && j == j0 + 1
    // A well-formed bracket decides even on the terminator or a slash.
    ensures i0 < |p| && p[i0] == '[' && BracketAt(p, i0, f).Some? ==>
              && match_ == (InUnion(At(s, j0), BracketAt(p, i0, f).value.0, f) != (BodyStart(p, i0) == i0 + 2))
              && i == BracketAt(p, i0, f).value.1 && j == j0 + 1
    // Anything else never moves past the terminator, nor past a slash under APR_FNM_PATHNAME.
    ensures (j0 == |s| || (f.pathname && s[j0] == '/')) && !(i0 < |p| && p[i0] == '[' && BracketAt(p, i0, f).Some?) ==>
              && j == j0 && (i == i0 || (i == i0 + 1 <= |p| && p[i0] == '\\'))
              && match_ == (At(p, i0) != '?' && SameChar(At(s, j0), At(p, i), f))
    // An escaped slash is left at the slash, where no other character matches; a `*` is an ordinary character here.
    ensures SepAt(p, i0, f) && j0 < |s| && s[j0] != '/' ==> !match_ && j == j0 && i < |p| && p[i] == '/'
    ensures i0 < |p| && p[i0] == '*' && j0 < |s| && !(f.pathname && s[j0] == '/') ==>
              match_ == SameChar(s[j0], '*', f) && i == i0 + 1 && j == j0 + 1
    ensures i0 == |p| ==> i == i0 && j == j0 && match_ == SameChar(At(s, j0), '\0', f)
    ensures i <= |p| && tests == if i0 < |p| then ItemTests(p, i0, f) else 1
  {
    i, j, tests := i0, j0, 1;
    hide BracketTests;
    var result := false;
    var c := At(s, j);
    if At(p, i) == '[' {
      var closed, inside, n, many := BracketCh(p, i, c, f);
      if closed { return inside, n, j + 1, many; }
      tests := many + 1;
    } else if At(p, i) == '?' {
      if j == |s| || (f.pathname && s[j] == '/') {
        return false, i, j, tests;
      }
      return true, i + 1, j + 1, tests;
    } else if f.Escape() && At(p, i) == '\\' && i + 1 < |p| {
      i := i + 1;
    }
    if c == At(p, i) {
      result := true;
    } else if f.caseBlind && (IsUpper(c) || IsUpper(At(p, i))) && ToLower(c) == ToLower(At(p, i)) {
      result := true;
    }
    if j == |s| || i == |p| || (f.pathname && (s[j] == '/' || p[i] == '/')) {
      return result, i, j, tests;
    }
    return result, i + 1, j + 1, tests;
  }

  /** The union of a bracket's ranges is its first range or one of the others. */
  lemma UnionPrepend(p: string, a: nat, c: char, f: Flags)
    requires a < |p|
    ensures var r := RangeAt(p, a, f);
            var all := Prepend(p, r, f);
            all.Some? ==> InUnion(c, all.value.0, f)
                          == (InRange(c, r.value.0, f) || InUnion(c, Elements(p, r.value.1, f).value.0, f))
  {
    var r := RangeAt(p, a, f);
    var all := Prepend(p, r, f);
    if all.Some? {
      var rest := Elements(p, r.value.1, f).value.0;
      assert all.value.0[0] == r.value.0;
      assert forall k | 0 <= k < |rest| :: all.value.0[k + 1] == rest[k];
      if InUnion(c, rest, f) {
        var k :| 0 <= k < |rest| && InRange(c, rest[k], f);
        assert InRange(c, all.value.0[k + 1], f);
      }
    }
  }

  /** Counts the items ahead of `i` up to the next `*` or the end of the pattern
      segment, which `last` tells apart. */
  method CountFixed(p: string, i: nat, f: Flags) returns (len: nat, last: bool, ghost tests: nat)
    requires i <= |p|
    ensures RunTo(p, i, len, RunStop(p, i, f), f) && len == RunLength(p, i, f)
    ensures last <==> RunStop(p, i, f) == |p| || SepAt(p, RunStop(p, i, f), f)
    ensures tests == CountTests(p, i, f)
  {
    hide ItemTests, BracketAt;
    var m := i;
    len, tests := 0, 0;
    while true
      invariant i <= m <= |p| && RunTo(p, i, len, m, f) && RunStop(p, m, f) == RunStop(p, i, f)
      invariant len + RunLength(p, m, f) == RunLength(p, i, f) && tests + CountTests(p, m, f) == CountTests(p, i, f)
      decreases |p| - m
    {
      if m == |p| || SepAt(p, m, f) { return len, true, tests; }
      if p[m] == '*' { return len, false, tests; }
      RunExtend(p, i, len, m, f);
      if f.Escape() && p[m] == '\\' && m + 1 < |p| {
        m := m + 2;
      } else if p[m] == '[' {
        var _, n, _, dummy := FnmatchCh(p, m, " ", 0, f);
        m, tests := n, tests + dummy;
      } else {
        m := m + 1;
      }
      len := len + 1;
    }
  }

  /** The items from `i` match from `j`, at any later place when a `*` is pending. */
  ghost predicate RestAt(p: string, i: nat, s: string, j: nat, wild: bool, f: Flags)
    requires i <= |p| && j <= |s|
  {
    if wild then StarAt(p, i, s, j, f) else MatchAt(p, i, s, j, false, f)
  }

  /** Skips a group of `*` and `?`: one character per `?`, then `wild` if there was a `*`. */
  method SkipWild(p: string, i0: nat, s: string, j0: nat, e: nat, f: Flags)
    returns (ok: bool, wild: bool, i: nat, j: nat)
    requires i0 <= |p| && j0 <= |s| && e == SegEnd(s, j0, f)
    ensures !ok ==> !MatchAt(p, i0, s, j0, false, f)
    ensures i0 <= i <= |p| && j0 <= j <= e
    ensures ok ==> (MatchAt(p, i0, s, j0, false, f) <==> RestAt(p, i, s, j, wild, f))
    ensures ok ==> i == |p| || (p[i] != '*' && p[i] != '?')
    ensures ok && i0 < |p| && p[i0] == '*' ==> wild
    ensures ok && i == i0 ==> j == j0 && !wild
    ensures i0 < |p| && p[i0] == '*' && (i0 + 1 < |p| ==> p[i0 + 1] != '*' && p[i0 + 1] != '?') ==>
              ok && wild && i == i0 + 1 && j == j0
    ensures WellFormed(p, i0, f) ==> WellFormed(p, i, f)
  {
    ok, wild, i, j := true, false, i0, j0;
    while i < |p| && (p[i] == '*' || p[i] == '?')
      invariant i0 <= i <= |p| && j0 <= j <= e
      invariant MatchAt(p, i0, s, j0, false, f) <==> RestAt(p, i, s, j, wild, f)
      invariant i0 < i && p[i0] == '*' ==> wild
      invariant i == i0 ==> j == j0 && !wild
      invariant At(p, i0) == '*' && (i0 + 1 < |p| ==> p[i0 + 1] != '*' && p[i0 + 1] != '?') ==> j == j0 && i <= i0 + 1
      invariant WellFormed(p, i0, f) ==> WellFormed(p, i, f)
      decreases |p| - i
    {
      SegEndWithin(s, j0, j, f);
      if p[i] == '*' {
        StarStar(p, i, s, j, f);
        wild := true;
      } else {
        StarAny(p, i, s, j, f);
        if j < e {
          SegEndWithin(s, j, j + 1, f);
          j := j + 1;
        } else {
          return false, wild, i, j;
        }
      }
      i := i + 1;
    }
  }

  /** Matches the pattern with the string until one of the two segments is used
      up. Each character of the pattern pays for its share of the calls and tests. */
  method MatchSegment(p: string, i0: nat, s: string, j0: nat, e: nat, f: Flags, ghost w: nat)
    returns (ok: bool, i: nat, j: nat, ghost calls: nat, ghost tests: nat)
    requires i0 <= |p| && j0 <= |s| && e == SegEnd(s, j0, f) && Rated(p, i0, f, w)
    ensures !ok ==> !MatchAt(p, i0, s, j0, false, f)
    ensures i0 <= i <= |p| && j0 <= j <= e
    ensures ok ==> (MatchAt(p, i0, s, j0, false, f) <==> MatchAt(p, i, s, j, false, f)) && Rated(p, i, f, w)
    ensures ok ==> i == |p| || SepAt(p, i, f) || (j == e && p[i] != '*')
    ensures calls <= Rate(|s| + 1, (if ok then i else |p|) - i0)
    ensures tests <= Rate(Rate(w, |s| + 2), (if ok then i else |p|) - i0)
    ensures tests >= FirstTests(p, i0, s, j0, f)
  {
    hide MatchAt, StarAt, SegEnd, ItemAt, WellFormed, RunAndCountTests, Rate, RunTo;
    i, j, ok, calls, tests := i0, j0, true, 0, 0;
    ghost var n, m := |s| + 1, Rate(w, |s| + 2);
    RateOne(n, 0);
    RateOne(m, 0);
    while i < |p|
      invariant i0 <= i <= |p| && j0 <= j <= e && (i == i0 ==> j == j0) && Rated(p, i, f, w)
      invariant MatchAt(p, i0, s, j0, false, f) <==> MatchAt(p, i, s, j, false, f)
      invariant calls <= Rate(n, i - i0) && tests <= Rate(m, i - i0)
      invariant i > i0 ==> tests >= FirstTests(p, i0, s, j0, f)
      decreases |p| - i
    {
      if (j == e && p[i] != '*') || SepAt(p, i, f) { break; }
      SegEndWithin(s, j0, j, f);
      var ok', wild, i', j' := SkipWild(p, i, s, j, e, f);
      if !ok' {
        RateGrows(n, n, i - i0, |p| - i0);
        RateGrows(m, m, i - i0, |p| - i0);
        return false, i, j, calls, tests;
      }
      SegEndWithin(s, j0, j', f);
      ghost var more, many;
      ghost var from := i';
      ok, i', j', more, many := MatchRest(p, i', s, j', e, wild, f, w);
      ghost var k := if ok then i' else |p|;
      Paid(n, calls, i - i0, more, from - i0, k - i0);
      Paid(m, tests, i - i0, many, from - i0, k - i0);
      i, j, calls, tests := i', j', calls + more, tests + many;
      if !ok { return; }
    }
  }

  lemma Paid(n: nat, spent: nat, a: nat, more: nat, from: nat, to: nat)
    requires a <= from <= to && spent <= Rate(n, a) && more <= Rate(n, to - from)
    ensures spent + more <= Rate(n, to)
  {
    RateAdd(n, from, to - from);
    RateGrows(n, n, a, from);
  }

  /** What follows a group of `*` and `?`: counts the run ahead when a `*` is pending, and
      compares it. */
  method MatchRest(p: string, i0: nat, s: string, j0: nat, e: nat, wild: bool, f: Flags, ghost w: nat)
    returns (ok: bool, i: nat, j: nat, ghost calls: nat, ghost tests: nat)
    requires i0 <= |p| && j0 <= |s| && e == SegEnd(s, j0, f) && Rated(p, i0, f, w)
    ensures !ok ==> !RestAt(p, i0, s, j0, wild, f)
    ensures i0 <= i <= |p| && j0 <= j <= e
    ensures ok ==> (RestAt(p, i0, s, j0, wild, f) <==> MatchAt(p, i, s, j, false, f)) && Rated(p, i, f, w)
    ensures ok && !wild && i0 < |p| && j0 < e && p[i0] != '*' && !SepAt(p, i0, f) ==> i0 < i
    ensures calls <= Rate(|s| + 1, (if ok then i else |p|) - i0)
    ensures tests <= Rate(Rate(w, |s| + 2), (if ok then i else |p|) - i0)
    ensures wild ==> tests >= RunAndCountTests(p, i0, s, j0, f)
  {
    hide MatchAt, StarAt, SegEnd, ItemAt, WellFormed, RunTo, Rate, RunAccepts, CountTests, SearchTests, SepAt;
    if !wild {
      ok, i, j, calls, tests := MatchFixed(p, i0, s, j0, e, f, w);
      FixedPays(w, |s| + 1, (if ok then i else |p|) - i0, calls, 0, tests);
      return;
    }
    var len, last, many := CountFixed(p, i0, f);
    ghost var end := RunStop(p, i0, f);
    CountBound(p, i0, f, w);
    RateGrows(w, Rate(w, |s| + 2), end - i0, |p| - i0) by { RateOne(w, 0); RateGrows(w, w, 1, |s| + 2); }
    if j0 + len > e {
      RunTooLong(p, i0, len, end, s, j0, f);
      RateOne(|s| + 1, 0);
      RateGrows(|s| + 1, |s| + 1, 0, |p| - i0);
      return false, i0, j0, 0, many;
    }
    if last {
      LastRunIsTail(p, i0, len, end, s, j0, f);
      SegEndWithin(s, j0, e - len, f);
      ok, i, j, calls, tests := MatchFixed(p, i0, s, e - len, e, f, w);
      if ok { SameStop(p, i0, j - (e - len), i, len, end, j, e, f); }
      FixedPays(w, |s| + 1, (if ok then i else |p|) - i0, calls, end - i0, tests);
      tests := tests + many;
    } else {
      ok, i, j, calls, tests := FindRun(p, i0, s, j0, e, len, end, f);
      RunBounds(p, i0, len, end, f);
      SearchBound(p, i0, len, end, s, j0, e, f, w);
      SearchPays(w, |s| + 1, end - i0, |p| - i0, e - len - j0 + 1, calls, len, many, tests);
      StopKeeps(p, i0, f);
      tests := tests + many;
    }
  }

  /** A run compared in place ends where it was counted to end. */
  lemma SameStop(p: string, i0: nat, u: nat, i: nat, len: nat, end: nat, j: nat, e: nat, f: Flags)
    requires i0 <= |p| && RunTo(p, i0, u, i, f) && RunTo(p, i0, len, end, f) && i <= |p|
    requires u <= len && (u == len || i == |p| || p[i] == '*' || SepAt(p, i, f))
    ensures i == end
  {
    RunUnique(p, i0, u, len, i, end, f);
  }

  lemma {:induction false} StopKeeps(p: string, i: nat, f: Flags)
    requires i <= |p|
    ensures WellFormed(p, i, f) ==> WellFormed(p, RunStop(p, i, f), f)
    decreases |p| - i
  {
    hide Opens, ItemAt;
    if i < |p| && p[i] != '*' && !SepAt(p, i, f) { StopKeeps(p, ItemAt(p, i, f).1, f); }
  }

  /** Calls and tests of a comparison in place that took `taken` characters of the pattern,
      after a count over `width` of them. */
  lemma FixedPays(w: nat, n: nat, taken: nat, calls: nat, width: nat, tests: nat)
    requires w >= 1 && n >= 1 && width <= taken && calls <= taken && tests <= Rate(w, taken)
    ensures calls <= Rate(n, taken) && Rate(w, width) + tests <= Rate(Rate(w, n + 1), taken)
  {
    CountPays(w, width, taken, n);
    RateOne(1, taken);
    RateGrows(1, n, taken, taken);
  }

  /** Calls and tests of a search for a run `width` characters long. */
  lemma SearchPays(w: nat, n: nat, width: nat, taken: nat, r: nat, calls: nat, len: nat, many: nat, tests: nat)
    requires r <= n && len <= width <= taken && many <= Rate(w, width)
    requires calls <= Rate(len, r) && tests <= Rate(Rate(w, width), r)
    ensures calls <= Rate(n, width) <= Rate(n, taken)
    ensures many + tests <= Rate(Rate(w, n + 1), width) <= Rate(Rate(w, n + 1), taken)
  {
    RunPays(w, width, r, n);
    RateGrows(len, width, r, n);
    assert Rate(width, n) == Rate(n, width);
    RateGrows(n, n, width, taken);
    RateGrows(Rate(w, n + 1), Rate(w, n + 1), width, taken);
  }

  /** The comparison loop when no `*` is pending: every item must match where it stands. */
  method MatchFixed(p: string, i0: nat, s: string, j0: nat, e: nat, f: Flags, ghost w: nat)
    returns (ok: bool, i: nat, j: nat, ghost calls: nat, ghost tests: nat)
    requires i0 <= |p| && j0 <= |s| && e == SegEnd(s, j0, f) && Rated(p, i0, f, w)
    ensures !ok ==> !MatchAt(p, i0, s, j0, false, f)
    ensures i0 <= i <= |p| && j0 <= j <= e
    ensures ok ==> (MatchAt(p, i0, s, j0, false, f) <==> MatchAt(p, i, s, j, false, f)) && Rated(p, i, f, w)
    ensures ok ==> RunTo(p, i0, j - j0, i, f) && (i == |p| || j == e || p[i] == '*' || SepAt(p, i, f))
    ensures ok && i0 < |p| && j0 < e && p[i0] != '*' && !SepAt(p, i0, f) ==> i0 < i
    ensures calls <= (if ok then i else |p|) - i0
    ensures tests <= Rate(w, (if ok then i else |p|) - i0)
  {
    hide ItemTests, WellFormed, Rate, Accepts, BracketAt;
    i, j, ok, calls, tests := i0, j0, true, 0, 0;
    RateOne(w, 0);
    while i < |p| && j < e
      invariant i0 <= i <= |p| && j0 <= j <= e && Rated(p, i, f, w)
      invariant MatchAt(p, i0, s, j0, false, f) <==> MatchAt(p, i, s, j, false, f)
      invariant RunTo(p, i0, j - j0, i, f)
      invariant i == i0 ==> j == j0
      invariant calls <= i - i0 && tests <= Rate(w, i - i0)
      decreases |p| - i
    {
      if p[i] == '*' || SepAt(p, i, f) || (f.pathname && s[j] == '/') { break; }
      SegEndWithin(s, j0, j, f);
      RatedItem(p, i, f, w);
      RunExtend(p, i0, j - j0, i, f);
      ghost var n := ItemAt(p, i, f).1;
      var hit, i', j', many := FnmatchCh(p, i, s, j, f);
      calls := calls + 1;
      Paid(w, tests, i - i0, many, i - i0, n - i0);
      tests := tests + many;
      if !hit {
        RateGrows(w, w, n - i0, |p| - i0);
        return false, i, j, calls, tests;
      }
      i, j := i', j';
    }
  }

  /** A run that breaks off after `t` items at `k` is to be looked for from `k + 1` on. */
  lemma Restart(p: string, i0: nat, t: nat, i: nat, s: string, k: nat, f: Flags)
    requires i0 <= |p| && RunTo(p, i0, t, i, f) && i < |p| && ItemAt(p, i, f).0.Single()
    requires k + t < |s| && k <= SegEnd(s, k, f) && RunAccepts(p, i0, t, s, k, f)
    requires !Accepts(ItemAt(p, i, f).0, s[k + t], f)
    ensures StarAt(p, i0, s, k, f) <==> k < SegEnd(s, k, f) && StarAt(p, i0, s, k + 1, f)
  {
    RunExtend(p, i0, t, i, f);
    RunAcceptsExtend(p, i0, t, i, s, k, f);
    RunMatch(p, i0, t + 1, ItemAt(p, i, f).1, s, k, f);
    StarUnfold(p, i0, s, k, f);
  }

  lemma EmptyRun(p: string, i: nat, s: string, j: nat, f: Flags)
    requires i <= |p|
    ensures RunTo(p, i, 0, i, f) && RunAccepts(p, i, 0, s, j, f)
  {
  }

  /** One more item of the run fits. */
  lemma Advance(p: string, i0: nat, t: nat, i: nat, s: string, k: nat, f: Flags)
    requires i0 <= |p| && RunTo(p, i0, t, i, f) && i < |p| && ItemAt(p, i, f).0.Single()
    requires k + t < |s| && RunAccepts(p, i0, t, s, k, f)
    requires Accepts(ItemAt(p, i, f).0, s[k + t], f)
    ensures RunTo(p, i0, t + 1, ItemAt(p, i, f).1, f) && RunAccepts(p, i0, t + 1, s, k, f)
  {
    RunExtend(p, i0, t, i, f);
    RunAcceptsExtend(p, i0, t, i, s, k, f);
  }

  /** The comparison loop after a `*`: tries the run of `len` items at `i0` at every
      place from `j0` on and stops at the first one that fits. */
  method FindRun(p: string, i0: nat, s: string, j0: nat, e: nat, len: nat, ghost end: nat, f: Flags)
    returns (ok: bool, i: nat, j: nat, ghost calls: nat, ghost tests: nat)
    requires i0 <= |p| && j0 <= |s| && e == SegEnd(s, j0, f)
    requires RunTo(p, i0, len, end, f) && end < |p| && p[end] == '*' && j0 + len <= e
    ensures !ok ==> !StarAt(p, i0, s, j0, f)
    ensures i0 <= i <= |p| && j0 <= j <= e
    ensures ok ==> i == end && j0 + len <= j && (StarAt(p, i0, s, j0, f) <==> MatchAt(p, i, s, j, false, f))
    ensures calls <= Rate(len, e - len - j0 + 1) && tests == SearchTests(p, i0, len, s, j0, e, f)
  {
    hide MatchAt, StarAt, RunTo, RunAccepts, ItemTests, RunTests, LaterTests, Rate, Accepts, BracketAt;
    i, j, ok, calls, tests := i0, j0, true, 0, 0;
    RunBounds(p, i0, len, end, f);
    var strstartseg := j0;
    EmptyRun(p, i0, s, j0, f);
    RateOne(len, 0);
    while i < |p| && j < e
      invariant i0 <= i <= |p| && j0 <= strstartseg && strstartseg + len <= e
      invariant strstartseg <= j <= strstartseg + len
      invariant RunTo(p, i0, j - strstartseg, i, f) && RunAccepts(p, i0, j - strstartseg, s, strstartseg, f)
      invariant StarAt(p, i0, s, j0, f) <==> StarAt(p, i0, s, strstartseg, f)
      invariant calls <= Rate(len, strstartseg - j0) + (j - strstartseg)
      invariant tests + RunTests(p, i, len - (j - strstartseg), s, j, f) + LaterTests(p, i0, len, s, strstartseg, e, f)
                == SearchTests(p, i0, len, s, j0, e, f)
      decreases e - strstartseg, |p| - i
    {
      RunUnique(p, i0, j - strstartseg, len, i, end, f);
      if p[i] == '*' || SepAt(p, i, f) || (f.pathname && s[j] == '/') { break; }
      OneCall(p, i0, j - strstartseg, i, len, s, strstartseg, e, f);
      var hit, i', j', many := FnmatchCh(p, i, s, j, f);
      calls, tests := calls + 1, tests + many;
      SegEndWithin(s, j0, strstartseg, f);
      if hit {
        Advance(p, i0, j - strstartseg, i, s, strstartseg, f);
        i, j := i', j';
      } else {
        Restart(p, i0, j - strstartseg, i, s, strstartseg, f);
        strstartseg := strstartseg + 1;
        RateAdd(len, strstartseg - 1 - j0, 1);
        RateOne(len, 0);
        if strstartseg + len > e {
          SegEndWithin(s, j0, strstartseg, f);
          RunTooLong(p, i0, len, end, s, strstartseg, f);
          return false, i, j, calls, tests;
        }
        i, j := i0, strstartseg;
        EmptyRun(p, i, s, j, f);
      }
    }
    RunUnique(p, i0, j - strstartseg, len, i, end, f);
    SegEndWithin(s, j0, strstartseg, f);
    FirstFitIsEnough(p, i0, len, end, s, strstartseg, f);
    NoMoreCalls(p, i0, i, len, s, strstartseg, e, f);
    RateAdd(len, strstartseg - j0, 1);
    RateOne(len, 0);
    RateGrows(len, len, strstartseg - j0 + 1, e - len - j0 + 1);
  }

  /** The check at the start of every segment: a leading period of the string
      wants a plain or escaped period of the pattern. */
  method LeadingPeriod(p: string, i0: nat, s: string, j0: nat, f: Flags) returns (ok: bool, i: nat, j: nat)
    requires i0 <= |p| && j0 <= |s|
    ensures !ok ==> !MatchAt(p, i0, s, j0, true, f)
    ensures ok ==> i0 <= i <= |p| && j0 <= j <= |s|
                   && (MatchAt(p, i0, s, j0, true, f) <==> MatchAt(p, i, s, j, false, f))
    ensures ok && i == i0 ==> j == j0
    ensures !ok || i != i0 ==> f.period
    ensures ok && WellFormed(p, i0, f) ==> WellFormed(p, i, f)
  {
    i, j := i0, j0;
    if f.period && At(s, j) == '.' {
      if At(p, i) == '.' {
        i := i + 1;
      } else if f.Escape() && At(p, i) == '\\' && At(p, i + 1) == '.' {
        i := i + 2;
      } else {
        return false, i, j;
      }
      j := j + 1;
    }
    return true, i, j;
  }

  /** Where both sides stand at a slash the next segments begin; otherwise at most
      the backslash of an escaped slash is passed. */
  method NextSegment(p: string, i0: nat, s: string, j0: nat, ghost start: bool, f: Flags) returns (i: nat, j: nat)
    requires i0 < |p| && j0 < |s|
    requires !start ==> SepAt(p, i0, f) && f.pathname && s[j0] == '/'
    ensures i0 <= i <= |p| && j0 <= j <= |s| && (!start ==> i0 < i)
    ensures MatchAt(p, i0, s, j0, start, f) <==> MatchAt(p, i, s, j, true, f)
    ensures WellFormed(p, i0, f) ==> WellFormed(p, i, f)
  {
    i, j := i0, j0;
    if f.pathname && f.Escape() && p[i] == '\\' && At(p, i + 1) == '/' {
      i := i + 1;
    }
    if f.pathname && p[i] == '/' && s[j] == '/' {
      i, j := i + 1, j + 1;
    }
  }

  /** The whole of `apr_fnmatch`: true stands for its result 0. One call for each pair of
      places at most; so few tests, too, when every `[` opens a bracket; in general each
      call may go through the rest of the pattern. */
  method AprFnmatch(p: string, s: string, f: Flags) returns (ok: bool, ghost calls: nat, ghost tests: nat)
    ensures ok <==> Matches(p, s, f)
    ensures calls <= |p| * (|s| + 1)
    ensures tests <= |p| * |p| * (|s| + 2)
    ensures WellFormed(p, 0, f) ==> tests <= |p| * (|s| + 2)
    ensures !f.period ==> tests >= FirstTests(p, 0, s, 0, f)
  {
    MatchesIffMatchAt(p, s, f);
    ghost var w := if WellFormed(p, 0, f) || p == "" then 1 else |p|;
    ok, calls, tests := MatchFrom(p, s, f, w);
    Totals(|p|, |s|, w);
  }

  lemma Totals(m: nat, n: nat, w: nat)
    requires w == 1 || w == m
    ensures Rate(n + 1, m) == m * (n + 1) && Rate(Rate(w, n + 2), m) <= m * m * (n + 2)
    ensures w == 1 ==> Rate(Rate(w, n + 2), m) == m * (n + 2)
  {
    assert Rate(Rate(w, n + 2), m) == m * w * (n + 2);
    if w == 1 { assert m * (m - 1) >= 0; assert m * (m - 1) * (n + 2) >= 0; }
  }

  /** The loop over the segments. */
  method MatchFrom(p: string, s: string, f: Flags, ghost w: nat)
    returns (ok: bool, ghost calls: nat, ghost tests: nat)
    requires Rated(p, 0, f, w)
    ensures ok <==> MatchAt(p, 0, s, 0, true, f)
    ensures calls <= Rate(|s| + 1, |p|) && tests <= Rate(Rate(w, |s| + 2), |p|)
    ensures !f.period ==> tests >= FirstTests(p, 0, s, 0, f)
  {
    hide Rate, FirstTests, WellFormed, Rated;
    var i: nat, j: nat := 0, 0;
    ghost var n, m := |s| + 1, Rate(w, |s| + 2);
    calls, tests := 0, 0;
    RateOne(n, 0);
    RateOne(m, 0);
    NoFirst(p, s, f);
    var skip := At(p, 0) == '*';
    ghost var start := true;
    while skip || (i < |p| && j < |s|)
      invariant i <= |p| && j <= |s| && Rated(p, i, f, w)
      invariant skip ==> start && i < |p|
      invariant MatchAt(p, 0, s, 0, true, f) <==> MatchAt(p, i, s, j, start, f)
      invariant !start ==> SegmentEnds(p, i, s, j, f)
      invariant start && !skip ==> i == |p| || p[i] != '*'
      invariant start ==> i == 0 && j == 0 && skip == (At(p, 0) == '*')
      invariant calls <= Rate(n, i) && tests <= Rate(m, i)
      invariant !start && !f.period ==> tests >= FirstTests(p, 0, s, 0, f)
      decreases skip, |p| - i, start
    {
      ghost var more, many;
      ghost var i0 := i;
      ok, i, j, more, many := OneSegment(p, i, s, j, skip, start, f, w);
      ghost var k := if ok then i else |p|;
      Paid(n, calls, i0, more, i0, k);
      Paid(m, tests, i0, many, i0, k);
      calls, tests, skip, start := calls + more, tests + many, false, false;
      if !ok { return; }
      RateGrows(n, n, i, |p|);
      RateGrows(m, m, i, |p|);
    }
    RateGrows(n, n, i, |p|);
    RateGrows(m, m, i, |p|);
    ok := i == |p| && j == |s|;
  }

  /** Both sides are at the end of a segment. */
  predicate SegmentEnds(p: string, i: nat, s: string, j: nat, f: Flags) {
    (i >= |p| || SepAt(p, i, f)) && (j >= |s| || (f.pathname && s[j] == '/'))
  }

  /** When only one side is at the end of its segment there is no match. */
  lemma Stuck(p: string, i: nat, s: string, j: nat, f: Flags)
    requires i <= |p| && j <= |s|
    requires i == |p| || SepAt(p, i, f) || (j == SegEnd(s, j, f) && p[i] != '*')
    ensures !SegmentEnds(p, i, s, j, f) ==> !MatchAt(p, i, s, j, false, f)
  {
  }

  /** One turn of that loop; `skip` is the jump to the label firstsegment. */
  method OneSegment(p: string, i0: nat, s: string, j0: nat, skip: bool, ghost start: bool, f: Flags, ghost w: nat)
    returns (ok: bool, i: nat, j: nat, ghost calls: nat, ghost tests: nat)
    requires i0 <= |p| && j0 <= |s| && Rated(p, i0, f, w) && (skip ==> start && i0 < |p|)
    requires !skip ==> i0 < |p| && j0 < |s| && (start ==> p[i0] != '*')
    requires !start ==> SegmentEnds(p, i0, s, j0, f)
    ensures !ok ==> !MatchAt(p, i0, s, j0, start, f)
    ensures ok ==> i0 <= i <= |p| && j0 <= j <= |s| && (!start ==> i0 < i)
    ensures ok ==> SegmentEnds(p, i, s, j, f) && Rated(p, i, f, w)
    ensures ok ==> (MatchAt(p, i0, s, j0, start, f) <==> MatchAt(p, i, s, j, false, f))
    ensures calls <= Rate(|s| + 1, (if ok then i else |p|) - i0)
    ensures tests <= Rate(Rate(w, |s| + 2), (if ok then i else |p|) - i0)
    ensures skip && !f.period ==> tests >= FirstTests(p, i0, s, j0, f)
  {
    hide Rate, FirstTests, WellFormed, MatchAt, SegEnd;
    ghost var n, m := |s| + 1, Rate(w, |s| + 2);
    RateOne(n, 0);
    RateOne(m, 0);
    i, j, calls, tests := i0, j0, 0, 0;
    if !skip {
      i, j := NextSegment(p, i, s, j, start, f);
    }
    RateGrows(n, n, 0, |p| - i0);
    RateGrows(m, m, 0, |p| - i0);
    var next;
    ok, next, j := LeadingPeriod(p, i, s, j, f);
    if !ok { return; }
    i := next;
    var strendseg := SegEnd(s, j, f);
    ghost var j1 := j;
    ok, next, j, calls, tests := MatchSegment(p, i, s, j, strendseg, f, w);
    ghost var k := if ok then next else |p|;
    RateGrows(n, n, k - i, k - i0);
    RateGrows(m, m, k - i, k - i0);
    i := next;
    if !ok { return; }
    RateGrows(n, n, i - i0, |p| - i0);
    RateGrows(m, m, i - i0, |p| - i0);
    SegEndWithin(s, j1, j, f);
    Stuck(p, i, s, j, f);
    ok := (j == |s| || (f.pathname && s[j] == '/')) && (i == |p| || SepAt(p, i, f));
  }

  lemma NoFirst(p: string, s: string, f: Flags)
    ensures At(p, 0) != '*' ==> FirstTests(p, 0, s, 0, f) == 0
  {
  }
}
