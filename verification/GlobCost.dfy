/**
 How often `fnmatch_ch` (strings/apr_fnmatch.c) tests a character of the string.
 */
module GlobCost {
  import opened Apr
  import opened GlobSyntax
  import opened GlobMatch

  // One call makes one test against the pattern, but at a `[` it makes one for every
  // element of the list; a list that proves malformed is given up after that, and the
  // `[` is tested as an ordinary character.

  // ---- Tests of one call ----

  /** The tests at the element at `a` and the elements behind it. */
  function ElementTests(p: string, a: nat, f: Flags): nat
    requires a < |p|
    decreases |p| - a, 0
  {
    var r := RangeAt(p, a, f);
    if r.None? then 0 else 1 + ListTests(p, r.value.1, f)
  }

  /** The tests in the list of a bracket from `i` on. */
  function ListTests(p: string, i: nat, f: Flags): nat
    requires i <= |p|
    decreases |p| - i, 1
  {
    if i == |p| || p[i] == ']' then 0 else
    var a := if f.Escape() && p[i] == '\\' then i + 1 else i;
    if a == |p| || (f.pathname && p[a] == '/') then 0 else ElementTests(p, a, f)
  }

  function BracketTests(p: string, i: nat, f: Flags): nat
    requires i < |p| && p[i] == '['
  {
    var k := BodyStart(p, i);
    if At(p, k) == ']' then ElementTests(p, k, f) else ListTests(p, k, f)
  }

  /** The tests of a call at `i`, whatever the character. */
  function ItemTests(p: string, i: nat, f: Flags): nat
    requires i < |p|
  {
    if p[i] == '[' then BracketTests(p, i, f) + (if BracketAt(p, i, f).Some? then 0 else 1) else 1
  }

  /** No `[` that opens nothing stands at `i`. */
  predicate Opens(p: string, i: nat, f: Flags)
    requires i < |p|
  {
    p[i] == '[' ==> BracketAt(p, i, f).Some?
  }

  /** Every `[` read as an item from `i` on opens a well-formed bracket. */
  predicate WellFormed(p: string, i: nat, f: Flags)
    requires i <= |p|
    decreases |p| - i
  {
    i < |p| ==> Opens(p, i, f) && WellFormed(p, ItemAt(p, i, f).1, f)
  }

  /** No more tests than characters read: up to the closing bracket, or up to the end. */
  lemma {:induction false} ElementBound(p: string, a: nat, f: Flags)
    requires a < |p|
    ensures ElementTests(p, a, f) <= |p| - a
    ensures var r := Prepend(p, RangeAt(p, a, f), f); r.Some? ==> ElementTests(p, a, f) <= r.value.1 - a
    decreases |p| - a, 0
  {
    var r := RangeAt(p, a, f);
    if r.Some? { ListBound(p, r.value.1, f); }
  }

  lemma {:induction false} ListBound(p: string, i: nat, f: Flags)
    requires i <= |p|
    ensures ListTests(p, i, f) <= |p| - i
    ensures var r := Elements(p, i, f); r.Some? ==> ListTests(p, i, f) <= r.value.1 - i
    decreases |p| - i, 1
  {
    hide Prepend, ElementTests;
    if i < |p| && p[i] != ']' {
      var a := if f.Escape() && p[i] == '\\' then i + 1 else i;
      if a < |p| { ElementBound(p, a, f); }
    }
  }

  lemma ItemBound(p: string, i: nat, f: Flags)
    requires i < |p|
    ensures 1 <= ItemAt(p, i, f).1 - i
    ensures ItemTests(p, i, f) <= |p| - i
    ensures Opens(p, i, f) ==> ItemTests(p, i, f) <= ItemAt(p, i, f).1 - i
  {
    if p[i] == '[' {
      hide ElementTests, ListTests, Elements, Prepend;
      var k := BodyStart(p, i);
      if k < |p| { ElementBound(p, k, f); }
      ListBound(p, k, f);
    }
  }

  // ---- Rates ----

  /** `w` for each of `k` characters. */
  function Rate(w: nat, k: nat): nat {
    w * k
  }

  lemma RateAdd(w: nat, a: nat, b: nat)
    ensures Rate(w, a + b) == Rate(w, a) + Rate(w, b)
  {
  }

  lemma RateSum(v: nat, w: nat, k: nat)
    ensures Rate(v + w, k) == Rate(v, k) + Rate(w, k)
  {
  }

  lemma RateGrows(v: nat, w: nat, a: nat, b: nat)
    requires v <= w && a <= b
    ensures Rate(v, a) <= Rate(w, b)
  {
    assert Rate(w, b) - Rate(v, a) == w * (b - a) + (w - v) * a;
    assert w * (b - a) >= 0 && (w - v) * a >= 0;
  }

  lemma RateOne(w: nat, k: nat)
    ensures Rate(1, k) == k && Rate(w, 0) == 0 && Rate(0, k) == 0 && Rate(w, 1) == w
  {
  }

  /** A rate at which the tests from `i` on can be paid for by the characters read. */
  predicate Rated(p: string, i: nat, f: Flags, w: nat)
    requires i <= |p|
  {
    1 <= w && (|p| <= w || WellFormed(p, i, f))
  }

  lemma RatedItem(p: string, i: nat, f: Flags, w: nat)
    requires i < |p| && Rated(p, i, f, w)
    ensures ItemTests(p, i, f) <= Rate(w, ItemAt(p, i, f).1 - i)
    ensures Rated(p, ItemAt(p, i, f).1, f, w)
  {
    hide ItemTests, ItemAt, Opens;
    ItemBound(p, i, f);
    var width := ItemAt(p, i, f).1 - i;
    RateOne(w, width);
    RateGrows(1, w, width, width);
    RateGrows(w, w, 1, width);
  }

  // ---- Tests of the loops ----

  /** The dummy calls that count the items of the run at `i`. */
  function CountTests(p: string, i: nat, f: Flags): nat
    requires i <= |p|
    decreases |p| - i
  {
    if i == |p| || p[i] == '*' || SepAt(p, i, f) then 0
    else (if p[i] == '[' then ItemTests(p, i, f) else 0) + CountTests(p, ItemAt(p, i, f).1, f)
  }

  /** How many items the run at `i` has. */
  function RunLength(p: string, i: nat, f: Flags): nat
    requires i <= |p|
    decreases |p| - i
  {
    if i == |p| || p[i] == '*' || SepAt(p, i, f) then 0 else 1 + RunLength(p, ItemAt(p, i, f).1, f)
  }

  /** The tests when the `t` items from `i` are tried at `j`: up to the first mismatch. */
  function RunTests(p: string, i: nat, t: nat, s: string, j: nat, f: Flags): nat
    requires i <= |p|
    decreases t
  {
    if t == 0 || i == |p| || j >= |s| || !ItemAt(p, i, f).0.Single() then 0 else
    var (it, n) := ItemAt(p, i, f);
    ItemTests(p, i, f) + if Accepts(it, s[j], f) then RunTests(p, n, t - 1, s, j + 1, f) else 0
  }

  /** The tests when they are tried at every place from `j` on, up to the first that fits. */
  function SearchTests(p: string, i: nat, t: nat, s: string, j: nat, e: nat, f: Flags): nat
    requires i <= |p| && j + t <= e
    decreases e - j
  {
    RunTests(p, i, t, s, j, f) + LaterTests(p, i, t, s, j, e, f)
  }

  function LaterTests(p: string, i: nat, t: nat, s: string, j: nat, e: nat, f: Flags): nat
    requires i <= |p| && j + t <= e
    decreases e - j, 0
  {
    if RunAccepts(p, i, t, s, j, f) || j + t == e then 0 else SearchTests(p, i, t, s, j + 1, e, f)
  }

  lemma {:induction false} CountBound(p: string, i: nat, f: Flags, w: nat)
    requires i <= |p| && Rated(p, i, f, w)
    ensures CountTests(p, i, f) <= Rate(w, RunStop(p, i, f) - i)
    decreases |p| - i
  {
    hide ItemTests, ItemAt, Rate, Rated;
    if i < |p| && p[i] != '*' && !SepAt(p, i, f) {
      var n := ItemAt(p, i, f).1;
      RatedItem(p, i, f, w);
      CountBound(p, n, f, w);
      RateAdd(w, n - i, RunStop(p, n, f) - n);
    }
  }

  lemma {:induction false} RunBound(p: string, i: nat, t: nat, i': nat, s: string, j: nat, f: Flags, w: nat)
    requires i <= |p| && RunTo(p, i, t, i', f) && i' <= |p| && Rated(p, i, f, w)
    ensures i <= i' && RunTests(p, i, t, s, j, f) <= Rate(w, i' - i)
    decreases t
  {
    hide ItemTests, ItemAt, Accepts, Rate, Rated;
    RunBounds(p, i, t, i', f);
    if t > 0 {
      var n := ItemAt(p, i, f).1;
      RatedItem(p, i, f, w);
      RunBound(p, n, t - 1, i', s, j + 1, f, w);
      RateAdd(w, n - i, i' - n);
    }
  }

  lemma {:induction false} SearchBound(p: string, i: nat, t: nat, i': nat, s: string, j: nat, e: nat, f: Flags, w: nat)
    requires i <= |p| && RunTo(p, i, t, i', f) && i <= i' <= |p| && Rated(p, i, f, w) && j + t <= e
    ensures SearchTests(p, i, t, s, j, e, f) <= Rate(Rate(w, i' - i), e - t - j + 1)
    decreases e - j
  {
    hide RunTests, RunAccepts, RunTo, Rate, Rated;
    RunBound(p, i, t, i', s, j, f, w);
    var x, k := Rate(w, i' - i), e - t - j;
    RateAdd(x, 1, k);
    RateOne(x, 0);
    if k > 0 { SearchBound(p, i, t, i', s, j + 1, e, f, w); }
  }

  lemma {:induction false} AcceptsFewer(p: string, i: nat, t: nat, u: nat, s: string, j: nat, f: Flags)
    requires i <= |p| && t <= u && RunAccepts(p, i, u, s, j, f)
    ensures RunAccepts(p, i, t, s, j, f)
    decreases t
  {
    hide Accepts;
    if t > 0 { AcceptsFewer(p, ItemAt(p, i, f).1, t - 1, u - 1, s, j + 1, f); }
  }

  /** What one call adds: item `t` of the run, tried at `k`. */
  lemma OneCall(p: string, i0: nat, t: nat, i: nat, len: nat, s: string, k: nat, e: nat, f: Flags)
    requires i0 <= |p| && RunTo(p, i0, t, i, f) && i < |p| && ItemAt(p, i, f).0.Single() && t < len
    requires RunAccepts(p, i0, t, s, k, f) && k + len <= e <= |s|
    ensures var (it, n) := ItemAt(p, i, f);
            if Accepts(it, s[k + t], f) then
              RunTests(p, i, len - t, s, k + t, f)
              == ItemTests(p, i, f) + RunTests(p, n, len - (t + 1), s, k + t + 1, f)
            else
              && RunTests(p, i, len - t, s, k + t, f) == ItemTests(p, i, f)
              && LaterTests(p, i0, len, s, k, e, f)
                 == if k + len == e then 0 else SearchTests(p, i0, len, s, k + 1, e, f)
  {
    hide ItemTests, ItemAt, Accepts, SearchTests;
    if !Accepts(ItemAt(p, i, f).0, s[k + t], f) && RunAccepts(p, i0, len, s, k, f) {
      AcceptsFewer(p, i0, t + 1, len, s, k, f);
      RunAcceptsExtend(p, i0, t, i, s, k, f);
    }
  }

  /** A run that fits needs no more tests. */
  lemma NoMoreCalls(p: string, i0: nat, i: nat, len: nat, s: string, k: nat, e: nat, f: Flags)
    requires i0 <= |p| && i <= |p| && RunAccepts(p, i0, len, s, k, f) && k + len <= e
    ensures RunTests(p, i, 0, s, k + len, f) == 0 && LaterTests(p, i0, len, s, k, e, f) == 0
  {
  }

  /** The tests spent on the run behind a lone `*` at `i`, when another `*` follows it. */
  function FirstTests(p: string, i: nat, s: string, j: nat, f: Flags): nat
    requires i <= |p| && j <= |s|
  {
    if i + 1 < |p| && p[i] == '*' && p[i + 1] != '*' && p[i + 1] != '?' then RunAndCountTests(p, i + 1, s, j, f) else 0
  }

  function RunAndCountTests(p: string, i: nat, s: string, j: nat, f: Flags): nat
    requires i <= |p| && j <= |s|
  {
    var end, t, e := RunStop(p, i, f), RunLength(p, i, f), SegEnd(s, j, f);
    if end < |p| && !SepAt(p, end, f) && j + t <= e
    then CountTests(p, i, f) + SearchTests(p, i, t, s, j, e, f) else 0
  }

  /** One run is paid for: the count and at most `r` tries. */
  lemma RunPays(w: nat, width: nat, r: nat, n: nat)
    requires r <= n
    ensures Rate(w, width) + Rate(Rate(w, width), r) <= Rate(Rate(w, n + 1), width)
  {
    RateGrows(Rate(w, width), Rate(w, width), r, n);
    assert w * width * n == w * n * width;
    RateAdd(w, n, 1);
    RateSum(Rate(w, n), w, width);
  }

  /** So is a count followed by one comparison in place. */
  lemma CountPays(w: nat, width: nat, taken: nat, n: nat)
    requires width <= taken && n >= 1
    ensures Rate(w, width) + Rate(w, taken) <= Rate(Rate(w, n + 1), taken)
  {
    RateGrows(w, w, width, taken);
    RateSum(w, w, taken);
    RateGrows(w, w, 2, n + 1);
    RateGrows(w + w, Rate(w, n + 1), taken, taken);
  }
}
