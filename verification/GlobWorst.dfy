/**
 A family of patterns at which `apr_fnmatch` makes many tests.
 */
module GlobWorst {
  import opened Apr
  import opened GlobSyntax
  import opened GlobMatch
  import opened GlobCost

  // A run of `[` that open nothing, between two stars: every try of the run goes
  // through the rest of the pattern once for each of them.

  /** `*`, then `k` times `[`, then `x*`. */
  function Pattern(k: nat): (p: string)
    ensures |p| == k + 3 && p[0] == '*' && p[k + 1] == 'x' && p[k + 2] == '*'
    ensures forall m | 1 <= m <= k :: p[m] == '['
  {
    "*" + Brackets(k) + "x*"
  }

  function Brackets(n: nat): (s: string)
    ensures |s| == n && forall m | 0 <= m < n :: s[m] == '['
  {
    seq(n, _ => '[')
  }

  /** The tests at the items from `m` on when all of them fit. */
  function Sum(k: nat, m: nat): nat
    requires m <= k + 1
    decreases k + 1 - m
  {
    if m == k + 1 then 0 else k + 3 - m + Sum(k, m + 1)
  }

  lemma {:induction false} SumIs(k: nat, m: nat)
    requires m <= k + 1
    ensures 2 * Sum(k, m) == (k + 1 - m) * (k + 6 - m)
    decreases k + 1 - m
  {
    if m <= k { SumIs(k, m + 1); }
  }

  /** A list that nothing closes is read to its end. */
  lemma {:induction false} ListToEnd(k: nat, i: nat, f: Flags)
    requires 1 <= i <= k + 3
    ensures Elements(Pattern(k), i, f) == None && ListTests(Pattern(k), i, f) == k + 3 - i
    decreases k + 3 - i
  {
    hide Pattern;
    if i < k + 3 {
      var p := Pattern(k);
      assert p[i] == '[' || p[i] == 'x' || p[i] == '*';
      assert At(p, i + 1) != '-';
      ListToEnd(k, i + 1, f);
    }
  }

  lemma ItemIs(k: nat, m: nat, f: Flags)
    requires 1 <= m <= k + 1
    ensures ItemAt(Pattern(k), m, f) == (Lit(Pattern(k)[m]), m + 1)
    ensures ItemTests(Pattern(k), m, f) == if m <= k then k + 3 - m else 1
  {
    hide Pattern;
    ListToEnd(k, m + 1, f);
  }

  /** One try of the run. */
  lemma {:induction false} OneTry(k: nat, m: nat, n: nat, j: nat, f: Flags)
    requires 1 <= m <= k + 1 && j + (k + 2 - m) <= n
    ensures RunTests(Pattern(k), m, k + 2 - m, Brackets(n), j, f) == Sum(k, m) + 1
    ensures !RunAccepts(Pattern(k), m, k + 2 - m, Brackets(n), j, f)
    decreases k + 1 - m
  {
    hide Pattern, Brackets, ItemTests, ItemAt;
    ItemIs(k, m, f);
    if m <= k { OneTry(k, m + 1, n, j + 1, f); }
  }

  lemma {:induction false} RunIs(k: nat, m: nat, f: Flags)
    requires 1 <= m <= k + 2
    ensures RunStop(Pattern(k), m, f) == k + 2 && RunLength(Pattern(k), m, f) == k + 2 - m
    ensures CountTests(Pattern(k), m, f) == if m <= k then Sum(k, m) else 0
    decreases k + 2 - m
  {
    hide Pattern, ItemTests, ItemAt;
    if m <= k + 1 {
      ItemIs(k, m, f);
      RunIs(k, m + 1, f);
    }
  }

  lemma {:induction false} AllTries(k: nat, n: nat, j: nat, f: Flags)
    requires j + k + 1 <= n
    ensures SearchTests(Pattern(k), 1, k + 1, Brackets(n), j, n, f) == (n - k - j) * (Sum(k, 1) + 1)
    decreases n - j
  {
    hide Pattern, Brackets, RunTests, RunAccepts, Sum;
    OneTry(k, 1, n, j, f);
    var one := Sum(k, 1) + 1;
    if j + k + 1 < n {
      AllTries(k, n, j + 1, f);
      assert (n - k - (j + 1)) * one + one == (n - k - j) * one;
    } else {
      assert 1 * one == one;
    }
  }

  lemma {:induction false} OneSegmentOnly(n: nat, j: nat, f: Flags)
    requires j <= n
    ensures SegEnd(Brackets(n), j, f) == n
    decreases n - j
  {
    hide Brackets;
    if j < n { OneSegmentOnly(n, j + 1, f); }
  }

  /** The tests made, for every length of the run and of the string. */
  lemma TestsAre(k: nat, n: nat, f: Flags)
    requires k < n
    ensures FirstTests(Pattern(k), 0, Brackets(n), 0, f) == (if k > 0 then Sum(k, 1) else 0) + (n - k) * (Sum(k, 1) + 1)
    ensures 2 * Sum(k, 1) == k * (k + 5)
  {
    hide Pattern, Brackets, SearchTests, CountTests, Sum;
    SumIs(k, 1);
    RunIs(k, 1, f);
    OneSegmentOnly(n, 0, f);
    AllTries(k, n, 0, f);
  }

  /** Ten `[` against a string of a hundred: more than five times the length of the pattern
      times that of the string, although the calls stay within that. */
  lemma {:induction false} TenBrackets(f: Flags)
    ensures FirstTests(Pattern(10), 0, Brackets(100), 0, f) == 6915 > 5 * |Pattern(10)| * (|Brackets(100)| + 1)
  {
    hide FirstTests;
    TestsAre(10, 100, f);
  }

  /** No multiple of that product bounds the tests. */
  lemma NoMultipleIsEnough(c: nat, f: Flags) returns (p: string, s: string)
    ensures FirstTests(p, 0, s, 0, f) > c * (|p| * (|s| + 2))
  {
    var k := 20 * c + 1;
    p, s := Pattern(k), Brackets(3 * k);
    hide FirstTests, Sum;
    TestsAre(k, 3 * k, f);
    TooMany(c, k, Sum(k, 1));
  }

  lemma TooMany(c: nat, k: nat, sum: nat)
    requires k == 20 * c + 1 && 2 * sum == k * (k + 5)
    ensures sum + (3 * k - k) * (sum + 1) > c * ((k + 3) * (3 * k + 2))
  {
    var q := k * k;
    LeftSide(c, k, q, sum);
    RightSide(c, k, q);
  }

  lemma LeftSide(c: nat, k: nat, q: nat, sum: nat)
    requires k == 20 * c + 1 && q == k * k && 2 * sum == k * (k + 5)
    ensures (3 * k - k) * (sum + 1) == 20 * (c * q) + 6 * q + 2 * k
  {
    assert 2 * sum == q + 5 * k;
    assert (3 * k - k) * (sum + 1) == k * (2 * sum) + 2 * k;
    assert k * (q + 5 * k) == k * q + 5 * q;
    assert k * q == 20 * (c * q) + q by { Distribute(20 * c, q); }
  }

  lemma Distribute(a: nat, q: nat)
    ensures (a + 1) * q == a * q + q
  {
  }

  lemma RightSide(c: nat, k: nat, q: nat)
    requires k >= 1 && q == k * k
    ensures c * ((k + 3) * (3 * k + 2)) <= 20 * (c * q)
  {
    assert (k + 3) * (3 * k + 2) == 3 * q + 11 * k + 6;
    assert q >= k by { Larger(k, 1, k); }
    Larger(c, 3 * q + 11 * k + 6, 20 * q);
    assert c * (20 * q) == 20 * (c * q);
  }

  lemma Larger(c: nat, a: nat, b: nat)
    requires a <= b
    ensures c * a <= c * b
  {
    assert c * (b - a) >= 0;
  }
}
