/**
 `apr_cstr_tokenize` with one separator, and `apr_cstr_split_append` (strings/apr_cstr.c).

 A buffer is cut into strings by writing terminators into it, and the caller is
 handed pointers into the buffer.
 */
module CstrTokenize {
  import opened Apr

  /** The place of the first and the place behind the last character. */
  type Piece = (nat, nat)

  /** The string that begins at `a` in memory is `t`. */
  predicate Reads(mem: string, a: nat, t: string) {
    IsCString(t) && a + |t| < |mem| && mem[a..a + |t|] == t && mem[a + |t|] == '\0'
  }

  // ---- What the separator cuts a string into ----

  function AfterSep(s: string, sep: char, i: nat): (r: nat)
    requires i <= |s|
    ensures i <= r <= |s| && (r < |s| ==> s[r] != sep) && forall k | i <= k < r :: s[k] == sep
    decreases |s| - i
  {
    if i < |s| && s[i] == sep then AfterSep(s, sep, i + 1) else i
  }

  function NextSep(s: string, sep: char, i: nat): (r: nat)
    requires i <= |s|
    ensures i <= r <= |s| && (r < |s| ==> s[r] == sep) && forall k | i <= k < r :: s[k] != sep
    decreases |s| - i
  {
    if i < |s| && s[i] != sep then NextSep(s, sep, i + 1) else i
  }

  /** The runs of other characters from `i` on. */
  function Runs(s: string, sep: char, i: nat): (rs: seq<Piece>)
    requires i <= |s|
    ensures forall k | 0 <= k < |rs| :: i <= rs[k].0 < rs[k].1 <= |s|
    decreases |s| - i
  {
    var a := AfterSep(s, sep, i);
    if a == |s| then [] else
    var b := NextSep(s, sep, a);
    [(a, b)] + Runs(s, sep, if b < |s| then b + 1 else b)
  }

  /** A run of characters other than the separator that cannot be made longer. */
  predicate IsMaximalRun(s: string, sep: char, r: Piece) {
    && r.0 < r.1 <= |s| && (forall k | r.0 <= k < r.1 :: s[k] != sep)
    && (r.0 == 0 || s[r.0 - 1] == sep) && (r.1 == |s| || s[r.1] == sep)
  }

  predicate Inside(i: nat, r: Piece) { r.0 <= i < r.1 }

  predicate MaximalInOrder(s: string, sep: char, rs: seq<Piece>) {
    && (forall k | 0 <= k < |rs| :: IsMaximalRun(s, sep, rs[k]))
    && (forall k, m | 0 <= k < m < |rs| :: rs[k].1 <= rs[m].0)
  }

  /** A run may begin at `i`. */
  predicate IsStart(s: string, sep: char, i: nat) {
    i <= |s| && (i == 0 || s[i - 1] == sep || i == |s|)
  }

  /** Each run is maximal, and they come in order. */
  lemma {:induction false} RunsAreMaximal(s: string, sep: char, i: nat)
    requires IsStart(s, sep, i)
    ensures MaximalInOrder(s, sep, Runs(s, sep, i))
    decreases |s| - i
  {
    if AfterSep(s, sep, i) < |s| {
      var r, n := FirstRun(s, sep, i);
      hide *;
      RunsAreMaximal(s, sep, n);
      OneMoreInFront(s, sep, r, Runs(s, sep, n));
    }
  }

  lemma OneMoreInFront(s: string, sep: char, r: Piece, rest: seq<Piece>)
    requires IsMaximalRun(s, sep, r) && MaximalInOrder(s, sep, rest)
    requires forall k | 0 <= k < |rest| :: r.1 <= rest[k].0
    ensures MaximalInOrder(s, sep, [r] + rest)
  {
    hide IsMaximalRun;
  }

  lemma FirstRun(s: string, sep: char, i: nat) returns (r: Piece, n: nat)
    requires IsStart(s, sep, i) && AfterSep(s, sep, i) < |s|
    ensures i < n <= |s| && IsStart(s, sep, n) && IsMaximalRun(s, sep, r)
    ensures Runs(s, sep, i) == [r] + Runs(s, sep, n)
    ensures forall k | 0 <= k < |Runs(s, sep, n)| :: r.1 <= Runs(s, sep, n)[k].0
  {
    var a := AfterSep(s, sep, i);
    var b := NextSep(s, sep, a);
    r, n := (a, b), if b < |s| then b + 1 else b;
  }

  /** Every other character is in a run. */
  lemma {:induction false} RunsCover(s: string, sep: char, i: nat, j: nat) returns (k: nat)
    requires i <= j < |s| && s[j] != sep
    ensures k < |Runs(s, sep, i)| && Inside(j, Runs(s, sep, i)[k])
    decreases |s| - i
  {
    var b := NextSep(s, sep, AfterSep(s, sep, i));
    if j < b {
      k := 0;
    } else {
      var m := RunsCover(s, sep, b + 1, j);
      k := m + 1;
    }
  }

  /** The runs are exactly the maximal ones, in order. */
  lemma RunsAreTheMaximalRuns(s: string, sep: char)
    ensures MaximalInOrder(s, sep, Runs(s, sep, 0))
    ensures forall r: Piece :: r in Runs(s, sep, 0) <==> IsMaximalRun(s, sep, r)
  {
    RunsAreMaximal(s, sep, 0);
    var rs := Runs(s, sep, 0);
    forall r: Piece | IsMaximalRun(s, sep, r) ensures r in rs {
      var k := RunsCover(s, sep, 0, r.0);
      SameMaximalRun(s, sep, r, rs[k], r.0);
    }
  }

  lemma SameMaximalRun(s: string, sep: char, r: Piece, q: Piece, j: nat)
    requires IsMaximalRun(s, sep, r) && IsMaximalRun(s, sep, q) && Inside(j, r) && Inside(j, q)
    ensures r == q
  {
  }

  /** A run without the white space at its ends. */
  function TrimLeft(s: string, a: nat, b: nat): (r: nat)
    requires a <= b <= |s|
    ensures a <= r <= b && (r < b ==> !IsSpace(s[r])) && forall k | a <= k < r :: IsSpace(s[k])
    decreases b - a
  {
    if a < b && IsSpace(s[a]) then TrimLeft(s, a + 1, b) else a
  }

  function TrimRight(s: string, a: nat, b: nat): (r: nat)
    requires a <= b <= |s|
    ensures a <= r <= b && (a < r ==> !IsSpace(s[r - 1])) && forall k | r <= k < b :: IsSpace(s[k])
    decreases b - a
  {
    if a < b && IsSpace(s[b - 1]) then TrimRight(s, a, b - 1) else b
  }

  function Trimmed(s: string, r: Piece, chop: bool): Piece
    requires r.0 <= r.1 <= |s|
  {
    if chop then var a := TrimLeft(s, r.0, r.1); (a, TrimRight(s, a, r.1)) else r
  }

  /** The trimmed runs that are not empty. */
  function Kept(s: string, rs: seq<Piece>, chop: bool): (ps: seq<Piece>)
    requires forall k | 0 <= k < |rs| :: rs[k].0 <= rs[k].1 <= |s|
    ensures forall k | 0 <= k < |ps| :: ps[k].0 < ps[k].1 <= |s|
  {
    if rs == [] then [] else
    var p := Trimmed(s, rs[|rs| - 1], chop);
    Kept(s, rs[..|rs| - 1], chop) + if p.0 < p.1 then [p] else []
  }

  // ---- apr_cstr_tokenize ----

  /** The text from `str` on, up to the terminator at the end of the buffer. */
  predicate TextFrom(mem: string, str: nat, s: string) {
    |mem| == |s| + 1 && str <= |s| && mem[|s|] == '\0' && IsCString(s) && mem[str..|s|] == s[str..]
  }

  /** The next token from `i` on, and where the text continues behind it. */
  predicate IsNext(s: string, sep: char, i: nat, token: Option<nat>, str: nat)
    requires i <= |s|
  {
    var a := AfterSep(s, sep, i);
    if a == |s| then token == None && str == i else
    var b := NextSep(s, sep, a);
    token == Some(a) && str == (if b < |s| then b + 1 else b)
  }

  /** Cuts off the next token: a terminator replaces the separator behind it, and
      `str` moves past that. Without a token nothing changes. */
  method AprCstrTokenize(buf: array<char>, str0: nat, sep: char, ghost s: string) returns (token: Option<nat>, str: nat)
    requires TextFrom(buf[..], str0, s) && sep != '\0'
    modifies buf
    ensures var a := AfterSep(s, sep, str0);
            if a == |s| then buf[..] == old(buf[..])
            else
              var b := NextSep(s, sep, a);
              buf[..] == old(buf[..])[b := '\0'] && Reads(buf[..], a, s[a..b])
    ensures TextFrom(buf[..], str, s) && IsNext(s, sep, str0, token, str)
  {
    EachFrom(buf[..], str0, s);
    hide TextFrom, Reads, IsCString;
    var t := str0;
    while buf[t] == sep
      invariant str0 <= t <= |s| && AfterSep(s, sep, t) == AfterSep(s, sep, str0)
      decreases |s| - t
    {
      t := t + 1;
    }
    if buf[t] == '\0' {
      return None, str0;
    }
    var next := t;
    while buf[next] != sep && buf[next] != '\0'
      invariant t <= next <= |s| && NextSep(s, sep, next) == NextSep(s, sep, t)
      decreases |s| - next
    {
      next := next + 1;
    }
    if buf[next] == '\0' {
      str := next;
    } else {
      buf[next] := '\0';
      str := next + 1;
    }
    token := Some(t);
    EachReads(buf[..], t, next, s);
    FromEach(buf[..], str, s);
  }

  lemma EachFrom(mem: string, str: nat, s: string)
    requires TextFrom(mem, str, s)
    ensures str <= |s| && |mem| == |s| + 1 && mem[|s|] == '\0' && IsCString(s)
    ensures forall k | str <= k < |s| :: mem[k] == s[k] && s[k] != '\0'
  {
    assert forall k | str <= k < |s| :: mem[k] == mem[str..|s|][k - str] == s[str..][k - str] == s[k];
  }

  lemma FromEach(mem: string, str: nat, s: string)
    requires str <= |s| && |mem| == |s| + 1 && mem[|s|] == '\0' && IsCString(s)
    requires forall k | str <= k < |s| :: mem[k] == s[k]
    ensures TextFrom(mem, str, s)
  {
    assert mem[str..|s|] == s[str..];
  }

  // ---- apr_cstr_split_append ----

  /** The strings the pointers handed out so far point at. */
  predicate AllRead(mem: string, ptrs: seq<nat>, ps: seq<Piece>, s: string)
    requires forall k | 0 <= k < |ps| :: ps[k].0 < ps[k].1 <= |s|
  {
    |ptrs| == |ps| && forall k | 0 <= k < |ps| :: ptrs[k] == ps[k].0 && Reads(mem, ptrs[k], s[ps[k].0..ps[k].1])
  }

  /** The chopping statements: moves past leading white space and writes a terminator
      behind the last other character. */
  method Chop(buf: array<char>, a: nat, ghost b: nat, ghost s: string) returns (p: nat)
    requires a <= b <= |s| && Reads(buf[..], a, s[a..b])
    modifies buf
    ensures var (a', b') := Trimmed(s, (a, b), true);
            p == a' && buf[..] == old(buf[..])[b' := '\0']
  {
    ReadsEach(buf[..], a, b, s);
    assert !IsSpace('\0');
    hide Reads, IsCString, IsSpace;
    p := a;
    while IsSpace(buf[p])
      invariant a <= p <= b && TrimLeft(s, p, b) == TrimLeft(s, a, b)
      decreases b - p
    {
      p := p + 1;
    }
    var e := LastOther(buf, p, b, s);
    hide TrimLeft, TrimRight;
    buf[e] := '\0';
  }

  /** Behind the last character that is not white space, or at the start. */
  method LastOther(buf: array<char>, p: nat, ghost b: nat, ghost s: string) returns (e: nat)
    requires p <= b <= |s| && b < buf.Length && buf[b] == '\0'
    requires forall k | p <= k < b :: buf[k] == s[k] && s[k] != '\0'
    ensures e == TrimRight(s, p, b)
  {
    hide IsSpace;
    var len := Strlen(buf, p, b);
    var last := p + len - 1;
    while last >= p && IsSpace(buf[last])
      invariant p - 1 <= last < b && TrimRight(s, p, last + 1) == TrimRight(s, p, b)
    {
      last := last - 1;
    }
    e := last + 1;
  }

  method Strlen(buf: array<char>, p: nat, ghost end: nat) returns (len: nat)
    requires p <= end < buf.Length && buf[end] == '\0' && forall k | p <= k < end :: buf[k] != '\0'
    ensures len == end - p
  {
    len := 0;
    while buf[p + len] != '\0'
      invariant p + len <= end
      decreases end - p - len
    {
      len := len + 1;
    }
  }

  lemma ReadsEach(mem: string, a: nat, b: nat, s: string)
    requires a <= b <= |s| && Reads(mem, a, s[a..b])
    ensures b < |mem| && mem[b] == '\0' && forall k | a <= k < b :: mem[k] == s[k] && s[k] != '\0'
  {
    forall k | a <= k < b ensures mem[k] == s[k] && s[k] != '\0' {
      assert s[a..b][k - a] == s[k];
      assert mem[a..a + (b - a)][k - a] == mem[k];
    }
  }

  lemma EachReads(mem: string, a: nat, b: nat, s: string)
    requires a <= b <= |s|
    requires b < |mem| && mem[b] == '\0' && forall k | a <= k < b :: mem[k] == s[k] && s[k] != '\0'
    ensures Reads(mem, a, s[a..b])
  {
    assert mem[a..a + (b - a)] == s[a..b];
  }

  /** A terminator inside a string leaves the part before it. */
  lemma CutReads(mem: string, a: nat, b: nat, c: nat, d: nat, s: string)
    requires a <= c <= d <= b <= |s| && Reads(mem, a, s[a..b])
    ensures d < |mem| && Reads(mem[d := '\0'], c, s[c..d])
  {
    ReadsEach(mem, a, b, s);
    EachReads(mem[d := '\0'], c, d, s);
  }

  /** A terminator at or behind the end of every string read so far changes none. */
  lemma LaterCut(mem: string, ptrs: seq<nat>, ps: seq<Piece>, s: string, w: nat)
    requires forall k | 0 <= k < |ps| :: ps[k].0 < ps[k].1 <= |s|
    requires AllRead(mem, ptrs, ps, s) && w < |mem| && forall k | 0 <= k < |ps| :: ps[k].1 <= w
    ensures AllRead(mem[w := '\0'], ptrs, ps, s)
  {
    forall k | 0 <= k < |ps| ensures Reads(mem[w := '\0'], ptrs[k], s[ps[k].0..ps[k].1]) {
      ReadsEach(mem, ps[k].0, ps[k].1, s);
      EachReads(mem[w := '\0'], ps[k].0, ps[k].1, s);
    }
  }

  lemma {:induction false} KeptBefore(s: string, rs: seq<Piece>, chop: bool, w: nat)
    requires forall k | 0 <= k < |rs| :: rs[k].0 <= rs[k].1 <= |s| && rs[k].1 <= w
    ensures forall k | 0 <= k < |Kept(s, rs, chop)| :: Kept(s, rs, chop)[k].1 <= w
  {
    if rs != [] { KeptBefore(s, rs[..|rs| - 1], chop, w); }
  }

  /** A terminator before the text still to be cut does not change that text. */
  lemma EarlierCut(mem: string, str: nat, s: string, w: nat)
    requires TextFrom(mem, str, s) && w <= |s| && (w < str || w == |s|)
    ensures TextFrom(mem[w := '\0'], str, s)
  {
    assert mem[w := '\0'][str..|s|] == mem[str..|s|];
  }

  /** One more token: trims it and hands out its pointer unless it is empty. */
  method TakeToken(buf: array<char>, ptrs0: seq<nat>, chop: bool, ghost done: seq<Piece>,
                   a: nat, ghost b: nat, ghost str: nat, ghost s: string)
    returns (ptrs: seq<nat>)
    requires a < b <= str <= |s| && (b < str || b == |s|)
    requires TextFrom(buf[..], str, s) && Reads(buf[..], a, s[a..b])
    requires forall k | 0 <= k < |done| :: done[k].0 < done[k].1 <= a
    requires AllRead(buf[..], ptrs0, Kept(s, done, chop), s)
    modifies buf
    ensures TextFrom(buf[..], str, s)
    ensures AllRead(buf[..], ptrs, Kept(s, done + [(a, b)], chop), s)
  {
    ghost var ps := Kept(s, done, chop);
    ghost var q := Trimmed(s, (a, b), chop);
    KeptBefore(s, done, chop, a);
    assert (done + [(a, b)])[..|done|] == done;
    assert Kept(s, done + [(a, b)], chop) == ps + if q.0 < q.1 then [q] else [];
    var p := a;
    if chop {
      ghost var was := buf[..];
      p := Chop(buf, a, b, s);
      CutReads(was, a, b, q.0, q.1, s);
      LaterCut(was, ptrs0, ps, s, q.1);
      EarlierCut(was, str, s, q.1);
    }
    assert p == q.0 && Reads(buf[..], p, s[q.0..q.1]);
    ReadsEach(buf[..], q.0, q.1, s);
    ptrs := ptrs0;
    if buf[p] != '\0' {
      ptrs := ptrs + [p];
    }
  }

  /** The runs up to `i`. */
  predicate Done(s: string, sep: char, done: seq<Piece>, i: nat)
    requires i <= |s|
  {
    Runs(s, sep, 0) == done + Runs(s, sep, i) && forall k | 0 <= k < |done| :: done[k].0 < done[k].1 <= i
  }

  /** What the next call cuts off: a run, or nothing. */
  predicate IsRun(s: string, sep: char, i: nat, token: Option<nat>, r: Piece, str: nat)
    requires i <= |s|
  {
    if token == None then str == i && Runs(s, sep, i) == [] else
      && r.0 == token.value && i <= r.0 < r.1 <= str <= |s| && (r.1 < str || r.1 == |s|)
      && Runs(s, sep, i) == [r] + Runs(s, sep, str)
  }

  lemma NextRun(s: string, sep: char, i: nat, token: Option<nat>, str: nat)
    requires i <= |s| && IsNext(s, sep, i, token, str)
    ensures token == None ==> IsRun(s, sep, i, token, (0, 0), str)
    ensures token != None ==>
              && token.value == AfterSep(s, sep, i) < |s|
              && IsRun(s, sep, i, token, (token.value, NextSep(s, sep, token.value)), str)
  {
  }

  lemma OneMoreDone(s: string, sep: char, done: seq<Piece>, i: nat, token: Option<nat>, r: Piece, str: nat)
    requires i <= |s| && Done(s, sep, done, i) && token != None && IsRun(s, sep, i, token, r, str)
    ensures str <= |s| && Done(s, sep, done + [r], str)
  {
    assert done + [r] + Runs(s, sep, str) == done + ([r] + Runs(s, sep, str));
  }

  /** A call that leaves the strings already handed out as they are. */
  method NextToken(buf: array<char>, str0: nat, sep: char, ghost ptrs: seq<nat>, ghost done: seq<Piece>, chop: bool,
                   ghost s: string)
    returns (token: Option<nat>, str: nat, ghost r: Piece)
    requires sep != '\0' && TextFrom(buf[..], str0, s) && Done(s, sep, done, str0)
    requires AllRead(buf[..], ptrs, Kept(s, done, chop), s)
    modifies buf
    ensures TextFrom(buf[..], str, s) && AllRead(buf[..], ptrs, Kept(s, done, chop), s)
    ensures IsRun(s, sep, str0, token, r, str)
    ensures token != None ==> Reads(buf[..], r.0, s[r.0..r.1])
  {
    ghost var was := buf[..];
    token, str := AprCstrTokenize(buf, str0, sep, s);
    NextRun(s, sep, str0, token, str);
    r := (0, 0);
    if token != None {
      r := (token.value, NextSep(s, sep, token.value));
      KeptBefore(s, done, chop, str0);
      LaterCut(was, ptrs, Kept(s, done, chop), s, r.1);
    }
  }

  method Pstrdup(input: string) returns (buf: array<char>)
    requires IsCString(input)
    ensures fresh(buf) && TextFrom(buf[..], 0, input)
  {
    var n := |input|;
    buf := new char[n + 1](i requires 0 <= i < n + 1 => if i < n then input[i] else '\0');
    assert buf[..][0..n] == input[0..];
  }

  /** `apr_cstr_split_append` pushes pointers into a copy of the input; they read
      exactly the runs between separators, trimmed if asked, without the empty ones. */
  method AprCstrSplitAppend(input: string, sep: char, chop: bool) returns (buf: array<char>, ptrs: seq<nat>)
    requires IsCString(input) && sep != '\0'
    ensures AllRead(buf[..], ptrs, Kept(input, Runs(input, sep, 0), chop), input)
  {
    buf := Pstrdup(input);
    ptrs := [];
    ghost var done: seq<Piece> := [];
    ghost var i: nat := 0;
    assert AllRead(buf[..], ptrs, Kept(input, done, chop), input) && Done(input, sep, done, i);
    hide TextFrom, AllRead, Reads, Kept, Runs, Done, IsCString;
    var token, str, r := NextToken(buf, 0, sep, ptrs, done, chop, input);
    while token != None
      invariant 0 <= i <= |input| && TextFrom(buf[..], str, input) && IsRun(input, sep, i, token, r, str)
      invariant token != None ==> Reads(buf[..], r.0, input[r.0..r.1])
      invariant Done(input, sep, done, i) && AllRead(buf[..], ptrs, Kept(input, done, chop), input)
      decreases if token == None then 0 else |input| - i + 1
    {
      ptrs := TakeToken(buf, ptrs, chop, done, token.value, r.1, str, input);
      OneMoreDone(input, sep, done, i, token, r, str);
      done := done + [r];
      i := str;
      token, str, r := NextToken(buf, str, sep, ptrs, done, chop, input);
    }
    AllDone(input, sep, done, i, token, r, str);
  }

  lemma AllDone(s: string, sep: char, done: seq<Piece>, i: nat, token: Option<nat>, r: Piece, str: nat)
    requires i <= |s| && Done(s, sep, done, i) && token == None && IsRun(s, sep, i, token, r, str)
    ensures Runs(s, sep, 0) == done
  {
  }
}
