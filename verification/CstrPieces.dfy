/**
 Which pieces of a string `apr_cstr_split_append` keeps (strings/apr_cstr.c).
 */
module CstrPieces {
  import opened Apr
  import opened CstrTokenize

  predicate IsWhite(c: char) {
    c in " \t\n\r\U{0B}\U{0C}"
  }

  /** `p` is `r` from its first to its last character that is no white space. */
  predicate Cut(s: string, r: Piece, p: Piece) {
    && r.0 <= p.0 < p.1 <= r.1 <= |s| && !IsWhite(s[p.0]) && !IsWhite(s[p.1 - 1])
    && (forall k | r.0 <= k < p.0 :: IsWhite(s[k])) && (forall k | p.1 <= k < r.1 :: IsWhite(s[k]))
  }

  lemma SameWhite(c: char)
    ensures IsSpace(c) <==> IsWhite(c)
  {
  }

  /** Trimming a run cuts it, unless it is all white space. */
  lemma TrimmedIsCut(s: string, r: Piece, p: Piece)
    requires r.0 <= r.1 <= |s|
    ensures var t := Trimmed(s, r, true); t.0 < t.1 && t == p <==> Cut(s, r, p)
  {
    forall c: char { SameWhite(c); }
    hide IsSpace, IsWhite;
    var t := Trimmed(s, r, true);
    var a := TrimLeft(s, r.0, r.1);
    assert t == (a, TrimRight(s, a, r.1));
    if t.0 < t.1 { assert Cut(s, r, t); }
    if Cut(s, r, p) {
      assert a == p.0 && TrimRight(s, a, r.1) == p.1;
    }
  }

  /** What is kept of the first runs. */
  lemma {:induction false} KeptAmong(s: string, rs: seq<Piece>, p: Piece)
    requires forall k | 0 <= k < |rs| :: rs[k].0 <= rs[k].1 <= |s|
    ensures p in Kept(s, rs, true) <==> exists k | 0 <= k < |rs| :: Cut(s, rs[k], p)
    decreases rs
  {
    hide Cut, Trimmed;
    if rs != [] {
      var n := |rs| - 1;
      KeptAmong(s, rs[..n], p);
      TrimmedIsCut(s, rs[n], p);
      assert forall k | 0 <= k < n :: rs[..n][k] == rs[k];
    }
  }

  predicate InOrder(ps: seq<Piece>) {
    forall k, m | 0 <= k < m < |ps| :: ps[k].1 <= ps[m].0
  }

  lemma OneBehind(ps: seq<Piece>, t: Piece)
    requires InOrder(ps) && forall k | 0 <= k < |ps| :: ps[k].1 <= t.0
    ensures InOrder(ps + [t])
  {
  }

  /** Every piece that is kept ends before a run that follows. */
  lemma KeptEnd(s: string, rs: seq<Piece>, p: Piece, next: nat)
    requires forall k | 0 <= k < |rs| :: rs[k].0 <= rs[k].1 <= |s| && rs[k].1 <= next
    requires p in Kept(s, rs, true)
    ensures p.1 <= next
  {
    KeptAmong(s, rs, p);
    hide Kept;
  }

  lemma FrontInOrder(rs: seq<Piece>, n: nat)
    requires InOrder(rs) && n < |rs|
    ensures InOrder(rs[..n]) && forall k | 0 <= k < n :: rs[..n][k] == rs[k] && rs[k].1 <= rs[n].0
  {
  }

  lemma KeptBack(s: string, rs: seq<Piece>)
    requires rs != [] && forall k | 0 <= k < |rs| :: rs[k].0 <= rs[k].1 <= |s|
    ensures var n := |rs| - 1;
            var front, t := Kept(s, rs[..n], true), Trimmed(s, rs[n], true);
            rs[n].0 <= t.0 && (Kept(s, rs, true) == front + [t] || Kept(s, rs, true) == front)
  {
  }

  lemma {:induction false} KeptInOrder(s: string, rs: seq<Piece>)
    requires forall k | 0 <= k < |rs| :: rs[k].0 <= rs[k].1 <= |s|
    requires InOrder(rs)
    ensures InOrder(Kept(s, rs, true))
    decreases rs
  {
    hide *;
    if rs == [] {
      NothingKept(s);
    } else {
      var n := |rs| - 1;
      var front, t := Kept(s, rs[..n], true), Trimmed(s, rs[n], true);
      KeptBack(s, rs);
      FrontInOrder(rs, n);
      KeptInOrder(s, rs[..n]);
      forall k | 0 <= k < |front| ensures front[k].1 <= t.0 { KeptEnd(s, rs[..n], front[k], rs[n].0); }
      OneBehind(front, t);
    }
  }

  lemma NothingKept(s: string)
    ensures InOrder(Kept(s, [], true))
  {
  }

  /** With chopping, the pieces kept are exactly the maximal runs without the separator, cut
      to their first and last other character, in order; runs of white space alone have
      none. Without, they are the runs. */
  lemma KeptAreTheRunsCut(s: string, sep: char)
    ensures forall p: Piece :: p in Kept(s, Runs(s, sep, 0), true) <==>
                               exists r: Piece :: IsMaximalRun(s, sep, r) && Cut(s, r, p)
    ensures InOrder(Kept(s, Runs(s, sep, 0), true))
    ensures Kept(s, Runs(s, sep, 0), false) == Runs(s, sep, 0)
  {
    var rs := Runs(s, sep, 0);
    RunsAreTheMaximalRuns(s, sep);
    hide IsMaximalRun, Runs, Cut;
    forall p: Piece
      ensures p in Kept(s, rs, true) <==> exists r: Piece :: IsMaximalRun(s, sep, r) && Cut(s, r, p)
    {
      KeptAmong(s, rs, p);
      if k :| 0 <= k < |rs| && Cut(s, rs[k], p) { assert rs[k] in rs; }
    }
    KeptInOrder(s, rs);
    AllKept(s, rs);
  }

  lemma {:induction false} AllKept(s: string, rs: seq<Piece>)
    requires forall k | 0 <= k < |rs| :: rs[k].0 < rs[k].1 <= |s|
    ensures Kept(s, rs, false) == rs
    decreases rs
  {
    if rs != [] { AllKept(s, rs[..|rs| - 1]); }
  }
}
