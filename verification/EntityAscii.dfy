/**
 What comes back from `apr_escape_entity` with `toasc` (encoding/apr_escape.c).

 A byte that is not ASCII is written without the semicolon that ends an entity, so the
 next semicolon of the text is taken for it, wherever that stands. Counting
 semicolons shows that such a string never comes back.
 */
module EntityAscii {
  import opened Apr
  import opened EntityEscape
  import opened EntityLaws

  predicate AllAscii(s: string) {
    forall k | 0 <= k < |s| :: IsAscii(s[k])
  }

  /** The set holds `&` and, for C strings of bytes, only characters that come back. */
  predicate Returning(esc: set<char>) {
    '&' in esc && forall c | c in esc :: IsKnown(c) || !(0 < c as int < 256)
  }

  function Semicolons(s: string): nat {
    if s == "" then 0 else (if s[0] == ';' then 1 else 0) + Semicolons(s[1..])
  }

  /** Semicolons and characters that are not ASCII. */
  function Weight(s: string): (w: nat)
    ensures w >= Semicolons(s) && (w == Semicolons(s) ==> AllAscii(s))
  {
    if s == "" then 0 else
    assert forall k | 0 < k < |s| :: s[k] == s[1..][k - 1];
    (if s[0] == ';' || !IsAscii(s[0]) then 1 else 0) + Weight(s[1..])
  }

  lemma {:induction false} NoWeight(s: string)
    requires AllAscii(s) && NoneIs(s, ';')
    ensures Weight(s) == 0
    decreases s
  {
    if s != "" { NoWeight(s[1..]); }
  }

  lemma WeightFront(c: char, s: string)
    ensures Weight([c] + s) == (if c == ';' || !IsAscii(c) then 1 else 0) + Weight(s)
  {
    assert ([c] + s)[1..] == s;
  }

  lemma {:induction false} EscapedIsAscii(s: string, esc: set<char>)
    requires IsBytes(s)
    ensures (forall c | c in esc :: IsAscii(c) || !(0 < c as int < 256)) ==> AllAscii(Escaped(s, esc, true))
    decreases s
  {
    if s != "" {
      EscapedIsAscii(s[1..], esc);
      PieceIsAscii(s[0], esc);
    }
  }

  lemma PieceIsAscii(c: char, esc: set<char>)
    requires c as int < 256
    ensures AllAscii(EscapedChar(c, esc, true))
  {
    if c !in esc && !IsAscii(c) {
      var t := CodeForm(c);
      assert forall k | 2 <= k < |t| :: t[k] == t[2..][k - 2];
    }
  }

  /** A text without semicolons is read as it stands. */
  lemma {:induction false} NoEntityReads(t: string, i: nat)
    requires i <= |t| && EndOfEntity(t, i) == |t|
    ensures ReadFrom(t, i).text == t[i..]
    decreases |t| - i
  {
    if i < |t| {
      hide Named, Numbered;
      NoEntityReads(t, i + 1);
      assert t[i..] == [t[i]] + t[i + 1..];
    }
  }

  lemma Front(u: string, esc: set<char>, t: string, i: nat)
    requires IsByteString(u) && u != "" && i <= |t| && t[i..] == Escaped(u, esc, true)
    ensures IsByteString(u[1..]) && IsBytes(u[1..]) && 0 < u[0] as int < 256
    ensures StandsAt(t, i, EscapedChar(u[0], esc, true), Escaped(u[1..], esc, true))
    ensures Semicolons(u) == (if u[0] == ';' then 1 else 0) + Semicolons(u[1..])
  {
  }

  /** The first semicolon from `i` on ends the piece of some character. It stands for
      itself when only digits come before it. */
  lemma {:induction false} Behind(u: string, esc: set<char>, t: string, i: nat, e: nat) returns (k: nat)
    requires IsByteString(u) && i <= e < |t| && t[i..] == Escaped(u, esc, true)
    requires t[e] == ';' && NoneIs(t[i..e], ';')
    ensures k <= |u| && IsByteString(u[k..]) && t[e + 1..] == Escaped(u[k..], esc, true)
    ensures Semicolons(u) >= Semicolons(u[k..]) + if IsNumber(t[i..e]) then 1 else 0
    decreases |u|
  {
    assert u != "";
    Front(u, esc, t, i);
    var piece := EscapedChar(u[0], esc, true);
    var n := i + |piece|;
    AtEach(t, i, piece, Escaped(u[1..], esc, true));
    if e < n {
      assert t[i + (e - i)] == piece[e - i];
      EndOfPiece(u[0], esc, e - i);
      k := 1;
      if e > i { assert t[i..e][0] == t[i + 0] == piece[0]; }
    } else {
      Later(t, i, n, e);
      k := Behind(u[1..], esc, t, n, e);
      assert u[1..][k..] == u[k + 1..];
      k := k + 1;
    }
  }

  /** A piece holds no semicolon but at its end. */
  lemma EndOfPiece(c: char, esc: set<char>, m: nat)
    requires c as int < 256 && m < |EscapedChar(c, esc, true)| && EscapedChar(c, esc, true)[m] == ';'
    ensures m == |EscapedChar(c, esc, true)| - 1
    ensures if m == 0 then c == ';' else EscapedChar(c, esc, true)[0] == '&'
  {
    if c !in esc && !IsAscii(c) && m >= 2 {
      assert CodeForm(c)[m] == CodeForm(c)[2..][m - 2];
    }
  }

  lemma Later(t: string, i: nat, n: nat, e: nat)
    requires i <= n <= e < |t| && NoneIs(t[i..e], ';')
    ensures NoneIs(t[n..e], ';') && (IsNumber(t[i..e]) ==> IsNumber(t[n..e]))
  {
    assert forall k | 0 <= k < e - n :: t[n..e][k] == t[i..e][n - i + k];
  }

  /** What is read for a byte that is not ASCII: its code stands as it is when no
      semicolon follows; otherwise nothing or one character, up to the next semicolon. */
  lemma CodeReads(c: char, t: string, i: nat, rest: string)
    requires 128 <= c as int < 256 && StandsAt(t, i, CodeForm(c), rest)
    ensures i + 5 <= |t| && t[i + 5..] == rest
    ensures var e := EndOfEntity(t, i + 1);
            if e == |t| then ReadFrom(t, i).text == t[i..] && NoneIs(t[i..], ';')
            else i + 5 <= e && NoneIs(t[i + 5..e], ';')
                 && ReadFrom(t, i).text == (match Numbered(t[i + 2..e]) case Some(x) => [x] case None => "")
                                           + ReadFrom(t, e + 1).text
  {
    hide Numbered, Named;
    AtEach(t, i, CodeForm(c), rest);
    var piece := CodeForm(c);
    assert t[i + 0] == piece[0] && t[i + 1] == piece[1];
    assert t[i + 2] == piece[2] == piece[2..][0] && t[i + 3] == piece[3] == piece[2..][1];
    assert t[i + 4] == piece[4] == piece[2..][2];
    var e := EndOfEntity(t, i + 1);
    assert e >= i + 1 + 4 by { assert t[i + 1] != ';' && t[i + 2] != ';' && t[i + 3] != ';' && t[i + 4] != ';'; }
    if e == |t| {
      NoEntityReads(t, i + 1);
      assert t[i..] == ['&'] + t[i + 1..];
    }
  }

  /** Reading takes a semicolon for every character that is not ASCII. */
  lemma {:induction false} WeightReturned(u: string, esc: set<char>, t: string, i: nat)
    requires IsByteString(u) && Returning(esc) && i <= |t| && t[i..] == Escaped(u, esc, true)
    ensures Weight(ReadFrom(t, i).text) <= Semicolons(u)
    decreases |u|
  {
    hide *;
    if u == "" {
      NothingWeighs(u, esc, t, i);
    } else {
      Front(u, esc, t, i);
      var c, rest := u[0], Escaped(u[1..], esc, true);
      if c in esc || IsAscii(c) {
        CharReads(c, esc, t, i, rest);
        var n := i + |EscapedChar(c, esc, true)|;
        WeightReturned(u[1..], esc, t, n);
        WeightFront(c, ReadFrom(t, n).text);
      } else {
        CodeStands(c, esc, t, i, rest);
        CodeReads(c, t, i, rest);
        var e := EndOfEntity(t, i + 1);
        if e == |t| {
          UnendedWeighs(u, esc, t, i);
        } else {
          var k := Behind(u[1..], esc, t, i + 5, e);
          WeightReturned(u[1..][k..], esc, t, e + 1);
          WeightOfNumber(t, i + 2, i + 5, e, ReadFrom(t, e + 1).text);
        }
      }
    }
  }

  lemma NothingWeighs(u: string, esc: set<char>, t: string, i: nat)
    requires IsByteString(u) && u == "" && i <= |t| && t[i..] == Escaped(u, esc, true)
    ensures Weight(ReadFrom(t, i).text) == 0
  {
    hide PieceAt;
    assert i == |t|;
  }

  lemma CodeStands(c: char, esc: set<char>, t: string, i: nat, rest: string)
    requires c as int < 256 && c !in esc && !IsAscii(c) && StandsAt(t, i, EscapedChar(c, esc, true), rest)
    ensures 128 <= c as int < 256 && StandsAt(t, i, CodeForm(c), rest)
  {
  }

  lemma UnendedWeighs(u: string, esc: set<char>, t: string, i: nat)
    requires IsByteString(u) && Returning(esc) && i <= |t| && t[i..] == Escaped(u, esc, true)
    requires ReadFrom(t, i).text == t[i..] && NoneIs(t[i..], ';')
    ensures Weight(ReadFrom(t, i).text) == 0
  {
    hide ReadFrom, Escaped, Weight;
    EscapedIsAscii(u, esc);
    NoWeight(t[i..]);
  }

  /** Any other character comes back. */
  lemma CharReads(c: char, esc: set<char>, t: string, i: nat, rest: string)
    requires 0 < c as int < 256 && Returning(esc) && (c in esc || IsAscii(c))
    requires StandsAt(t, i, EscapedChar(c, esc, true), rest)
    ensures var n := i + |EscapedChar(c, esc, true)|;
            n <= |t| && t[n..] == rest && ReadFrom(t, i).text == [c] + ReadFrom(t, n).text
    ensures c in esc ==> c != ';' && IsAscii(c)
  {
    hide ReadFrom, StandsAt;
    FirstReads(c, esc, t, i, rest);
  }

  lemma WeightOfNumber(t: string, a: nat, b: nat, e: nat, rest: string)
    requires a <= b <= e <= |t|
    ensures var x := match Numbered(t[a..e]) case Some(x) => [x] case None => "";
            Weight(x + rest) <= Weight(rest) + if IsNumber(t[b..e]) then 1 else 0
  {
    match Numbered(t[a..e])
    case Some(x) =>
      WeightFront(x, rest);
      assert forall k | 0 <= k < e - b :: t[b..e][k] == t[a..e][b - a + k];
    case None => assert "" + rest == rest;
  }

  lemma {:induction false} SameForAscii(s: string, esc: set<char>)
    requires IsByteString(s) && AllAscii(s)
    ensures Escaped(s, esc, true) == Escaped(s, esc, false)
    decreases s
  {
    if s != "" { SameForAscii(s[1..], esc); }
  }

  /** With `toasc` a string comes back exactly when it is ASCII, in which case `toasc`
      does nothing. */
  lemma AsciiReadsBack(s: string, esc: set<char>)
    requires IsByteString(s) && Returning(esc)
    ensures ReadFrom(Escaped(s, esc, true), 0).text == s <==> AllAscii(s)
    ensures AllAscii(s) ==> Escaped(s, esc, true) == Escaped(s, esc, false)
  {
    hide ReadFrom, Escaped;
    if AllAscii(s) {
      SameForAscii(s, esc);
      EntitiesReadBack(s, esc);
    } else {
      assert Escaped(s, esc, true)[0..] == Escaped(s, esc, true);
      WeightReturned(s, esc, Escaped(s, esc, true), 0);
    }
  }
}
