/**
 The status of `apr_unescape_url` in terms of the characters of the url (encoding/apr_escape.c).
 */
module UrlStatus {
  import opened Apr
  import opened UrlEscape

  // ---- The characters ----

  predicate IsFigure(c: char) {
    c in "0123456789ABCDEFabcdef"
  }

  /** The number a hexadecimal figure stands for. */
  function Number(c: char): (n: nat)
    requires IsFigure(c)
    ensures n < 16
  {
    if c <= '9' then c as int - 48 else if c <= 'F' then c as int - 55 else c as int - 87
  }

  /** Two hexadecimal figures stand behind the place `k`. */
  predicate TwoFigures(s: string, k: nat) {
    k + 2 < |s| && IsFigure(s[k + 1]) && IsFigure(s[k + 2])
  }

  function CodeAt(s: string, k: nat): (n: nat)
    requires TwoFigures(s, k)
    ensures n < 256
  {
    16 * Number(s[k + 1]) + Number(s[k + 2])
  }

  predicate CodeIn(s: string, k: nat, list: string)
    requires TwoFigures(s, k)
  {
    exists m | 0 <= m < |list| :: list[m] as int == CodeAt(s, k)
  }

  predicate Broken(s: string, k: nat) {
    k < |s| && s[k] == '%' && !TwoFigures(s, k)
  }

  /** An escape of the character 0 or of one in `forbid`. */
  predicate Forbidden(s: string, k: nat, forbid: string) {
    k < |s| && s[k] == '%' && TwoFigures(s, k) && (CodeAt(s, k) == 0 || CodeIn(s, k, forbid))
  }

  /** An escape that stays, since its character is reserved. */
  predicate Kept(s: string, k: nat, forbid: string, reserved: string) {
    && k < |s| && s[k] == '%' && TwoFigures(s, k)
    && CodeAt(s, k) != 0 && !CodeIn(s, k, forbid) && CodeIn(s, k, reserved)
  }

  /** An escape of any other character, or under `plus` a plus sign. */
  predicate Decoded(s: string, k: nat, forbid: string, reserved: string, plus: bool) {
    k < |s| &&
    if s[k] == '%' then TwoFigures(s, k) && !Forbidden(s, k, forbid) && !Kept(s, k, forbid, reserved)
    else plus && s[k] == '+'
  }

  /** Where the pieces begin that a pass reads from `i` on: one piece is an escape with its
      figures, or one character. The length counts them in full, but for the writing pass
      an escape that stays counts as one. */
  function Places(s: string, i: nat, slen: int, forbid: string, reserved: string, counting: bool): (ps: seq<nat>)
    requires i <= |s|
    ensures forall k | k in ps :: i <= k < |s|
    decreases |s| - i
  {
    if i == |s| || slen == 0 then []
    else if s[i] == '%' && TwoFigures(s, i) then
      var taken := if !counting && Kept(s, i, forbid, reserved) then 1 else 3;
      [i] + Places(s, i + 3, slen - taken, forbid, reserved, counting)
    else [i] + Places(s, i + 1, slen - 1, forbid, reserved, counting)
  }

  // ---- They are what the passes go by ----

  lemma SameCode(s: string, k: nat)
    ensures TwoFigures(s, k) <==> EscapeAt(s, k)
    ensures TwoFigures(s, k) ==> FromHex(s[k + 1], s[k + 2]) as int == CodeAt(s, k)
  {
    if k + 2 < |s| {
      SameNumber(s[k + 1]);
      SameNumber(s[k + 2]);
    }
    hide IsHex, IsFigure, HexValue, Number;
  }

  lemma SameNumber(c: char)
    ensures IsFigure(c) <==> IsHex(c)
    ensures IsFigure(c) ==> Number(c) == HexValue(c)
  {
  }

  /** One piece. */
  lemma PieceIs(s: string, i: nat, forbid: string, reserved: string, plus: bool)
    requires i < |s|
    ensures var (piece, n) := PieceAt(s, i, forbid, reserved, plus);
            && n == (if s[i] == '%' && TwoFigures(s, i) then i + 3 else i + 1)
            && piece.badEsc == Broken(s, i) && piece.badPath == Forbidden(s, i, forbid)
            && piece.found == Decoded(s, i, forbid, reserved, plus)
    ensures StaysAt(s, i, forbid, reserved) <==> Kept(s, i, forbid, reserved)
  {
    SameCode(s, i);
    hide IsHex, IsFigure, FromHex, CodeAt;
    if s[i] == '%' && TwoFigures(s, i) {
      var c := FromHex(s[i + 1], s[i + 2]);
      assert c in forbid <==> CodeIn(s, i, forbid);
      assert c in reserved <==> CodeIn(s, i, reserved);
    }
  }

  /** What is written for it. */
  lemma PieceWrites(s: string, i: nat, forbid: string, reserved: string, plus: bool)
    requires i < |s|
    ensures PieceAt(s, i, forbid, reserved, plus).0.text ==
              if plus && s[i] == '+' then " "
              else if s[i] != '%' || !TwoFigures(s, i) then [s[i]]
              else if Kept(s, i, forbid, reserved) then s[i..i + 3]
              else [CodeAt(s, i) as char]
  {
    SameCode(s, i);
    PieceIs(s, i, forbid, reserved, plus);
    hide IsHex, IsFigure, FromHex, CodeAt, Kept;
  }

  predicate AnyBroken(s: string, ps: seq<nat>) {
    exists k | k in ps :: Broken(s, k)
  }

  predicate AnyForbidden(s: string, ps: seq<nat>, forbid: string) {
    exists k | k in ps :: Forbidden(s, k, forbid)
  }

  predicate AnyDecoded(s: string, ps: seq<nat>, forbid: string, reserved: string, plus: bool) {
    exists k | k in ps :: Decoded(s, k, forbid, reserved, plus)
  }

  /** The three flags of a pass: whether the places hold one of each kind. */
  lemma {:induction false} FlagsAre(
    s: string, i: nat, slen: int, forbid: string, reserved: string, plus: bool, counting: bool)
    requires i <= |s|
    ensures var r := ReadWith(s, i, slen, forbid, reserved, plus, counting);
            var ps := Places(s, i, slen, forbid, reserved, counting);
            && r.badEsc == AnyBroken(s, ps) && r.badPath == AnyForbidden(s, ps, forbid)
            && r.found == AnyDecoded(s, ps, forbid, reserved, plus)
    decreases |s| - i
  {
    if i < |s| && slen != 0 {
      var n := PieceAt(s, i, forbid, reserved, plus).1;
      var left := slen - Cost(s, i, forbid, reserved, plus, counting);
      FirstPlace(s, i, slen, forbid, reserved, plus, counting);
      PieceIs(s, i, forbid, reserved, plus);
      hide *;
      FlagsAre(s, n, left, forbid, reserved, plus, counting);
      AnyOf(s, i, Places(s, n, left, forbid, reserved, counting), forbid, reserved, plus);
      FlagsThen(PieceAt(s, i, forbid, reserved, plus).0, ReadWith(s, n, left, forbid, reserved, plus, counting));
    } else {
      assert Places(s, i, slen, forbid, reserved, counting) == [];
    }
  }

  /** One place and the rest. */
  lemma FirstPlace(s: string, i: nat, slen: int, forbid: string, reserved: string, plus: bool, counting: bool)
    requires i < |s| && slen != 0
    ensures var (piece, n) := PieceAt(s, i, forbid, reserved, plus);
            var left := slen - Cost(s, i, forbid, reserved, plus, counting);
            && Places(s, i, slen, forbid, reserved, counting) == [i] + Places(s, n, left, forbid, reserved, counting)
            && ReadWith(s, i, slen, forbid, reserved, plus, counting)
               == Then(piece, ReadWith(s, n, left, forbid, reserved, plus, counting))
  {
    FirstRead(s, i, slen, forbid, reserved, plus, counting);
    EndIs(s, i, forbid, reserved, plus);
    CostIs(s, i, forbid, reserved, plus, counting);
    var n := PieceAt(s, i, forbid, reserved, plus).1;
    var cost := Cost(s, i, forbid, reserved, plus, counting);
    hide *;
    PlacesFrom(s, i, n, slen, cost, forbid, reserved, counting);
  }

  lemma EndIs(s: string, i: nat, forbid: string, reserved: string, plus: bool)
    requires i < |s|
    ensures PieceAt(s, i, forbid, reserved, plus).1 == if s[i] == '%' && TwoFigures(s, i) then i + 3 else i + 1
  {
    PieceIs(s, i, forbid, reserved, plus);
    hide PieceAt, TwoFigures;
  }

  lemma PlacesFrom(
    s: string, i: nat, n: nat, slen: int, cost: nat, forbid: string, reserved: string, counting: bool)
    requires i < n <= |s| && slen != 0
    requires n == if s[i] == '%' && TwoFigures(s, i) then i + 3 else i + 1
    requires cost == if s[i] == '%' && TwoFigures(s, i)
                     then if !counting && Kept(s, i, forbid, reserved) then 1 else 3
                     else 1
    ensures Places(s, i, slen, forbid, reserved, counting)
            == [i] + Places(s, n, slen - cost, forbid, reserved, counting)
  {
    hide Kept, TwoFigures;
  }

  lemma CostIs(s: string, i: nat, forbid: string, reserved: string, plus: bool, counting: bool)
    requires i < |s|
    ensures Cost(s, i, forbid, reserved, plus, counting)
            == if s[i] == '%' && TwoFigures(s, i)
               then if !counting && Kept(s, i, forbid, reserved) then 1 else 3
               else 1
  {
    PieceIs(s, i, forbid, reserved, plus);
    hide PieceAt, StaysAt, TwoFigures;
  }

  lemma FirstRead(s: string, i: nat, slen: int, forbid: string, reserved: string, plus: bool, counting: bool)
    requires i < |s| && slen != 0
    ensures var (piece, n) := PieceAt(s, i, forbid, reserved, plus);
            var left := slen - Cost(s, i, forbid, reserved, plus, counting);
            ReadWith(s, i, slen, forbid, reserved, plus, counting)
            == Then(piece, ReadWith(s, n, left, forbid, reserved, plus, counting))
  {
    hide PieceAt, Cost, Then;
  }

  lemma FlagsThen(a: Reading, b: Reading)
    ensures var r := Then(a, b);
            && r.badEsc == (a.badEsc || b.badEsc) && r.badPath == (a.badPath || b.badPath)
            && r.found == (a.found || b.found)
  {
  }

  lemma AnyOf(s: string, i: nat, rest: seq<nat>, forbid: string, reserved: string, plus: bool)
    ensures AnyBroken(s, [i] + rest) <==> Broken(s, i) || AnyBroken(s, rest)
    ensures AnyForbidden(s, [i] + rest, forbid) <==> Forbidden(s, i, forbid) || AnyForbidden(s, rest, forbid)
    ensures AnyDecoded(s, [i] + rest, forbid, reserved, plus)
            <==> Decoded(s, i, forbid, reserved, plus) || AnyDecoded(s, rest, forbid, reserved, plus)
  {
    hide Broken, Forbidden, Decoded;
    assert forall k :: k in [i] + rest <==> k == i || k in rest;
  }

  /** APR_EINVAL exactly when at some place a `%` lacks its figures; otherwise APR_BADCH
      exactly when some escape is of the character 0 or a forbidden one; otherwise
      APR_NOTFOUND exactly when nothing was decoded. */
  lemma StatusIs(s: string, slen: int, forbid: string, reserved: string, plus: bool, counting: bool)
    ensures var status := StatusOf(ReadWith(s, 0, slen, forbid, reserved, plus, counting));
            var ps := Places(s, 0, slen, forbid, reserved, counting);
            var broken, bad := AnyBroken(s, ps), AnyForbidden(s, ps, forbid);
            var decoded := AnyDecoded(s, ps, forbid, reserved, plus);
            && (status == Einval <==> broken)
            && (status == BadCh <==> !broken && bad)
            && (status == NotFound <==> !broken && !bad && !decoded)
            && (status == Success <==> !broken && !bad && decoded)
  {
    FlagsAre(s, 0, slen, forbid, reserved, plus, counting);
  }

  /** A slash that is forbidden, the character 0, and a `%` with one figure. */
  lemma ThreeUrls()
    ensures StatusOf(ReadFrom("%2F", 0, "/", "", false)) == BadCh
    ensures StatusOf(ReadFrom("%00", 0, "", "", false)) == BadCh
    ensures StatusOf(ReadFrom("%4", 0, "", "", false)) == Einval
  {
    PieceIs("%2F", 0, "/", "", false);
    PieceIs("%00", 0, "", "", false);
    PieceIs("%4", 0, "", "", false);
    assert Number('2') == 2 && Number('F') == 15 && Number('0') == 0;
    assert CodeAt("%2F", 0) == 47 && CodeAt("%00", 0) == 0;
    assert "/"[0] as int == CodeAt("%2F", 0);
    assert Broken("%4", 0) && Forbidden("%2F", 0, "/") && Forbidden("%00", 0, "");
    hide PieceAt;
    assert ReadFrom("%2F", 3, "/", "", false) == NOTHING && ReadFrom("%00", 3, "", "", false) == NOTHING;
  }

  /** A terminated string without errors is changed exactly when the status is
      APR_SUCCESS. */
  lemma ChangedMeansSuccess(s: string, forbid: string, reserved: string, plus: bool)
    ensures var r := ReadFrom(s, 0, forbid, reserved, plus);
            && (StatusOf(r) == NotFound ==> r.text == s) && (StatusOf(r) == Success ==> r.text != s)
  {
    ChangedFrom(s, 0, forbid, reserved, plus);
    assert s[0..] == s;
  }

  lemma {:induction false} ChangedFrom(s: string, i: nat, forbid: string, reserved: string, plus: bool)
    requires i <= |s|
    ensures var r := ReadFrom(s, i, forbid, reserved, plus);
            |r.text| <= |s| - i && (!r.badPath ==> (r.found <==> r.text != s[i..]))
    decreases |s| - i
  {
    if i < |s| {
      var (piece, n) := PieceAt(s, i, forbid, reserved, plus);
      PieceText(s, i, forbid, reserved, plus);
      hide PieceAt;
      ChangedFrom(s, n, forbid, reserved, plus);
      assert s[i..] == s[i..n] + s[n..];
      SamePart(piece.text, ReadFrom(s, n, forbid, reserved, plus).text, s[i..n], s[n..]);
    }
  }

  /** A piece is shorter than what it stands for, or as long and the same unless it is a
      plus sign. */
  lemma PieceText(s: string, i: nat, forbid: string, reserved: string, plus: bool)
    requires i < |s|
    ensures var (piece, n) := PieceAt(s, i, forbid, reserved, plus);
            |piece.text| <= n - i && (!piece.badPath ==> (piece.found <==> piece.text != s[i..n]))
  {
  }
}
