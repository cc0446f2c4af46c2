/**
 When the two passes of `apr_unescape_url` (encoding/apr_escape.c) agree.
 */
module UrlPasses {
  import opened Apr
  import opened UrlEscape

  // For a terminated string they always do. With a length they stop at different
  // places after an escape that stays: for it the writing pass takes less off the
  // length.

  /** Where the pieces from `i` on begin, each with the number of escapes before it that
      stay, of which there are `stay` so far. */
  function Cuts(
    s: string, i: nat, stay: nat, forbid: string, reserved: string, plus: bool): (cs: seq<(nat, nat)>)
    requires i <= |s|
    ensures forall k | 0 <= k < |cs| :: i <= cs[k].0 < |s|
    decreases |s| - i
  {
    if i == |s| then [] else
    var n := PieceAt(s, i, forbid, reserved, plus).1;
    [(i, stay)] + Cuts(s, n, if StaysAt(s, i, forbid, reserved) then stay + 1 else stay, forbid, reserved, plus)
  }

  /** The counting pass stops in front of this piece; the writing pass does. */
  predicate CountingStops(c: (nat, nat), slen: int) { c.0 == slen }

  predicate WritingStops(c: (nat, nat), slen: int) { c.0 - 2 * c.1 == slen }

  predicate StopAlike(cs: seq<(nat, nat)>, slen: int) {
    forall k | 0 <= k < |cs| :: CountingStops(cs[k], slen) <==> WritingStops(cs[k], slen)
  }

  lemma OneMoreCut(c: (nat, nat), cs: seq<(nat, nat)>, slen: int)
    ensures StopAlike([c] + cs, slen) <==>
            (CountingStops(c, slen) <==> WritingStops(c, slen)) && StopAlike(cs, slen)
  {
    assert forall k | 0 <= k < |cs| :: ([c] + cs)[k + 1] == cs[k];
    if StopAlike([c] + cs, slen) {
      assert ([c] + cs)[0] == c;
      forall k | 0 <= k < |cs| ensures CountingStops(cs[k], slen) <==> WritingStops(cs[k], slen) {
        assert ([c] + cs)[k + 1] == cs[k];
      }
    }
  }

  /** Both passes move on with every piece: what each has taken off `slen` grows. */
  lemma {:induction false} CutsMoveOn(
    s: string, i: nat, stay: nat, forbid: string, reserved: string, plus: bool, slen: int)
    requires i <= |s| && slen < i && slen < i - 2 * stay
    ensures StopAlike(Cuts(s, i, stay, forbid, reserved, plus), slen)
    decreases |s| - i
  {
    hide PieceAt, StopAlike;
    if i < |s| {
      var n := PieceAt(s, i, forbid, reserved, plus).1;
      var next := if StaysAt(s, i, forbid, reserved) then stay + 1 else stay;
      if StaysAt(s, i, forbid, reserved) { StaysLong(s, i, forbid, reserved, plus); }
      hide StaysAt;
      CutsMoveOn(s, n, next, forbid, reserved, plus, slen);
      OneMoreCut((i, stay), Cuts(s, n, next, forbid, reserved, plus), slen);
    } else {
      NoCuts(slen);
    }
  }

  lemma NoCuts(slen: int)
    ensures StopAlike([], slen)
  {
  }

  lemma StaysLong(s: string, i: nat, forbid: string, reserved: string, plus: bool)
    requires i < |s| && StaysAt(s, i, forbid, reserved)
    ensures PieceAt(s, i, forbid, reserved, plus).1 == i + 3
  {
  }

  /** What both passes still read from `i` on. */
  lemma {:induction false} SameFrom(
    s: string, i: nat, stay: nat, slen: int, forbid: string, reserved: string, plus: bool)
    requires i <= |s|
    ensures var w := ReadWith(s, i, slen - (i - 2 * stay), forbid, reserved, plus, false);
            var c := ReadWith(s, i, slen - i, forbid, reserved, plus, true);
            if StopAlike(Cuts(s, i, stay, forbid, reserved, plus), slen) then w == c else |w.text| != |c.text|
    decreases |s| - i
  {
    hide StopAlike, PieceAt;
    if i == |s| {
      NoCuts(slen);
    } else {
      var (piece, n) := PieceAt(s, i, forbid, reserved, plus);
      var next := if StaysAt(s, i, forbid, reserved) then stay + 1 else stay;
      if StaysAt(s, i, forbid, reserved) { StaysLong(s, i, forbid, reserved, plus); }
      var rest := Cuts(s, n, next, forbid, reserved, plus);
      OneMoreCut((i, stay), rest, slen);
      if slen == i && stay == 0 {
        CutsMoveOn(s, n, next, forbid, reserved, plus, slen);
      } else {
        SameFrom(s, n, next, slen, forbid, reserved, plus);
      }
    }
  }

  /** The passes give the same size exactly when at every piece both stop or neither
      does, and then they give the same status. */
  lemma WhenPassesAgree(s: string, slen: int, forbid: string, reserved: string, plus: bool)
    ensures var w := ReadWith(s, 0, slen, forbid, reserved, plus, false);
            var c := ReadWith(s, 0, slen, forbid, reserved, plus, true);
            var alike := StopAlike(Cuts(s, 0, 0, forbid, reserved, plus), slen);
            (|w.text| == |c.text| <==> alike) && (alike ==> StatusOf(w) == StatusOf(c))
  {
    SameFrom(s, 0, 0, slen, forbid, reserved, plus);
  }

  /** So always, when the length reaches to the end of the string. */
  lemma LongEnough(s: string, slen: int, forbid: string, reserved: string, plus: bool)
    requires slen >= |s|
    ensures ReadWith(s, 0, slen, forbid, reserved, plus, false) == ReadWith(s, 0, slen, forbid, reserved, plus, true)
  {
    SameFrom(s, 0, 0, slen, forbid, reserved, plus);
  }

  /** And always, when the string is read to its terminator. */
  lemma StringMode(s: string, slen: int, forbid: string, reserved: string, plus: bool, counting: bool)
    requires slen < 0
    ensures ReadWith(s, 0, slen, forbid, reserved, plus, counting) == ReadFrom(s, 0, forbid, reserved, plus)
  {
    NegativeFrom(s, 0, slen, forbid, reserved, plus, counting);
  }

  lemma {:induction false} NegativeFrom(
    s: string, i: nat, slen: int, forbid: string, reserved: string, plus: bool, counting: bool)
    requires i <= |s| && slen < 0
    ensures ReadWith(s, i, slen, forbid, reserved, plus, counting) == ReadFrom(s, i, forbid, reserved, plus)
    decreases |s| - i
  {
    hide PieceAt, Cost;
    if i < |s| {
      var n := PieceAt(s, i, forbid, reserved, plus).1;
      NegativeFrom(s, n, slen - Cost(s, i, forbid, reserved, plus, counting), forbid, reserved, plus, counting);
    }
  }

  /** Three characters of `%2Fab`, where the slash is reserved: one pass stops behind the
      escape, the other goes on to the end. */
  lemma LengthThree()
    ensures ReadWith("%2Fab", 0, 3, "", "/", false, true).text == "%2F"
    ensures ReadWith("%2Fab", 0, 3, "", "/", false, false).text == "%2Fab"
  {
    var s := "%2Fab";
    Slash();
    ThreePieces();
    hide PieceAt, FromHex;
    assert Cost(s, 0, "", "/", false, true) == 3 && Cost(s, 0, "", "/", false, false) == 1;
    hide StaysAt, Cost;
    assert ReadWith(s, 3, 0, "", "/", false, true) == NOTHING;
    assert ReadWith(s, 5, 0, "", "/", false, false) == NOTHING;
    assert ReadWith(s, 4, 1, "", "/", false, false).text == "b" by { CostOfOne(s, 4); }
    assert ReadWith(s, 3, 2, "", "/", false, false).text == "ab" by { CostOfOne(s, 3); }
  }

  lemma Slash()
    ensures FromHex('2', 'F') == '/' && StaysAt("%2Fab", 0, "", "/")
  {
    hide FromHex;
    assert HexValue('2') == 2 && HexValue('F') == 15;
  }

  lemma ThreePieces()
    ensures PieceAt("%2Fab", 0, "", "/", false) == (Reading("%2F", false, false, false), 3)
    ensures PieceAt("%2Fab", 3, "", "/", false) == (Reading("a", false, false, false), 4)
    ensures PieceAt("%2Fab", 4, "", "/", false) == (Reading("b", false, false, false), 5)
  {
    Slash();
    hide FromHex;
    assert "%2Fab"[0..3] == "%2F";
  }

  lemma CostOfOne(s: string, i: nat)
    requires i < |s| && PieceAt(s, i, "", "/", false).1 == i + 1
    ensures Cost(s, i, "", "/", false, false) == 1
  {
  }
}
