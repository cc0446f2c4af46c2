/**
 What `apr_unescape_entity` reads and how it undoes `apr_escape_entity` (encoding/apr_escape.c).

 With a length a numeric entity counts for one character; with a set that marks `&` an
 escaped text is read piece by piece, one piece for each character it was made of.
 */
module EntityLaws {
  import opened Apr
  import opened EntityEscape

  // ---- Which characters count ----

  /** Without a length, or with one that reaches to the terminator, all of them do. */
  lemma {:induction false} AllIsRead(s: string, i: nat, slen: int)
    requires i <= |s| && (slen < 0 || i + slen >= |s|)
    ensures ReadWith(s, i, slen) == ReadFrom(s, i)
    decreases |s| - i
  {
    hide PieceAt, PieceWith, Cost, CutOff;
    if i < |s| && slen != 0 {
      NotCut(s, i, slen);
      AllIsRead(s, PieceAt(s, i).1, slen - Cost(s, i, slen));
    }
  }

  lemma NotCut(s: string, i: nat, slen: int)
    requires i < |s| && (slen < 0 || i + slen >= |s|)
    ensures PieceWith(s, i, slen) == PieceAt(s, i) && Cost(s, i, slen) <= PieceAt(s, i).1 - i
  {
    hide Named, Numbered, EndOfEntity;
  }

  /** Reading from `i` on meets a numeric entity. */
  predicate MeetsNumber(u: string, i: nat)
    requires i <= |u|
    decreases |u| - i
  {
    i < |u| && (NumberAt(u, i) || MeetsNumber(u, PieceAt(u, i).1))
  }

  /** In a string that begins with `u`, an entity ends within `u` or does not count. */
  lemma EndInFront(u: string, s: string, i: nat)
    requires i <= |u| <= |s| && s[..|u|] == u
    ensures EndOfEntity(u, i) == if EndOfEntity(s, i) < |u| then EndOfEntity(s, i) else |u|
  {
    var e := EndOfEntity(u, i);
    assert forall k | 0 <= k < |u| :: u[k] == s[k];
  }

  lemma PieceInFront(u: string, s: string, i: nat)
    requires i < |u| <= |s| && s[..|u|] == u
    ensures PieceWith(s, i, |u| - i) == PieceAt(u, i)
    ensures !CutOff(s, i, |u| - i) && NumberAt(s, i) <==> NumberAt(u, i)
    ensures NumberAt(u, i) ==> PieceAt(u, i).1 >= i + 2
  {
    hide Named, Numbered, EndOfEntity;
    assert u[i] == s[i];
    if u[i] == '&' {
      EndInFront(u, s, i + 1);
      var e := EndOfEntity(u, i + 1);
      if e < |u| {
        assert u[i + 1] == s[i + 1] && u[i + 1..e] == s[i + 1..e];
        assert i + 2 <= e ==> u[i + 2..e] == s[i + 2..e];
      }
    }
  }

  /** As long as no number is met, the string is read like its front. */
  lemma {:induction false} FrontIsRead(u: string, s: string, i: nat)
    requires i <= |u| <= |s| && s[..|u|] == u && !MeetsNumber(u, i)
    ensures ReadWith(s, i, |u| - i) == ReadFrom(u, i)
    decreases |u| - i
  {
    hide PieceAt, NumberAt, CutOff, PieceWith;
    if i < |u| {
      PieceInFront(u, s, i);
      FrontIsRead(u, s, PieceAt(u, i).1);
    }
  }

  /** Behind a number the length lasts longer than it should: one more letter is read. */
  lemma {:induction false} LetterIsRead(u: string, s: string, i: nat)
    requires i <= |u| && s == u + "x" && MeetsNumber(u, i)
    ensures |ReadWith(s, i, |u| - i).text| == |ReadFrom(u, i).text| + 1
    decreases |u| - i
  {
    hide PieceAt, NumberAt, CutOff, PieceWith;
    PieceInFront(u, s, i);
    var n := PieceAt(u, i).1;
    if NumberAt(u, i) {
      AllIsRead(s, n, |u| - i - 1);
      LetterBehind(u, s, n);
    } else {
      LetterIsRead(u, s, n);
    }
  }

  lemma {:induction false} LetterBehind(u: string, s: string, i: nat)
    requires i <= |u| && s == u + "x"
    ensures |ReadFrom(s, i).text| == |ReadFrom(u, i).text| + 1
    decreases |u| - i
  {
    if i < |u| {
      PieceBehind(u, s, i);
      hide PieceAt;
      LetterBehind(u, s, PieceAt(u, i).1);
    }
  }

  lemma PieceBehind(u: string, s: string, i: nat)
    requires i < |u| && s == u + "x"
    ensures PieceAt(s, i) == PieceAt(u, i)
  {
    PieceInFront(u, s, i);
    EndInFront(u, s, i + 1);
    assert s[|u|] == 'x' && EndOfEntity(s, i + 1) != |u|;
  }

  predicate Begins(s: string, u: string) {
    |u| <= |s| && s[..|u|] == u
  }

  /** With a length only that many characters count, whatever stands behind them,
      exactly when reading them meets no numeric entity. */
  lemma WhenLengthCounts(u: string)
    ensures !MeetsNumber(u, 0) <==> forall s | Begins(s, u) :: ReadWith(s, 0, |u|) == ReadFrom(u, 0)
  {
    hide *;
    if MeetsNumber(u, 0) {
      LetterCounts(u);
    } else {
      forall s | Begins(s, u) ensures ReadWith(s, 0, |u|) == ReadFrom(u, 0) {
        FrontAlone(u, s);
      }
    }
  }

  lemma LetterCounts(u: string)
    requires MeetsNumber(u, 0)
    ensures Begins(u + "x", u) && ReadWith(u + "x", 0, |u|) != ReadFrom(u, 0)
  {
    hide *;
    FrontOfSum(u, "x");
    LetterIsRead(u, u + "x", 0);
  }

  lemma FrontOfSum(u: string, v: string)
    ensures Begins(u + v, u)
  {
  }

  lemma FrontAlone(u: string, s: string)
    requires !MeetsNumber(u, 0) && Begins(s, u)
    ensures ReadWith(s, 0, |u|) == ReadFrom(u, 0)
  {
    assert |u| <= |s| && s[..|u|] == u;
    hide *;
    FrontIsRead(u, s, 0);
  }

  /** Five characters of `&#65;bc`: all seven are read. */
  lemma LengthFive()
    ensures ReadWith("&#65;bc", 0, 5).text == "Abc" && ReadFrom("&#65;", 0).text == "A"
  {
    var s, u := "&#65;bc", "&#65;";
    assert s[..5] == u && u[..5] == u && s[5..] == "bc";
    hide *;
    NumberReads(u, -1);
    AllIsRead(u, 0, -1);
    Nowhere(u, -2);
    NumberThenTwo(s);
  }

  lemma NumberThenTwo(s: string)
    requires |s| == 7 && s[..5] == "&#65;" && s[5..] == "bc"
    ensures ReadWith(s, 0, 5).text == "Abc"
  {
    assert s[5] == s[5..][0] == 'b' && s[6] == s[5..][1] == 'c';
    hide *;
    NumberReads(s, 5);
    LetterWith(s, 5, 4);
    LetterWith(s, 6, 3);
    Nowhere(s, 2);
  }

  lemma Nowhere(s: string, slen: int)
    ensures ReadWith(s, |s|, slen).text == ""
  {
    hide PieceWith, Cost;
  }

  lemma NumberReads(s: string, slen: int)
    requires |s| > 4 && s[..5] == "&#65;" && (slen > 4 || slen < 0)
    ensures ReadWith(s, 0, slen).text == "A" + ReadWith(s, 5, slen - 1).text
  {
    var u := "&#65;";
    assert s[..5][0] == s[0] == '&' && s[..5][1] == s[1] == '#' && s[..5][4] == s[4] == ';';
    assert s[1..4] == u[1..4] && s[2..4] == u[2..4] && u[1..4] == "#65" && u[2..4] == "65";
    EndIs(s, 1, 4);
    SixtyFive();
    hide Numbered, EndOfEntity;
  }

  lemma LetterWith(s: string, i: nat, slen: int)
    requires i < |s| && s[i] != '&' && slen != 0
    ensures ReadWith(s, i, slen).text == [s[i]] + ReadWith(s, i + 1, slen - 1).text
  {
    hide Named, Numbered, EndOfEntity;
  }

  lemma SixtyFive()
    ensures Numbered("65") == Some('A')
  {
    assert "65"[..1] == "6" && "6"[..0] == "";
    assert Value("") == 0 && Value("6") == 6 && Value("65") == 65 && Wrap(65) == 65;
  }

  // ---- Unescaping undoes escaping ----

  /** The characters whose entities are known; `&apos;` is in no list of names. */
  predicate IsKnown(c: char) {
    c == '>' || c == '<' || c == '&' || c == '\"'
  }

  predicate Survives(c: char, esc: set<char>) {
    c in esc ==> IsKnown(c)
  }

  /** What the reading of one escaped character gives. */
  function Returned(c: char, esc: set<char>): Reading {
    if c !in esc then Reading([c], false)
    else if IsKnown(c) then Reading([c], true)
    else Reading(if c == '\'' then "&apos;" else "", false)
  }

  /** The string with its marked apostrophes as `&apos;` and without the marked
      characters that the switch does not know. */
  function Kept(s: string, esc: set<char>): (r: string)
    ensures r == s <==> forall k | 0 <= k < |s| :: Survives(s[k], esc)
    ensures r != "" ==> Survives(r[0], esc)
  {
    if s == "" then "" else
    assert s == [s[0]] + s[1..];
    var rest := Kept(s[1..], esc);
    var r := Returned(s[0], esc).text + rest;
    assert Survives(s[0], esc) && r == s ==> rest == s[1..] by { assert Survives(s[0], esc) ==> r[1..] == rest; }
    r
  }

  predicate Returns(s: string, esc: set<char>) {
    exists k | 0 <= k < |s| :: s[k] in esc && IsKnown(s[k])
  }

  predicate NoneIs(t: string, c: char) {
    forall k | 0 <= k < |t| :: t[k] != c
  }

  lemma AtEach(t: string, i: nat, piece: string, rest: string)
    requires StandsAt(t, i, piece, rest)
    ensures i + |piece| <= |t| && t[i + |piece|..] == rest
    ensures forall k | 0 <= k < |piece| :: t[i + k] == piece[k]
  {
    TailOf(t, i, piece, rest);
  }

  lemma AtParts(t: string, i: nat, a: string, b: string, rest: string)
    requires StandsAt(t, i, a + b, rest)
    ensures StandsAt(t, i, a, b + rest) && StandsAt(t, i + |a|, b, rest)
  {
    assert a + b + rest == a + (b + rest);
    TailOf(t, i, a, b + rest);
  }

  lemma PlainOne(t: string, i: nat)
    requires i < |t| && t[i] != '&'
    ensures ReadFrom(t, i) == Then(Reading([t[i]], false), ReadFrom(t, i + 1))
  {
  }

  lemma Regroup(a: string, b: string, r: Reading)
    ensures Then(Reading(a, false), Then(Reading(b, false), r)) == Then(Reading(a + b, false), r)
    ensures Then(Reading("", false), r) == r
  {
    assert a + (b + r.text) == a + b + r.text;
  }

  lemma FrontOf(plain: string)
    requires plain != ""
    ensures plain == [plain[0]] + plain[1..]
    ensures NoneIs(plain, '&') ==> plain[0] != '&' && NoneIs(plain[1..], '&')
  {
  }

  /** Characters other than `&` stand for themselves. */
  lemma {:induction false} PlainReads(t: string, i: nat, plain: string, rest: string)
    requires StandsAt(t, i, plain, rest) && NoneIs(plain, '&')
    ensures i + |plain| <= |t| && t[i + |plain|..] == rest
    ensures ReadFrom(t, i) == Then(Reading(plain, false), ReadFrom(t, i + |plain|))
    decreases |plain|
  {
    hide *;
    AtEach(t, i, plain, rest);
    if plain == "" {
      Regroup("", "", ReadFrom(t, i));
    } else {
      var front, back := [plain[0]], plain[1..];
      FrontOf(plain);
      AtParts(t, i, front, back, rest);
      assert t[i + 0] == plain[0];
      PlainOne(t, i);
      PlainReads(t, i + 1, back, rest);
      Regroup(front, back, ReadFrom(t, i + |plain|));
    }
  }

  /** The text of an entity. */
  function Entity(name: string): string {
    "&" + (name + ";")
  }

  lemma EndAfter(t: string, i: nat, name: string, rest: string)
    requires StandsAt(t, i, Entity(name), rest) && NoneIs(name, ';')
    ensures i + |name| + 1 < |t| && t[i] == '&'
    ensures EndOfEntity(t, i + 1) == i + 1 + |name| && t[i + 1..i + 1 + |name|] == name
    ensures t[i + |name| + 2..] == rest
  {
    var piece := Entity(name);
    AtEach(t, i, piece, rest);
    assert t[i + 0] == piece[0];
    forall k | 0 <= k < |name| ensures t[i + 1 + k] == name[k] {
      assert t[i + (k + 1)] == piece[k + 1];
    }
    assert t[i + (|name| + 1)] == piece[|name| + 1];
    assert t[i + 1..i + 1 + |name|] == name;
    EndIs(t, i + 1, i + 1 + |name|);
  }

  lemma EndIs(t: string, i: nat, e: nat)
    requires i <= e < |t| && t[e] == ';' && NoneIs(t[i..e], ';')
    ensures EndOfEntity(t, i) == e
  {
    assert forall k | i <= k < e :: t[k] == t[i..e][k - i];
  }

  lemma KnownNames()
    ensures Named("gt") == Some('>') && Named("lt") == Some('<') && Named("amp") == Some('&')
    ensures Named("quot") == Some('\"') && Named("apos") == None
  {
    var two := EntList(2);
    assert two[1..][0] == ("gt", '>');
    var four := EntList(4);
    forall k | 0 <= k < |four| ensures four[k].0 != "apos" {
      assert four[k].0[0] != 'a' || four[k].0[1] != 'p';
    }
  }

  /** A known entity is read as its character; an unknown one keeps its `&`, and
      reading goes on behind that. */
  lemma {:induction false} EntityReads(t: string, i: nat, name: string, rest: string)
    requires StandsAt(t, i, Entity(name), rest) && NoneIs(name, ';') && name != "" && name[0] != '#'
    ensures var n := i + |name| + 2;
            && n <= |t| && t[n..] == rest
            && ReadFrom(t, i) == match Named(name)
                                 case Some(c) => Then(Reading([c], true), ReadFrom(t, n))
                                 case None => Then(Reading("&", false), ReadFrom(t, i + 1))
  {
    hide Named, Entity, StandsAt, Then;
    EndAfter(t, i, name, rest);
    assert t[i + 1] == t[i + 1..i + 1 + |name|][0];
  }

  lemma UnknownReads(t: string, i: nat, name: string, rest: string)
    requires StandsAt(t, i, Entity(name), rest) && NoneIs(name, ';') && NoneIs(name + ";", '&') && name != ""
    requires Named(name) == None && name[0] != '#'
    ensures var n := i + |name| + 2;
            n <= |t| && t[n..] == rest && ReadFrom(t, i) == Then(Reading(Entity(name), false), ReadFrom(t, n))
  {
    hide NoneIs, Named, StandsAt, ReadFrom, Then;
    EntityReads(t, i, name, rest);
    AtParts(t, i, "&", name + ";", rest);
    PlainReads(t, i + 1, name + ";", rest);
    Regroup("&", name + ";", ReadFrom(t, i + |name| + 2));
  }

  lemma KnownReads(c: char, esc: set<char>, t: string, i: nat, rest: string)
    requires c as int < 256 && c in esc && InSwitch(c) && StandsAt(t, i, EscapedChar(c, esc, false), rest)
    ensures var n := i + |EscapedChar(c, esc, false)|;
            n <= |t| && t[n..] == rest && ReadFrom(t, i) == Then(Returned(c, esc), ReadFrom(t, n))
  {
    hide Named, EntList, ReadFrom, StandsAt, Then;
    KnownNames();
    var name := match c case '>' => "gt" case '<' => "lt" case '&' => "amp" case '\"' => "quot" case _ => "apos";
    assert EscapedChar(c, esc, false) == Entity(name);
    if c == '\'' {
      UnknownReads(t, i, name, rest);
    } else {
      EntityReads(t, i, name, rest);
    }
  }

  lemma {:induction false} FirstReads(c: char, esc: set<char>, t: string, i: nat, rest: string)
    requires c as int < 256 && '&' in esc && StandsAt(t, i, EscapedChar(c, esc, false), rest)
    ensures var n := i + |EscapedChar(c, esc, false)|;
            n <= |t| && t[n..] == rest && ReadFrom(t, i) == Then(Returned(c, esc), ReadFrom(t, n))
  {
    hide ReadFrom, Escaped, Then, StandsAt;
    if c in esc && InSwitch(c) {
      KnownReads(c, esc, t, i, rest);
    } else if c in esc {
      PlainReads(t, i, "", rest);
    } else {
      PlainReads(t, i, [c], rest);
    }
  }

  lemma {:induction false} EscapedReadsFrom(s: string, esc: set<char>, t: string, i: nat)
    requires IsBytes(s) && '&' in esc && i <= |t| && t[i..] == Escaped(s, esc, false)
    ensures ReadFrom(t, i) == Reading(Kept(s, esc), Returns(s, esc))
    decreases |s|
  {
    hide *;
    if s == "" {
      NothingReads(esc, t, i);
    } else {
      FrontStands(s, esc, t, i);
      FirstReads(s[0], esc, t, i, Escaped(s[1..], esc, false));
      EscapedReadsFrom(s[1..], esc, t, i + |EscapedChar(s[0], esc, false)|);
      ReturnsFront(s, esc);
    }
  }

  lemma FrontStands(s: string, esc: set<char>, t: string, i: nat)
    requires IsBytes(s) && s != "" && i <= |t| && t[i..] == Escaped(s, esc, false)
    ensures IsBytes(s[1..]) && s[0] as int < 256
    ensures StandsAt(t, i, EscapedChar(s[0], esc, false), Escaped(s[1..], esc, false))
  {
  }

  lemma NothingReads(esc: set<char>, t: string, i: nat)
    requires i <= |t| && IsBytes("") && t[i..] == Escaped("", esc, false)
    ensures ReadFrom(t, i) == Reading(Kept("", esc), Returns("", esc))
  {
    hide PieceAt;
    assert i == |t|;
  }

  lemma ReturnsFront(s: string, esc: set<char>)
    requires s != ""
    ensures Reading(Kept(s, esc), Returns(s, esc))
            == Then(Returned(s[0], esc), Reading(Kept(s[1..], esc), Returns(s[1..], esc)))
  {
    assert forall k | 0 < k < |s| :: s[k] == s[1..][k - 1];
  }

  /** Under a set that holds `&`, unescaping what was escaped gives the string exactly
      when no character of it is marked but those whose entities are known. */
  lemma EntitiesReadBack(s: string, esc: set<char>)
    requires IsBytes(s) && '&' in esc
    ensures ReadFrom(Escaped(s, esc, false), 0) == Reading(Kept(s, esc), Returns(s, esc))
    ensures ReadFrom(Escaped(s, esc, false), 0).text == s <==> forall k | 0 <= k < |s| :: Survives(s[k], esc)
    ensures ReadFrom(Escaped(s, esc, false), 0).text == s ==>
              ReadFrom(Escaped(s, esc, false), 0).found == Changes(s, esc, false)
  {
    assert Escaped(s, esc, false)[0..] == Escaped(s, esc, false);
    EscapedReadsFrom(s, esc, Escaped(s, esc, false), 0);
  }

  /** Under another set `&lt;` is read as `<`, or some character is lost. */
  lemma Misread(esc: set<char>) returns (s: string)
    requires !('&' in esc && forall c | c in esc :: IsKnown(c) || !(0 < c as int < 256))
    ensures IsByteString(s) && ReadFrom(Escaped(s, esc, false), 0).text != s
  {
    if c :| c in esc && 0 < c as int < 256 && !IsKnown(c) {
      s := [c];
      LostChar(c, esc);
    } else {
      s := "&lt;";
      LtStays(esc);
    }
  }

  lemma LostChar(c: char, esc: set<char>)
    requires c as int < 256 && c in esc && !IsKnown(c)
    ensures ReadFrom(Escaped([c], esc, false), 0).text != [c]
  {
    var t := EscapedChar(c, esc, false);
    assert Escaped([c], esc, false) == t by { assert [c][1..] == ""; }
    if c == '\'' {
      hide *;
      AposReads(t);
    } else {
      assert ReadFrom(t, 0) == NOTHING;
    }
  }

  lemma AposReads(t: string)
    requires t == "&apos;"
    ensures |ReadFrom(t, 0).text| >= 6
  {
    KnownNames();
    AposStands();
    hide Named, ReadFrom, StandsAt, NoneIs;
    UnknownReads(t, 0, "apos", "");
  }

  lemma AposStands()
    ensures StandsAt("&apos;", 0, Entity("apos"), "") && NoneIs("apos", ';') && NoneIs("apos" + ";", '&')
  {
    assert "&apos;"[0..] == Entity("apos") + "";
  }

  lemma LtStands()
    ensures StandsAt("&lt;", 0, Entity("lt"), "") && NoneIs("lt", ';')
  {
    assert "&lt;"[0..] == Entity("lt") + "";
  }

  lemma LtStays(esc: set<char>)
    requires '&' !in esc && forall c | c in esc :: IsKnown(c) || !(0 < c as int < 256)
    ensures ReadFrom(Escaped("&lt;", esc, false), 0).text != "&lt;"
  {
    var s := "&lt;";
    assert forall k | 0 <= k < |s| :: s[k] !in esc;
    hide *;
    AllStay(s, esc);
    LtReads();
  }

  lemma LtReads()
    ensures ReadFrom("&lt;", 0).text == "<"
  {
    KnownNames();
    LtStands();
    hide *;
    EntityReads("&lt;", 0, "lt", "");
    NothingRead("&lt;", '<');
  }

  lemma {:induction false} AllStay(s: string, esc: set<char>)
    requires IsBytes(s) && forall k | 0 <= k < |s| :: s[k] !in esc
    ensures Escaped(s, esc, false) == s
    decreases s
  {
    if s != "" {
      AllStay(s[1..], esc);
      assert s == [s[0]] + s[1..];
    }
  }

  lemma NothingRead(t: string, c: char)
    ensures Then(Reading([c], true), ReadFrom(t, |t|)).text == [c]
  {
    hide PieceAt;
  }

  /** Every string comes back exactly when the set holds `&` and nothing but characters
      whose entities are known; a C string holds no zero. */
  lemma WhenEntitiesReadBack(esc: set<char>)
    ensures '&' in esc && (forall c | c in esc :: IsKnown(c) || !(0 < c as int < 256))
            <==> forall s | IsByteString(s) :: ReadFrom(Escaped(s, esc, false), 0).text == s
  {
    if '&' in esc && forall c | c in esc :: IsKnown(c) || !(0 < c as int < 256) {
      forall s | IsByteString(s) ensures ReadFrom(Escaped(s, esc, false), 0).text == s {
        EntitiesReadBack(s, esc);
      }
    } else {
      var s := Misread(esc);
    }
  }
}
