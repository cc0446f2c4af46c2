/**
 Which character of ISO 8859-1 each entity name stands for (encoding/apr_escape.c).

 The table lists the names by their lengths, each followed by its character. Here every
 name has its code, and the other way round the rows C to F of ISO 8859-1 have their names
 in order; two of these characters, the multiplication and the division sign, have none.
 The search goes through the list of one length from its beginning, so that an entry is
 found if no entry before it has the same name.
 */
module EntityNames {
  import opened Apr
  import opened EntityEscape
  import opened EntityLaws

  // ---- Each entry is found ----

  /** The codes by the first two letters of the names. */
  function Rule(a: char, b: char): int {
    if a == 'l' then 60 else if a == 'g' then 62 else if a == 'q' then 34
    else if a == 'a' && b == 'm' then 38 else if a == 's' then 0xDF
    else if 'a' <= a <= 'z' then CapitalRule((a as int - 32) as char, b) + 32
    else CapitalRule(a, b)
  }

  /** For a capital: the first code of the letter, and how far from it the accent stands. */
  function CapitalRule(a: char, b: char): int {
    if a == 'T' then 0xDE else if a == 'E' && (b == 'T' || b == 't') then 0xD0
    else if a == 'C' then 0xC7 else if a == 'N' then 0xD1
    else if a == 'Y' then (if b == 'u' then 0xDF else 0xDD)
    else Anchor(a) + Offset(a, b)
  }

  function Anchor(a: char): int {
    if a == 'A' then 0xC0 else if a == 'E' then 0xC8 else if a == 'I' then 0xCC
    else if a == 'O' then 0xD2 else if a == 'U' then 0xD9 else 0
  }

  function Offset(a: char, b: char): int {
    if b == 'g' then 0 else if b == 'a' then 1 else if b == 'c' then 2 else if b == 't' then 3
    else if b == 'u' then (if a == 'A' || a == 'O' then 4 else 3)
    else if b == 'r' then 5 else 6
  }

  predicate Ruled(es: seq<(string, char)>) {
    forall k | 0 <= k < |es| :: |es[k].0| > 1 && es[k].1 as int == Rule(es[k].0[0], es[k].0[1])
  }

  lemma FourRuled()
    ensures Ruled(Four())
  {
  }

  lemma TwoAndThreeRuled()
    ensures Ruled(EntList(2)) && Ruled(EntList(3))
  {
    hide Four, Five, SixCapital, SixSmall;
  }

  lemma FiveFirstRuled()
    ensures forall k | 0 <= k < 8 :: Five()[k].1 as int == Rule(Five()[k].0[0], Five()[k].0[1])
  {
  }

  lemma FiveLastRuled()
    ensures |Five()| == 17
    ensures forall k | 8 <= k < 17 :: Five()[k].1 as int == Rule(Five()[k].0[0], Five()[k].0[1])
  {
  }

  lemma FiveRuled()
    ensures Ruled(Five())
  {
    FiveFirstRuled();
    FiveLastRuled();
    hide Five, Rule;
  }

  lemma SixCapitalRuled()
    ensures Ruled(SixCapital())
  {
  }

  /** The small entries are the capital ones with a small first letter, 32 above. */
  lemma SmallLikeCapital()
    ensures |SixSmall()| == |SixCapital()| == 16
    ensures forall k | 0 <= k < 16 :: AboveBy32(SixCapital()[k], SixSmall()[k])
  {
  }

  predicate AboveBy32(e: (string, char), d: (string, char)) {
    && |e.0| > 1 && |d.0| > 1 && 'A' <= e.0[0] <= 'Z' && d.0[1] == e.0[1]
    && d.0[0] as int == e.0[0] as int + 32 && d.1 as int == e.1 as int + 32
  }

  lemma SixSmallRuled()
    ensures Ruled(SixSmall())
  {
    SmallLikeCapital();
    SixCapitalRuled();
    hide SixSmall, SixCapital, CapitalRule;
    forall k | 0 <= k < 16 ensures SixSmall()[k].1 as int == Rule(SixSmall()[k].0[0], SixSmall()[k].0[1]) {
      assert AboveBy32(SixCapital()[k], SixSmall()[k]);
      NoSpecial(k);
    }
  }

  lemma NoSpecial(k: nat)
    requires k < 16
    ensures SixCapital()[k].0[0] !in "LGQS" && SixCapital()[k].0[1] != 'm'
  {
  }

  lemma ListsRuled(j: nat)
    requires j <= MAXENTLEN
    ensures Ruled(EntList(j))
  {
    TwoAndThreeRuled();
    FourRuled();
    FiveRuled();
    SixCapitalRuled();
    SixSmallRuled();
    hide Four, Five, SixCapital, SixSmall, Rule;
  }

  /** Searching for the name of an entry finds that entry. */
  lemma Found(j: nat, k: nat, name: string, c: char)
    requires j <= MAXENTLEN && k < |EntList(j)| && EntList(j)[k] == (name, c)
    ensures Named(name) == Some(c)
  {
    ListsRuled(j);
    var es := EntList(j);
    assert |es[k].0| == j;
    hide EntList, Rule;
    var r := Search(es, name);
    var m :| 0 <= m < |es| && es[m] == (name, r.value);
  }

  lemma ListsAre()
    ensures EntList(4) == Four() && EntList(5) == Five() && |EntList(6)| == 32
    ensures |EntList(3)| == 3 && EntList(3)[1] == ("ETH", '\U{D0}') && EntList(3)[2] == ("eth", '\U{F0}')
    ensures forall k | 0 <= k < 32 :: EntList(6)[k] == if k < 16 then SixCapital()[k] else SixSmall()[k - 16]
  {
  }

  // ---- What the names stand for ----

  lemma Grave()
    ensures Named("Agrave") == Some('\U{C0}')
    ensures Named("Egrave") == Some('\U{C8}')
    ensures Named("Igrave") == Some('\U{CC}')
    ensures Named("Ograve") == Some('\U{D2}')
    ensures Named("Ugrave") == Some('\U{D9}')
  {
    ListsAre();
    hide EntList, Named, Rule;
    Found(6, 0, "Agrave", '\U{C0}');
    Found(6, 4, "Egrave", '\U{C8}');
    Found(6, 6, "Igrave", '\U{CC}');
    Found(6, 9, "Ograve", '\U{D2}');
    Found(6, 13, "Ugrave", '\U{D9}');
  }

  lemma SmallGrave()
    ensures Named("agrave") == Some('\U{E0}')
    ensures Named("egrave") == Some('\U{E8}')
    ensures Named("igrave") == Some('\U{EC}')
    ensures Named("ograve") == Some('\U{F2}')
    ensures Named("ugrave") == Some('\U{F9}')
  {
    ListsAre();
    hide EntList, Named, Rule;
    Found(6, 16, "agrave", '\U{E0}');
    Found(6, 20, "egrave", '\U{E8}');
    Found(6, 22, "igrave", '\U{EC}');
    Found(6, 25, "ograve", '\U{F2}');
    Found(6, 29, "ugrave", '\U{F9}');
  }

  lemma Acute()
    ensures Named("Aacute") == Some('\U{C1}')
    ensures Named("Eacute") == Some('\U{C9}')
    ensures Named("Iacute") == Some('\U{CD}')
    ensures Named("Oacute") == Some('\U{D3}')
    ensures Named("Uacute") == Some('\U{DA}')
    ensures Named("Yacute") == Some('\U{DD}')
  {
    ListsAre();
    hide EntList, Named, Rule;
    Found(6, 1, "Aacute", '\U{C1}');
    Found(6, 5, "Eacute", '\U{C9}');
    Found(6, 7, "Iacute", '\U{CD}');
    Found(6, 10, "Oacute", '\U{D3}');
    Found(6, 14, "Uacute", '\U{DA}');
    Found(6, 15, "Yacute", '\U{DD}');
  }

  lemma SmallAcute()
    ensures Named("aacute") == Some('\U{E1}')
    ensures Named("eacute") == Some('\U{E9}')
    ensures Named("iacute") == Some('\U{ED}')
    ensures Named("oacute") == Some('\U{F3}')
    ensures Named("uacute") == Some('\U{FA}')
    ensures Named("yacute") == Some('\U{FD}')
  {
    ListsAre();
    hide EntList, Named, Rule;
    Found(6, 17, "aacute", '\U{E1}');
    Found(6, 21, "eacute", '\U{E9}');
    Found(6, 23, "iacute", '\U{ED}');
    Found(6, 26, "oacute", '\U{F3}');
    Found(6, 30, "uacute", '\U{FA}');
    Found(6, 31, "yacute", '\U{FD}');
  }

  lemma Circumflex()
    ensures Named("Acirc") == Some('\U{C2}')
    ensures Named("Ecirc") == Some('\U{CA}')
    ensures Named("Icirc") == Some('\U{CE}')
    ensures Named("Ocirc") == Some('\U{D4}')
    ensures Named("Ucirc") == Some('\U{DB}')
  {
    ListsAre();
    hide EntList, Named, Rule;
    Found(5, 0, "Acirc", '\U{C2}');
    Found(5, 3, "Ecirc", '\U{CA}');
    Found(5, 4, "Icirc", '\U{CE}');
    Found(5, 5, "Ocirc", '\U{D4}');
    Found(5, 6, "Ucirc", '\U{DB}');
  }

  lemma SmallCircumflex()
    ensures Named("acirc") == Some('\U{E2}')
    ensures Named("ecirc") == Some('\U{EA}')
    ensures Named("icirc") == Some('\U{EE}')
    ensures Named("ocirc") == Some('\U{F4}')
    ensures Named("ucirc") == Some('\U{FB}')
  {
    ListsAre();
    hide EntList, Named, Rule;
    Found(5, 9, "acirc", '\U{E2}');
    Found(5, 12, "ecirc", '\U{EA}');
    Found(5, 13, "icirc", '\U{EE}');
    Found(5, 14, "ocirc", '\U{F4}');
    Found(5, 15, "ucirc", '\U{FB}');
  }

  lemma Tilde()
    ensures Named("Atilde") == Some('\U{C3}')
    ensures Named("Ntilde") == Some('\U{D1}')
    ensures Named("Otilde") == Some('\U{D5}')
  {
    ListsAre();
    hide EntList, Named, Rule;
    Found(6, 2, "Atilde", '\U{C3}');
    Found(6, 8, "Ntilde", '\U{D1}');
    Found(6, 11, "Otilde", '\U{D5}');
  }

  lemma SmallTilde()
    ensures Named("atilde") == Some('\U{E3}')
    ensures Named("ntilde") == Some('\U{F1}')
    ensures Named("otilde") == Some('\U{F5}')
  {
    ListsAre();
    hide EntList, Named, Rule;
    Found(6, 18, "atilde", '\U{E3}');
    Found(6, 24, "ntilde", '\U{F1}');
    Found(6, 27, "otilde", '\U{F5}');
  }

  lemma Umlaut()
    ensures Named("Auml") == Some('\U{C4}')
    ensures Named("Euml") == Some('\U{CB}')
    ensures Named("Iuml") == Some('\U{CF}')
    ensures Named("Ouml") == Some('\U{D6}')
    ensures Named("Uuml") == Some('\U{DC}')
  {
    ListsAre();
    hide EntList, Named, Rule;
    Found(4, 1, "Auml", '\U{C4}');
    Found(4, 2, "Euml", '\U{CB}');
    Found(4, 3, "Iuml", '\U{CF}');
    Found(4, 4, "Ouml", '\U{D6}');
    Found(4, 5, "Uuml", '\U{DC}');
  }

  lemma SmallUmlaut()
    ensures Named("auml") == Some('\U{E4}')
    ensures Named("euml") == Some('\U{EB}')
    ensures Named("iuml") == Some('\U{EF}')
    ensures Named("ouml") == Some('\U{F6}')
    ensures Named("uuml") == Some('\U{FC}')
    ensures Named("yuml") == Some('\U{FF}')
  {
    ListsAre();
    hide EntList, Named, Rule;
    Found(4, 6, "auml", '\U{E4}');
    Found(4, 7, "euml", '\U{EB}');
    Found(4, 8, "iuml", '\U{EF}');
    Found(4, 9, "ouml", '\U{F6}');
    Found(4, 10, "uuml", '\U{FC}');
    Found(4, 11, "yuml", '\U{FF}');
  }

  lemma Others()
    ensures Named("Aring") == Some('\U{C5}')
    ensures Named("AElig") == Some('\U{C6}')
    ensures Named("Ccedil") == Some('\U{C7}')
    ensures Named("ETH") == Some('\U{D0}')
    ensures Named("Oslash") == Some('\U{D8}')
    ensures Named("THORN") == Some('\U{DE}')
  {
    ListsAre();
    hide EntList, Named, Rule;
    Found(5, 1, "Aring", '\U{C5}');
    Found(5, 2, "AElig", '\U{C6}');
    Found(6, 3, "Ccedil", '\U{C7}');
    Found(3, 1, "ETH", '\U{D0}');
    Found(6, 12, "Oslash", '\U{D8}');
    Found(5, 7, "THORN", '\U{DE}');
  }

  lemma SmallOthers()
    ensures Named("aring") == Some('\U{E5}')
    ensures Named("aelig") == Some('\U{E6}')
    ensures Named("ccedil") == Some('\U{E7}')
    ensures Named("eth") == Some('\U{F0}')
    ensures Named("oslash") == Some('\U{F8}')
    ensures Named("thorn") == Some('\U{FE}')
    ensures Named("szlig") == Some('\U{DF}')
  {
    ListsAre();
    hide EntList, Named, Rule;
    Found(5, 10, "aring", '\U{E5}');
    Found(5, 11, "aelig", '\U{E6}');
    Found(6, 19, "ccedil", '\U{E7}');
    Found(3, 2, "eth", '\U{F0}');
    Found(6, 28, "oslash", '\U{F8}');
    Found(5, 16, "thorn", '\U{FE}');
    Found(5, 8, "szlig", '\U{DF}');
  }

  // ---- The upper half of ISO 8859-1, row by row ----

  const ROW_C: seq<string> := ["Agrave", "Aacute", "Acirc", "Atilde", "Auml", "Aring", "AElig", "Ccedil",
     "Egrave", "Eacute", "Ecirc", "Euml", "Igrave", "Iacute", "Icirc", "Iuml"]

  const ROW_D: seq<string> := ["ETH", "Ntilde", "Ograve", "Oacute", "Ocirc", "Otilde", "Ouml", "",
     "Oslash", "Ugrave", "Uacute", "Ucirc", "Uuml", "Yacute", "THORN", "szlig"]

  const ROW_E: seq<string> := ["agrave", "aacute", "acirc", "atilde", "auml", "aring", "aelig", "ccedil",
     "egrave", "eacute", "ecirc", "euml", "igrave", "iacute", "icirc", "iuml"]

  const ROW_F: seq<string> := ["eth", "ntilde", "ograve", "oacute", "ocirc", "otilde", "ouml", "",
     "oslash", "ugrave", "uacute", "ucirc", "uuml", "yacute", "thorn", "yuml"]

  /** The name of a code. */
  function NameOf(c: char): string {
    var n := c as int;
    if 0xC0 <= n < 0xD0 then ROW_C[n - 0xC0] else if 0xD0 <= n < 0xE0 then ROW_D[n - 0xD0]
    else if 0xE0 <= n < 0xF0 then ROW_E[n - 0xE0] else if 0xF0 <= n < 0x100 then ROW_F[n - 0xF0]
    else match c case '<' => "lt" case '>' => "gt" case '&' => "amp" case '\"' => "quot" case _ => ""
  }

  lemma CodesOfRowC()
    ensures NameOf('\U{C0}') == "Agrave" && NameOf('\U{C1}') == "Aacute"
    ensures NameOf('\U{C2}') == "Acirc" && NameOf('\U{C3}') == "Atilde"
    ensures NameOf('\U{C4}') == "Auml" && NameOf('\U{C5}') == "Aring"
    ensures NameOf('\U{C6}') == "AElig" && NameOf('\U{C7}') == "Ccedil"
    ensures NameOf('\U{C8}') == "Egrave" && NameOf('\U{C9}') == "Eacute"
    ensures NameOf('\U{CA}') == "Ecirc" && NameOf('\U{CB}') == "Euml"
    ensures NameOf('\U{CC}') == "Igrave" && NameOf('\U{CD}') == "Iacute"
    ensures NameOf('\U{CE}') == "Icirc" && NameOf('\U{CF}') == "Iuml"
  {
  }

  lemma CodesOfRowD()
    ensures NameOf('\U{D0}') == "ETH" && NameOf('\U{D1}') == "Ntilde"
    ensures NameOf('\U{D2}') == "Ograve" && NameOf('\U{D3}') == "Oacute"
    ensures NameOf('\U{D4}') == "Ocirc" && NameOf('\U{D5}') == "Otilde"
    ensures NameOf('\U{D6}') == "Ouml" && NameOf('\U{D7}') == ""
    ensures NameOf('\U{D8}') == "Oslash" && NameOf('\U{D9}') == "Ugrave"
    ensures NameOf('\U{DA}') == "Uacute" && NameOf('\U{DB}') == "Ucirc"
    ensures NameOf('\U{DC}') == "Uuml" && NameOf('\U{DD}') == "Yacute"
    ensures NameOf('\U{DE}') == "THORN" && NameOf('\U{DF}') == "szlig"
  {
  }

  lemma CodesOfRowE()
    ensures NameOf('\U{E0}') == "agrave" && NameOf('\U{E1}') == "aacute"
    ensures NameOf('\U{E2}') == "acirc" && NameOf('\U{E3}') == "atilde"
    ensures NameOf('\U{E4}') == "auml" && NameOf('\U{E5}') == "aring"
    ensures NameOf('\U{E6}') == "aelig" && NameOf('\U{E7}') == "ccedil"
    ensures NameOf('\U{E8}') == "egrave" && NameOf('\U{E9}') == "eacute"
    ensures NameOf('\U{EA}') == "ecirc" && NameOf('\U{EB}') == "euml"
    ensures NameOf('\U{EC}') == "igrave" && NameOf('\U{ED}') == "iacute"
    ensures NameOf('\U{EE}') == "icirc" && NameOf('\U{EF}') == "iuml"
  {
  }

  lemma CodesOfRowF()
    ensures NameOf('\U{F0}') == "eth" && NameOf('\U{F1}') == "ntilde"
    ensures NameOf('\U{F2}') == "ograve" && NameOf('\U{F3}') == "oacute"
    ensures NameOf('\U{F4}') == "ocirc" && NameOf('\U{F5}') == "otilde"
    ensures NameOf('\U{F6}') == "ouml" && NameOf('\U{F7}') == ""
    ensures NameOf('\U{F8}') == "oslash" && NameOf('\U{F9}') == "ugrave"
    ensures NameOf('\U{FA}') == "uacute" && NameOf('\U{FB}') == "ucirc"
    ensures NameOf('\U{FC}') == "uuml" && NameOf('\U{FD}') == "yacute"
    ensures NameOf('\U{FE}') == "thorn" && NameOf('\U{FF}') == "yuml"
  {
  }

  predicate NamedRight(es: seq<(string, char)>, a: nat, b: nat) {
    a <= b <= |es| && forall k | a <= k < b :: NameOf(es[k].1) == es[k].0
  }

  lemma FourFirst()
    ensures |Four()| == 12 && NamedRight(Four(), 0, 6)
  {
    CodesOfRowC();
    CodesOfRowD();
    assert NameOf('\"') == "quot";
    hide NameOf;
  }

  lemma FourLast()
    ensures |Four()| == 12 && NamedRight(Four(), 6, 12)
  {
    CodesOfRowE();
    CodesOfRowF();
    hide NameOf;
  }

  lemma FiveFirst()
    ensures |Five()| == 17 && NamedRight(Five(), 0, 8)
  {
    CodesOfRowC();
    CodesOfRowD();
    hide NameOf;
  }

  lemma FiveLast()
    ensures |Five()| == 17 && NamedRight(Five(), 8, 17)
  {
    CodesOfRowD();
    CodesOfRowE();
    CodesOfRowF();
    hide NameOf;
  }

  lemma SixCapitalFirst()
    ensures |SixCapital()| == 16 && NamedRight(SixCapital(), 0, 8)
  {
    CodesOfRowC();
    hide NameOf;
  }

  lemma SixCapitalLast()
    ensures |SixCapital()| == 16 && NamedRight(SixCapital(), 8, 16)
  {
    CodesOfRowD();
    hide NameOf;
  }

  lemma SixSmallFirst()
    ensures |SixSmall()| == 16 && NamedRight(SixSmall(), 0, 8)
  {
    CodesOfRowE();
    hide NameOf;
  }

  lemma SixSmallLast()
    ensures |SixSmall()| == 16 && NamedRight(SixSmall(), 8, 16)
  {
    CodesOfRowF();
    hide NameOf;
  }

  lemma ListsNamedRight(j: nat)
    requires j <= MAXENTLEN
    ensures NamedRight(EntList(j), 0, |EntList(j)|)
  {
    FourFirst();
    FourLast();
    FiveFirst();
    FiveLast();
    SixCapitalFirst();
    SixCapitalLast();
    SixSmallFirst();
    SixSmallLast();
    hide Four, Five, SixCapital, SixSmall;
    if j == 6 { hide NameOf; }
  }

  /** A name stands for no character but the one it is the name of. */
  lemma NameOfNamed(name: string, c: char)
    requires Named(name) == Some(c)
    ensures name == NameOf(c)
  {
    ListsNamedRight(|name|);
    var es := EntList(|name|);
    var k :| 0 <= k < |es| && es[k] == (name, c);
  }

  lemma RowCNamed(c: char)
    requires 0xC0 <= c as int < 0xD0 && NameOf(c) != ""
    ensures Named(NameOf(c)) == Some(c)
  {
    CodesOfRowC();
    Grave();
    Acute();
    Circumflex();
    Tilde();
    Umlaut();
    Others();
    hide NameOf, Named;
  }

  lemma RowDNamed(c: char)
    requires 0xD0 <= c as int < 0xE0 && NameOf(c) != ""
    ensures Named(NameOf(c)) == Some(c)
  {
    CodesOfRowD();
    Grave();
    Acute();
    Circumflex();
    Tilde();
    Umlaut();
    Others();
    SmallOthers();
    hide NameOf, Named;
  }

  lemma RowENamed(c: char)
    requires 0xE0 <= c as int < 0xF0 && NameOf(c) != ""
    ensures Named(NameOf(c)) == Some(c)
  {
    CodesOfRowE();
    SmallGrave();
    SmallAcute();
    SmallCircumflex();
    SmallTilde();
    SmallUmlaut();
    SmallOthers();
    hide NameOf, Named;
  }

  lemma RowFNamed(c: char)
    requires 0xF0 <= c as int < 0x100 && NameOf(c) != ""
    ensures Named(NameOf(c)) == Some(c)
  {
    CodesOfRowF();
    SmallGrave();
    SmallAcute();
    SmallCircumflex();
    SmallTilde();
    SmallUmlaut();
    SmallOthers();
    hide NameOf, Named;
  }

  lemma NamedOfName(c: char)
    requires NameOf(c) != ""
    ensures Named(NameOf(c)) == Some(c)
  {
    hide Named;
    var n := c as int;
    if 0xC0 <= n < 0xD0 {
      RowCNamed(c);
    } else if 0xD0 <= n < 0xE0 {
      RowDNamed(c);
    } else if 0xE0 <= n < 0xF0 {
      RowENamed(c);
    } else if 0xF0 <= n < 0x100 {
      RowFNamed(c);
    } else {
      KnownNames();
    }
  }

  lemma NoEmptyName()
    ensures Named("") == None
  {
  }

  /** A name stands for a character exactly when it is the name of that character in
      ISO 8859-1, the four of ASCII included; so no two names share a character. */
  lemma NamesAre(name: string, c: char)
    ensures Named(name) == Some(c) <==> name != "" && NameOf(c) == name
  {
    NoEmptyName();
    hide *;
    if Named(name) == Some(c) {
      NameOfNamed(name, c);
    } else if name != "" && NameOf(c) == name {
      NamedOfName(c);
    }
  }

  // ---- Reading them ----

  predicate Lettered(name: string) {
    forall m | 0 <= m < |name| :: 'A' <= name[m] <= 'z'
  }

  lemma RowCLettered(c: char)
    requires 0xC0 <= c as int < 0xD0
    ensures Lettered(NameOf(c))
  {
    CodesOfRowC();
    hide NameOf;
  }

  lemma RowDLettered(c: char)
    requires 0xD0 <= c as int < 0xE0
    ensures Lettered(NameOf(c))
  {
    CodesOfRowD();
    hide NameOf;
  }

  lemma RowELettered(c: char)
    requires 0xE0 <= c as int < 0xF0
    ensures Lettered(NameOf(c))
  {
    CodesOfRowE();
    hide NameOf;
  }

  lemma RowFLettered(c: char)
    requires 0xF0 <= c as int < 0x100
    ensures Lettered(NameOf(c))
  {
    CodesOfRowF();
    hide NameOf;
  }

  lemma NamesLettered(c: char)
    ensures Lettered(NameOf(c))
  {
    hide Lettered;
    var n := c as int;
    if 0xC0 <= n < 0xD0 {
      RowCLettered(c);
    } else if 0xD0 <= n < 0xE0 {
      RowDLettered(c);
    } else if 0xE0 <= n < 0xF0 {
      RowELettered(c);
    } else if 0xF0 <= n < 0x100 {
      RowFLettered(c);
    } else {
      AsciiLettered(c);
    }
  }

  lemma AsciiLettered(c: char)
    requires c as int < 0xC0 || c as int >= 0x100
    ensures Lettered(NameOf(c))
  {
  }

  /** The name of a character between `&` and `;` is read as that character. */
  lemma EntityIsRead(c: char)
    requires NameOf(c) != ""
    ensures ReadFrom("&" + (NameOf(c) + ";"), 0) == Reading([c], true)
  {
    var name := NameOf(c);
    var t := Entity(name);
    NamedOfName(c);
    NamesLettered(c);
    assert t[0..] == t + "";
    assert StandsAt(t, 0, Entity(name), "") && NoneIs(name, ';') && name[0] != '#';
    hide NameOf, Named, StandsAt, NoneIs, Entity, Lettered, ReadFrom;
    EntityReads(t, 0, name, "");
    NothingRead(t, c);
    Alone(ReadFrom(t, |t|));
  }

  /** Any other name stays as it is, with its `&` and its semicolon. */
  lemma OtherNamesStay(name: string)
    requires name != "" && name[0] != '#' && ';' !in name && '&' !in name
    requires forall c :: NameOf(c) != name
    ensures ReadFrom("&" + (name + ";"), 0) == Reading("&" + (name + ";"), false)
  {
    var t := Entity(name);
    assert Named(name) == None by { if Named(name).Some? { NamesAre(name, Named(name).value); } }
    assert t[0..] == t + "";
    assert StandsAt(t, 0, Entity(name), "") && NoneIs(name, ';') && NoneIs(name + ";", '&');
    hide NameOf, Named, StandsAt, NoneIs, Entity, ReadFrom;
    UnknownReads(t, 0, name, "");
    Alone(ReadFrom(t, |t|));
    NothingBehind(t);
  }

  lemma NothingBehind(t: string)
    ensures ReadFrom(t, |t|) == NOTHING && forall r: Reading :: Then(r, NOTHING) == r
  {
    hide PieceAt;
  }

  lemma {:induction false} NoEnd(t: string, i: nat)
    requires i <= |t| && ';' !in t
    ensures EndOfEntity(t, i) == |t|
    decreases |t| - i
  {
    if i < |t| {
      assert t[i] in t;
      NoEnd(t, i + 1);
    }
  }

  /** Without a semicolon there is no entity. */
  lemma {:induction false} UnclosedStays(t: string, i: nat)
    requires i <= |t| && ';' !in t
    ensures ReadFrom(t, i) == Reading(t[i..], false)
    decreases |t| - i
  {
    hide Named, Numbered;
    if i < |t| {
      UnclosedStays(t, i + 1);
      NoEnd(t, i + 1);
      assert t[i..] == [t[i]] + t[i + 1..];
    }
  }
}
