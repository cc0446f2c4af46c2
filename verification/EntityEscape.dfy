/**
 `apr_escape_entity` and `apr_unescape_entity` (encoding/apr_escape.c).
 */
module EntityEscape {
  import opened Apr
  import UrlEscape

  // The characters that the generated table marks are the parameter `esc`; a string
  // ends at its terminator or at the length `slen`, unless that is negative.

  // ---- Escaping ----

  /** The characters that the switch knows. */
  predicate InSwitch(c: char) {
    c == '>' || c == '<' || c == '&' || c == '\"' || c == '\''
  }

  predicate IsAscii(c: char) { c as int < 128 }

  /** What `apr_snprintf` makes of a byte in a buffer of six: the code without the `;`,
      which the terminator takes the place of. */
  function CodeForm(c: char): (t: string)
    requires 128 <= c as int < 256
    ensures |t| == 5 && t[0] == '&' && t[1] == '#' && IsNumber(t[2..]) && Value(t[2..]) == c as int
  {
    var n := c as int;
    var digits := [DigitOf(n / 100), DigitOf(n / 10 % 10), DigitOf(n % 10)];
    ThreeDigits(digits[0], digits[1], digits[2]);
    assert ("&#" + digits)[2..] == digits;
    "&#" + digits
  }

  lemma ThreeDigits(a: char, b: char, c: char)
    requires IsDigit(a) && IsDigit(b) && IsDigit(c)
    ensures Value([a, b, c]) == (a as int - '0' as int) * 100 + (b as int - '0' as int) * 10 + (c as int - '0' as int)
  {
    assert [a, b, c][..2] == [a, b] && [a, b][..1] == [a] && [a][..0] == "";
    assert Value([a]) == a as int - '0' as int;
    assert Value([a, b]) == Value([a]) * 10 + (b as int - '0' as int);
  }

  function DigitOf(d: nat): (c: char)
    requires d < 10
    ensures IsDigit(c) && c as int == d + '0' as int
  {
    (d + '0' as int) as char
  }

  /** Nothing is written for a marked character that the switch does not know. */
  function EscapedChar(c: char, esc: set<char>, toasc: bool): string
    requires c as int < 256
  {
    if c in esc then
      match c
      case '>' => "&gt;"
      case '<' => "&lt;"
      case '&' => "&amp;"
      case '\"' => "&quot;"
      case '\'' => "&apos;"
      case _ => ""
    else if toasc && !IsAscii(c) then CodeForm(c) else [c]
  }

  function Escaped(s: string, esc: set<char>, toasc: bool): string
    requires IsBytes(s)
  {
    if s == "" then "" else EscapedChar(s[0], esc, toasc) + Escaped(s[1..], esc, toasc)
  }

  predicate Altered(c: char, esc: set<char>, toasc: bool) {
    c in esc || (toasc && !IsAscii(c))
  }

  predicate Changes(s: string, esc: set<char>, toasc: bool) {
    exists k | 0 <= k < |s| :: Altered(s[k], esc, toasc)
  }

  lemma EscapedFront(s: string, i: nat, esc: set<char>, toasc: bool)
    requires IsBytes(s) && i < |s|
    ensures IsBytes(s[i..]) && IsBytes(s[i + 1..])
    ensures Escaped(s[i..], esc, toasc) == EscapedChar(s[i], esc, toasc) + Escaped(s[i + 1..], esc, toasc)
  {
    assert s[i..][1..] == s[i + 1..];
  }

  lemma NothingLeft(s: string, esc: set<char>, toasc: bool)
    ensures s[|s|..] == "" && s[0..] == s && IsBytes("") && Escaped("", esc, toasc) == ""
  {
  }

  /** The writing loop. */
  method EscapeWriting(d: array<char>, s: string, slen0: int, esc: set<char>, toasc: bool)
    returns (size: nat, found: bool)
    requires IsBytes(s) && |Escaped(Taken(s, slen0), esc, toasc)| < d.Length
    modifies d
    ensures var t := Taken(s, slen0);
            && size == |Escaped(t, esc, toasc)| + 1 && found == Changes(t, esc, toasc)
            && d[..size - 1] == Escaped(t, esc, toasc) && d[size - 1] == '\0'
  {
    hide Escaped, EscapedChar, Altered;
    size, found := 1, false;
    var i: nat, next: nat, slen := 0, 0, slen0;
    ghost var t := Taken(s, slen0);
    ghost var all := Escaped(t, esc, toasc);
    NothingLeft(t, esc, toasc);
    while i < |s| && slen != 0
      invariant 0 <= i <= |t| && slen == slen0 - i && size == next + 1 && next < d.Length
      invariant IsBytes(t[i..]) && all == d[..next] + Escaped(t[i..], esc, toasc)
      invariant found <==> exists k | 0 <= k < i :: Altered(t[k], esc, toasc)
      decreases |s| - i
    {
      var c := s[i];
      EscapedFront(t, i, esc, toasc);
      OneMorePiece(all, d[..next], EscapedChar(c, esc, toasc), Escaped(t[i + 1..], esc, toasc));
      var more, hit;
      next, more, hit := WriteEscaped(d, next, c, esc, toasc);
      size, found := size + more, found || hit;
      i := i + 1;
      slen := slen - 1;
    }
    d[next] := '\0';
  }

  /** One turn of that loop: what it adds to the size, and whether it changes anything. */
  method WriteEscaped(d: array<char>, at: nat, c: char, esc: set<char>, toasc: bool)
    returns (next: nat, size: nat, found: bool)
    requires c as int < 256 && at + |EscapedChar(c, esc, toasc)| < d.Length
    modifies d
    ensures size == |EscapedChar(c, esc, toasc)| && next == at + size && found == Altered(c, esc, toasc)
    ensures d[..next] == old(d[..at]) + EscapedChar(c, esc, toasc)
  {
    hide CodeForm;
    next, size, found := at, 0, false;
    if c in esc {
      match c {
        case '>' => next := UrlEscape.Write(d, next, "&gt;"); size := size + 4;
        case '<' => next := UrlEscape.Write(d, next, "&lt;"); size := size + 4;
        case '&' => next := UrlEscape.Write(d, next, "&amp;"); size := size + 5;
        case '\"' => next := UrlEscape.Write(d, next, "&quot;"); size := size + 6;
        case '\'' => next := UrlEscape.Write(d, next, "&apos;"); size := size + 6;
        case _ =>
      }
      found := true;
    } else if toasc && !IsAscii(c) {
      next := UrlEscape.Write(d, next, CodeForm(c));
      d[next] := '\0';
      assert d[..next] == old(d[..at]) + CodeForm(c);
      size := size + 5;
      found := true;
    } else {
      next := UrlEscape.Write(d, next, [c]);
      size := size + 1;
    }
  }

  /** The counting loop. */
  method EscapeCounting(s: string, slen0: int, esc: set<char>, toasc: bool) returns (size: nat, found: bool)
    requires IsBytes(s)
    ensures var t := Taken(s, slen0);
            size == |Escaped(t, esc, toasc)| + 1 && found == Changes(t, esc, toasc)
  {
    hide Escaped, CodeForm;
    size, found := 1, false;
    var i: nat, slen := 0, slen0;
    ghost var t := Taken(s, slen0);
    NothingLeft(t, esc, toasc);
    while i < |s| && slen != 0
      invariant 0 <= i <= |t| && slen == slen0 - i && IsBytes(t[i..])
      invariant size + |Escaped(t[i..], esc, toasc)| == |Escaped(t, esc, toasc)| + 1
      invariant found <==> exists k | 0 <= k < i :: Altered(t[k], esc, toasc)
      decreases |s| - i
    {
      var c := s[i];
      EscapedFront(t, i, esc, toasc);
      if c in esc {
        match c {
        case '>' => size := size + 4;
        case '<' => size := size + 4;
        case '&' => size := size + 5;
        case '\"' => size := size + 6;
        case '\'' => size := size + 6;
        case _ =>
        }
        found := true;
      } else if toasc && !IsAscii(c) {
        size := size + 5;
        found := true;
      } else {
        size := size + 1;
      }
      i := i + 1;
      slen := slen - 1;
    }
  }

  /** `apr_escape_entity`; with `d` null only the size is found. */
  method EscapeEntity(d: array?<char>, s: string, slen: int, esc: set<char>, toasc: bool)
    returns (status: Status, len: nat)
    requires IsBytes(s) && (d != null ==> |Escaped(Taken(s, slen), esc, toasc)| < d.Length)
    modifies d
    ensures var t := Taken(s, slen);
            && len == |Escaped(t, esc, toasc)| + 1
            && status == (if Changes(t, esc, toasc) then Success else NotFound)
            && (d != null ==> d[..len - 1] == Escaped(t, esc, toasc) && d[len - 1] == '\0')
  {
    var found;
    if d != null {
      len, found := EscapeWriting(d, s, slen, esc, toasc);
    } else {
      len, found := EscapeCounting(s, slen, esc, toasc);
    }
    status := if found then Success else NotFound;
  }

  // ---- The entities ----

  const MAXENTLEN := 6

  predicate NamesOf(es: seq<(string, char)>, j: nat) {
    forall k | 0 <= k < |es| :: |es[k].0| == j
  }

  function Five(): (es: seq<(string, char)>)
    ensures NamesOf(es, 5)
  {
    [("Acirc", '\U{C2}'), ("Aring", '\U{C5}'), ("AElig", '\U{C6}'), ("Ecirc", '\U{CA}'), ("Icirc", '\U{CE}'),
     ("Ocirc", '\U{D4}'), ("Ucirc", '\U{DB}'), ("THORN", '\U{DE}'), ("szlig", '\U{DF}'), ("acirc", '\U{E2}'),
     ("aring", '\U{E5}'), ("aelig", '\U{E6}'), ("ecirc", '\U{EA}'), ("icirc", '\U{EE}'), ("ocirc", '\U{F4}'),
     ("ucirc", '\U{FB}'), ("thorn", '\U{FE}')]
  }

  function SixCapital(): (es: seq<(string, char)>)
    ensures NamesOf(es, 6)
  {
    [("Agrave", '\U{C0}'), ("Aacute", '\U{C1}'), ("Atilde", '\U{C3}'), ("Ccedil", '\U{C7}'), ("Egrave", '\U{C8}'),
     ("Eacute", '\U{C9}'), ("Igrave", '\U{CC}'), ("Iacute", '\U{CD}'), ("Ntilde", '\U{D1}'), ("Ograve", '\U{D2}'),
     ("Oacute", '\U{D3}'), ("Otilde", '\U{D5}'), ("Oslash", '\U{D8}'), ("Ugrave", '\U{D9}'), ("Uacute", '\U{DA}'),
     ("Yacute", '\U{DD}')]
  }

  function SixSmall(): (es: seq<(string, char)>)
    ensures NamesOf(es, 6)
  {
    [("agrave", '\U{E0}'), ("aacute", '\U{E1}'), ("atilde", '\U{E3}'), ("ccedil", '\U{E7}'), ("egrave", '\U{E8}'),
     ("eacute", '\U{E9}'), ("igrave", '\U{EC}'), ("iacute", '\U{ED}'), ("ntilde", '\U{F1}'), ("ograve", '\U{F2}'),
     ("oacute", '\U{F3}'), ("otilde", '\U{F5}'), ("oslash", '\U{F8}'), ("ugrave", '\U{F9}'), ("uacute", '\U{FA}'),
     ("yacute", '\U{FD}')]
  }

  function Four(): (es: seq<(string, char)>)
    ensures NamesOf(es, 4) && |es| == 12
  {
    [("quot", '\"'), ("Auml", '\U{C4}'), ("Euml", '\U{CB}'), ("Iuml", '\U{CF}'), ("Ouml", '\U{D6}'),
     ("Uuml", '\U{DC}'), ("auml", '\U{E4}'), ("euml", '\U{EB}'), ("iuml", '\U{EF}'), ("ouml", '\U{F6}'),
     ("uuml", '\U{FC}'), ("yuml", '\U{FF}')]
  }

  /** `entlist[j]`: the entities with names of `j` letters. */
  function EntList(j: nat): (es: seq<(string, char)>)
    requires j <= MAXENTLEN
    ensures NamesOf(es, j)
  {
    match j
    case 2 => [("lt", '<'), ("gt", '>')]
    case 3 => [("amp", '&'), ("ETH", '\U{D0}'), ("eth", '\U{F0}')]
    case 4 => Four()
    case 5 => Five()
    case 6 => SixCapital() + SixSmall()
    case _ => []
  }

  /** The first entry with this name. */
  function Search(es: seq<(string, char)>, name: string): (r: Option<char>)
    ensures r == None ==> forall k | 0 <= k < |es| :: es[k].0 != name
    ensures r != None ==> (name, r.value) in es
  {
    if es == [] then None
    else if es[0].0 == name then Some(es[0].1)
    else
      assert forall k | 0 < k < |es| :: es[k] == es[1..][k - 1];
      Search(es[1..], name)
  }

  /** The character a name stands for. */
  function Named(name: string): Option<char> {
    if |name| > MAXENTLEN then None else Search(EntList(|name|), name)
  }

  /** The search in the table of names as long as `name`. */
  method LookUp(name: string) returns (r: Option<char>)
    ensures r == Named(name)
  {
    hide EntList;
    var j := |name|;
    if j > MAXENTLEN || EntList(j) == [] {
      return None;
    }
    var es := EntList(j);
    var k := 0;
    assert es[0..] == es;
    while k < |es|
      invariant 0 <= k <= |es| && Named(name) == Search(es[k..], name)
    {
      if es[k].0 == name {
        return Some(es[k].1);
      }
      assert es[k..][1..] == es[k + 1..];
      k := k + 1;
    }
    r := None;
  }

  // ---- Numbers ----

  predicate IsDigit(c: char) { '0' <= c <= '9' }

  predicate IsNumber(t: string) {
    forall k | 0 <= k < |t| :: IsDigit(t[k])
  }

  function Value(t: string): nat
    requires IsNumber(t)
  {
    if t == "" then 0 else
    Value(t[..|t| - 1]) * 10 + (t[|t| - 1] as int - '0' as int)
  }

  const WORDS: nat := 0x1_0000_0000

  /** What an `int` of 32 bits holds after an operation with this result. */
  function Wrap(x: int): (w: int)
    ensures -0x8000_0000 <= w < 0x8000_0000
  {
    var r := x % WORDS;
    if r >= 0x8000_0000 then r - WORDS else r
  }

  lemma WrapsAlike(x: int, k: int)
    ensures Wrap(x + k * WORDS) == Wrap(x)
  {
    var q, r := x / WORDS, x % WORDS;
    assert x + k * WORDS == (q + k) * WORDS + r;
    assert (x + k * WORDS) % WORDS == r;
  }

  /** A digit behind a wrapped number is a digit behind the number. */
  lemma WrapsThrough(v: int, d: int)
    ensures Wrap(Wrap(v) * 10 + d) == Wrap(v * 10 + d)
  {
    var k := v / WORDS + if v % WORDS >= 0x8000_0000 then 1 else 0;
    assert Wrap(v) == v - k * WORDS;
    WrapsAlike(v * 10 + d, -10 * k);
    assert Wrap(v) * 10 + d == v * 10 + d + (-10 * k) * WORDS;
  }

  /** The codes that are written out: tab, newline and the graphic ones of ISO 8859-1. */
  predicate IsAllowed(v: int) {
    v == 9 || v == 10 || 32 <= v <= 126 || 161 <= v <= 255
  }

  /** The character a decimal number stands for, if it is written out. */
  function Numbered(t: string): (r: Option<char>) {
    if IsNumber(t) && IsAllowed(Wrap(Value(t))) then Some(Wrap(Value(t)) as char) else None
  }

  /** It is the character with that number, or none, exactly when the number does not
      wrap around to an allowed one. */
  lemma WhenNumberIsCode(t: string)
    requires IsNumber(t)
    ensures Numbered(t) == (if IsAllowed(Value(t)) then Some(Value(t) as char) else None)
            <==> !(Value(t) >= WORDS && IsAllowed(Value(t) % WORDS))
  {
    hide Value, Wrap;
    AllowedIsRemainder(Value(t));
  }

  lemma AllowedIsRemainder(v: nat)
    ensures IsAllowed(Wrap(v)) <==> IsAllowed(v % WORDS)
    ensures IsAllowed(Wrap(v)) ==> Wrap(v) == v % WORDS
    ensures v < WORDS ==> v % WORDS == v
  {
  }

  /** The number 4294967361 is taken for 65. */
  lemma WrapsToLetter(t: string)
    requires t == "4294967361"
    ensures Numbered(t) == Some('A')
  {
    assert IsNumber(t);
    hide Value, Wrap;
    FiveDigits(t, 0, 0);
    FiveDigits(t, 5, 42949);
    assert t[..10] == t;
    AllowedIsRemainder(4294967361);
  }

  lemma FiveDigits(t: string, k: nat, before: nat)
    requires k + 5 <= |t| && IsNumber(t) && (k == 0 ==> before == 0) && (k > 0 ==> Value(t[..k]) == before)
    ensures Value(t[..k + 5]) == before * 100000 + DigitAt(t, k) * 10000 + DigitAt(t, k + 1) * 1000
                                 + DigitAt(t, k + 2) * 100 + DigitAt(t, k + 3) * 10 + DigitAt(t, k + 4)
  {
    hide Value;
    ValueStep(t, k);
    ValueStep(t, k + 1);
    ValueStep(t, k + 2);
    ValueStep(t, k + 3);
    ValueStep(t, k + 4);
  }

  function DigitAt(t: string, k: nat): int
    requires k < |t|
  {
    t[k] as int - '0' as int
  }

  lemma ValueStep(t: string, k: nat)
    requires k < |t| && IsNumber(t)
    ensures Value(t[..k + 1]) == Value(t[..k]) * 10 + DigitAt(t, k)
    ensures Value(t[..0]) == 0
  {
    assert t[..k + 1][..k] == t[..k];
  }

  /** Reads the digits behind `&#`. */
  method ReadNumber(t: string) returns (r: Option<char>)
    ensures r == Numbered(t)
  {
    hide Wrap;
    var j, val := 0, 0;
    ZeroFits();
    assert t[..0] == "";
    while j < |t| && IsDigit(t[j])
      invariant 0 <= j <= |t| && IsNumber(t[..j]) && val == Wrap(Value(t[..j]))
    {
      assert t[..j + 1][..j] == t[..j];
      WrapsThrough(Value(t[..j]), t[j] as int - '0' as int);
      val := Wrap(val * 10 + (t[j] as int - '0' as int));
      j := j + 1;
    }
    if j < |t| || val <= 8 || (val >= 11 && val <= 31) || (val >= 127 && val <= 160) || val >= 256 {
      assert j == |t| ==> t[..j] == t;
      r := None;
    } else {
      assert t[..j] == t;
      r := Some(val as char);
    }
  }

  lemma ZeroFits()
    ensures Wrap(0) == 0
  {
  }

  // ---- Unescaping ----

  /** What is written for a part of the text, and whether anything was unescaped. */
  datatype Reading = Reading(text: string, found: bool)

  /** The place of the next `;`, or the end. */
  function EndOfEntity(s: string, i: nat): (e: nat)
    requires i <= |s|
    ensures i <= e <= |s| && (e < |s| ==> s[e] == ';') && forall k | i <= k < e :: s[k] != ';'
    decreases |s| - i
  {
    if i < |s| && s[i] != ';' then EndOfEntity(s, i + 1) else i
  }

  /** The piece at `i`: what is written for it, and the place after it. A numeric
      entity always goes; one that is not allowed leaves nothing. A `&` that begins
      no known entity stays. */
  function PieceAt(s: string, i: nat): (r: (Reading, nat))
    requires i < |s|
    ensures i < r.1 <= |s| && |r.0.text| <= r.1 - i
  {
    if s[i] != '&' then (Reading([s[i]], false), i + 1) else
    var e := EndOfEntity(s, i + 1);
    if e == |s| then (Reading("&", false), i + 1) else
    if s[i + 1] == '#' then
      match Numbered(s[i + 2..e])
      case Some(c) => (Reading([c], true), e + 1)
      case None => (Reading("", false), e + 1)
    else
      match Named(s[i + 1..e])
      case Some(c) => (Reading([c], true), e + 1)
      case None => (Reading("&", false), i + 1)
  }

  function Then(a: Reading, b: Reading): Reading {
    Reading(a.text + b.text, a.found || b.found)
  }

  const NOTHING := Reading("", false)

  function ReadFrom(s: string, i: nat): (r: Reading)
    requires i <= |s|
    ensures |r.text| <= |s| - i
    decreases |s| - i
  {
    if i == |s| then NOTHING else
    var (piece, n) := PieceAt(s, i);
    Then(piece, ReadFrom(s, n))
  }

  /** The length ends before the entity does. */
  predicate CutOff(s: string, i: nat, slen: int)
    requires i < |s|
  {
    slen > 0 && s[i] == '&' && EndOfEntity(s, i + 1) - i >= slen
  }

  /** A numeric entity stands at `i`. */
  predicate NumberAt(s: string, i: nat)
    requires i < |s|
  {
    s[i] == '&' && EndOfEntity(s, i + 1) < |s| && s[i + 1] == '#'
  }

  /** The piece at `i` with `slen` characters left. */
  function PieceWith(s: string, i: nat, slen: int): (r: (Reading, nat))
    requires i < |s|
    ensures i < r.1 <= |s| && |r.0.text| <= r.1 - i
  {
    if CutOff(s, i, slen) then (Reading("&", false), i + 1) else PieceAt(s, i)
  }

  /** What is taken off `slen` for that piece: its length, but 1 for a number. */
  function Cost(s: string, i: nat, slen: int): (c: nat)
    requires i < |s|
    ensures 1 <= c && (slen > 0 ==> c <= slen)
  {
    if !CutOff(s, i, slen) && NumberAt(s, i) then 1 else PieceWith(s, i, slen).1 - i
  }

  /** The pieces from `i` to the terminator, or until `slen` is 0. */
  function ReadWith(s: string, i: nat, slen: int): (r: Reading)
    requires i <= |s|
    ensures |r.text| <= |s| - i
    decreases |s| - i
  {
    if i == |s| || slen == 0 then NOTHING else
    var (piece, n) := PieceWith(s, i, slen);
    Then(piece, ReadWith(s, n, slen - Cost(s, i, slen)))
  }

  lemma ReadStep(s: string, i: nat, slen: int, done: Reading)
    requires i < |s| && slen != 0
    ensures var (piece, n) := PieceWith(s, i, slen);
            var all := Then(done, ReadWith(s, i, slen));
            && all == Then(Then(done, piece), ReadWith(s, n, slen - Cost(s, i, slen)))
            && |done.text| + |piece.text| <= |all.text|
  {
    hide PieceWith, Cost;
    var (piece, n) := PieceWith(s, i, slen);
    var rest := ReadWith(s, n, slen - Cost(s, i, slen)).text;
    assert done.text + (piece.text + rest) == done.text + piece.text + rest;
  }

  lemma ReadEnd(s: string, i: nat, slen: int, done: Reading)
    requires i <= |s| && (i == |s| || slen == 0)
    ensures Then(done, ReadWith(s, i, slen)) == done
  {
    hide PieceWith, Cost;
    Alone(done);
  }

  lemma Alone(r: Reading)
    ensures Then(r, NOTHING) == r && Then(NOTHING, r) == r
  {
  }

  /** Looks for the end of the entity at `i`; it has one if that is neither the
      terminator nor where the length ends. */
  method FindEnd(s: string, i: nat, slen: int) returns (e: nat)
    requires i < |s| && s[i] == '&' && slen != 0
    ensures i < e <= |s|
    ensures e == |s| || slen == e - i <==> EndOfEntity(s, i + 1) == |s| || CutOff(s, i, slen)
    ensures !(e == |s| || slen == e - i) ==> e == EndOfEntity(s, i + 1)
  {
    e := i + 1;
    while e < |s| && s[e] != ';' && slen != e - i
      invariant i + 1 <= e <= |s| && EndOfEntity(s, e) == EndOfEntity(s, i + 1) && (slen > 0 ==> e - i <= slen)
    {
      e := e + 1;
    }
  }

  method UnescapeWriting(d: array<char>, s: string, slen0: int) returns (size: nat, found: bool)
    requires |ReadWith(s, 0, slen0).text| < d.Length
    modifies d
    ensures var r := ReadWith(s, 0, slen0);
            && size == |r.text| + 1 && found == r.found
            && d[..size - 1] == r.text && d[size - 1] == '\0'
  {
    hide ReadWith, PieceWith, Cost;
    size, found := 1, false;
    var i: nat, next: nat, slen := 0, 0, slen0;
    ghost var all := ReadWith(s, 0, slen0);
    Alone(all);
    while i < |s| && slen != 0
      invariant 0 <= i <= |s| && size == next + 1 && next < d.Length
      invariant all == Then(Reading(d[..next], found), ReadWith(s, i, slen))
      decreases |s| - i
    {
      ReadStep(s, i, slen, Reading(d[..next], found));
      var more, hit;
      next, i, slen, more, hit := WritePiece(d, next, s, i, slen);
      size, found := size + more, found || hit;
    }
    ReadEnd(s, i, slen, Reading(d[..next], found));
    d[next] := '\0';
  }

  /** One turn of that loop: what it adds to the size, and whether it unescapes anything. */
  method WritePiece(d: array<char>, at: nat, s: string, i0: nat, slen0: int)
    returns (next: nat, i: nat, slen: int, size: nat, found: bool)
    requires i0 < |s| && slen0 != 0 && at + |PieceWith(s, i0, slen0).0.text| < d.Length
    modifies d
    ensures var (piece, n) := PieceWith(s, i0, slen0);
            && i == n && size == |piece.text| && next == at + size && found == piece.found
            && d[..next] == old(d[..at]) + piece.text
    ensures slen == slen0 - Cost(s, i0, slen0)
  {
    hide Named, Numbered, EndOfEntity;
    i, slen, next, size, found := i0, slen0, at, 0, false;
    if s[i] != '&' {
      next := UrlEscape.Write(d, next, [s[i]]);
      size := size + 1;
    } else {
      var e := FindEnd(s, i, slen);
      if e == |s| || slen == e - i {
        next := UrlEscape.Write(d, next, "&");
        size := size + 1;
      } else if s[i + 1] == '#' {
        var c := ReadNumber(s[i + 2..e]);
        i := e;
        if c != None {
          next := UrlEscape.Write(d, next, [c.value]);
          size := size + 1;
          found := true;
        }
      } else {
        var c := LookUp(s[i + 1..e]);
        if c == None {
          next := UrlEscape.Write(d, next, "&");
        } else {
          next := UrlEscape.Write(d, next, [c.value]);
          slen := slen - (e - i);
          i := e;
          found := true;
        }
        size := size + 1;
      }
    }
    i := i + 1;
    slen := slen - 1;
  }

  method UnescapeCounting(s: string, slen0: int) returns (size: nat, found: bool)
    ensures var r := ReadWith(s, 0, slen0); size == |r.text| + 1 && found == r.found
  {
    hide ReadWith, PieceWith, Cost;
    size, found := 1, false;
    var i, slen := 0, slen0;
    ghost var all, done := ReadWith(s, 0, slen0), NOTHING;
    Alone(all);
    while i < |s| && slen != 0
      invariant 0 <= i <= |s| && size == |done.text| + 1 && found == done.found
      invariant all == Then(done, ReadWith(s, i, slen))
      decreases |s| - i
    {
      ReadStep(s, i, slen, done);
      done := Then(done, PieceWith(s, i, slen).0);
      var more, hit;
      i, slen, more, hit := CountPiece(s, i, slen);
      size, found := size + more, found || hit;
    }
    ReadEnd(s, i, slen, done);
  }

  /** One turn of that loop, which takes back what it adds for a number that leaves
      nothing. */
  method CountPiece(s: string, i0: nat, slen0: int) returns (i: nat, slen: int, size: int, found: bool)
    requires i0 < |s| && slen0 != 0
    ensures var (piece, n) := PieceWith(s, i0, slen0); i == n && size == |piece.text| && found == piece.found
    ensures slen == slen0 - Cost(s, i0, slen0)
  {
    hide Named, Numbered, EndOfEntity;
    i, slen, size, found := i0, slen0, 0, false;
    if s[i] == '&' {
      var e := FindEnd(s, i, slen);
      if e == |s| || slen == e - i {
        // normal data
      } else if s[i + 1] == '#' {
        var c := ReadNumber(s[i + 2..e]);
        i := e;
        if c == None {
          size := size - 1;
        } else {
          found := true;
        }
      } else {
        var c := LookUp(s[i + 1..e]);
        if c != None {
          slen := slen - (e - i);
          i := e;
          found := true;
        }
      }
    }
    i := i + 1;
    slen := slen - 1;
    size := size + 1;
  }

  /** `apr_unescape_entity`; with `d` null only size and status are found. */
  method UnescapeEntity(d: array?<char>, s: string, slen: int) returns (status: Status, len: nat)
    requires d != null ==> |ReadWith(s, 0, slen).text| < d.Length
    modifies d
    ensures var r := ReadWith(s, 0, slen);
            && len == |r.text| + 1 <= |s| + 1
            && status == (if r.found then Success else NotFound)
            && (d != null ==> d[..len - 1] == r.text && d[len - 1] == '\0')
  {
    var found;
    if d != null {
      len, found := UnescapeWriting(d, s, slen);
    } else {
      len, found := UnescapeCounting(s, slen);
    }
    status := if found then Success else NotFound;
  }
}
