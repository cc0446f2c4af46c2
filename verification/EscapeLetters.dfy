/**
 What each escaper of encoding/apr_escape.c writes for one character, and what its status says.
 */
module EscapeLetters {
  import opened Apr
  import EntityEscape
  import TextEscape
  import UrlEscape

  const HEX_FIGURES := "0123456789abcdef"

  /** Two hexadecimal figures of a byte. */
  function Figures(c: char): string
    requires c as int < 256
  {
    [HEX_FIGURES[c as int / 16], HEX_FIGURES[c as int % 16]]
  }

  lemma HexDigits(c: char)
    requires c as int < 256
    ensures UrlEscape.ToHex(c) == "%" + Figures(c)
    ensures UrlEscape.ToHex(c)[1..] == Figures(c)
  {
    FigureAt(c as int / 16);
    FigureAt(c as int % 16);
    assert UrlEscape.ToHex(c) == ['%', UrlEscape.HexDigit(c as int / 16), UrlEscape.HexDigit(c as int % 16)];
  }

  lemma FigureAt(v: nat)
    requires v < 16
    ensures UrlEscape.HexDigit(v) == HEX_FIGURES[v]
  {
  }

  // ---- Urls ----

  /** A marked character becomes `%` and two small figures, a space `+` where that is asked
      for, and any other stays; a string is escaped character by character. */
  lemma UrlLetter(c: char, s: string, esc: set<char>, plus: bool)
    requires 0 < c as int < 256 && IsByteString(s)
    ensures IsByteString([c] + s) && IsByteString("")
    ensures var t := if c in esc then "%" + Figures(c) else if plus && c == ' ' then "+" else [c];
            UrlEscape.Escaped([c] + s, esc, plus) == t + UrlEscape.Escaped(s, esc, plus)
    ensures UrlEscape.Escaped("", esc, plus) == ""
  {
    HexDigits(c);
    hide UrlEscape.ToHex, Figures;
    assert ([c] + s)[1..] == s;
  }

  /** The status is APR_NOTFOUND exactly when the text written is the string. */
  lemma {:induction false} UrlUnchanged(s: string, esc: set<char>, plus: bool)
    requires IsByteString(s)
    ensures UrlEscape.Changes(s, esc, plus) <==> UrlEscape.Escaped(s, esc, plus) != s
    decreases s
  {
    if s == "" {
      UrlEscape.NothingEscaped(esc, plus);
    } else {
      UrlUnchanged(s[1..], esc, plus);
      UrlEscape.ChangesFront(s, esc, plus);
      assert s == [s[0]] + s[1..];
      hide UrlEscape.ToHex, UrlEscape.Changes;
      SameStart(UrlEscape.EscapedChar(s[0], esc, plus), UrlEscape.Escaped(s[1..], esc, plus), s);
    }
  }

  /** A piece that is no shorter than the character it stands for, and a rest no shorter
      than what it stands for. */
  lemma SameStart(piece: string, rest: string, s: string)
    requires s != "" && piece != "" && |rest| >= |s| - 1
    ensures piece + rest == s <==> piece == [s[0]] && rest == s[1..]
  {
    if piece + rest == s {
      assert |piece| == 1 && piece[0] == s[0];
      assert (piece + rest)[1..] == rest;
    }
    assert s == [s[0]] + s[1..];
  }

  /** `./` is put in front of a relative path whose first segment holds a colon. */
  lemma DotInFront(s: string, slen: int, esc: set<char>, k: nat)
    requires IsByteString(s)
    ensures k < |s| && s[k] == ':' && (forall m | 0 <= m < k :: s[m] != ':') ==>
              UrlEscape.EscapedPath(s, slen, false, esc)
              == (if exists m | 0 <= m < k :: s[m] == '/' then "" else "./")
                 + UrlEscape.Escaped(Taken(s, slen), esc, false)
    ensures ':' !in s ==>
              UrlEscape.EscapedPath(s, slen, false, esc) == "" + UrlEscape.Escaped(Taken(s, slen), esc, false)
    ensures UrlEscape.EscapedPath(s, slen, true, esc) == "" + UrlEscape.Escaped(Taken(s, slen), esc, false)
  {
    hide UrlEscape.Escaped;
    var colon, slash := UrlEscape.Find(s, ':'), UrlEscape.Find(s, '/');
    assert colon < |s| ==> s[colon] in s;
  }

  // ---- Shell, echo and LDAP ----

  /** What `apr_escape_echo` writes for a marked character. */
  function EchoForm(c: char, quote: bool): string
    requires c as int < 256
  {
    match c
    case '\n' => "\\n"
    case '\r' => "\\r"
    case '\t' => "\\t"
    case '\\' => "\\\\"
    case '\"' => if quote then "\\\"" else "\""
    case '\U{07}' => "\\a"
    case '\U{08}' => "\\b"
    case '\U{0B}' => "\\v"
    case '\U{0C}' => "\\f"
    case _ => "\\x" + Figures(c)
  }

  /** A marked character behind a backslash: itself for a shell, two figures for LDAP. */
  function TextForm(c: char, esc: set<char>, form: TextEscape.Form): string
    requires c as int < 256
  {
    if c !in esc then [c] else
    match form
    case Shell => "\\" + [c]
    case Ldap => "\\" + Figures(c)
    case Echo(quote) => EchoForm(c, quote)
  }

  lemma TextLetter(c: char, s: string, esc: set<char>, form: TextEscape.Form)
    requires c as int < 256 && IsBytes(s)
    ensures IsBytes([c] + s) && IsBytes("")
    ensures TextEscape.Escaped([c] + s, esc, form) == TextForm(c, esc, form) + TextEscape.Escaped(s, esc, form)
    ensures TextEscape.Escaped("", esc, form) == ""
  {
    PieceIsForm(c, esc, form);
    hide TextEscape.Piece, TextForm;
    assert ([c] + s)[1..] == s;
  }

  lemma PieceIsForm(c: char, esc: set<char>, form: TextEscape.Form)
    requires c as int < 256
    ensures TextEscape.Piece(c, esc, form) == TextForm(c, esc, form)
  {
    FormWithFigures(c);
    LetterForm(c);
    hide TextEscape.HexForm, Figures, EchoForm, TextEscape.EchoLetter;
  }

  lemma FormWithFigures(c: char)
    requires c as int < 256
    ensures TextEscape.HexForm(c, '\\') == "\\" + Figures(c)
    ensures "\\" + TextEscape.HexForm(c, 'x') == "\\x" + Figures(c)
  {
    HexDigits(c);
    hide UrlEscape.ToHex, Figures;
  }

  lemma LetterForm(c: char)
    requires c as int < 256
    ensures c == '\"' ==> EchoForm(c, true) == ['\\', '\"'] && EchoForm(c, false) == [c]
    ensures forall quote :: EchoForm(c, quote) ==
              if c == '\"' && !quote then [c]
              else if TextEscape.EchoLetter(c).Some? then ['\\', TextEscape.EchoLetter(c).value]
              else "\\x" + Figures(c)
  {
    hide Figures;
  }

  lemma {:induction false} TextUnchanged(s: string, esc: set<char>, form: TextEscape.Form)
    requires IsBytes(s)
    ensures |TextEscape.Escaped(s, esc, form)| >= |s|
    ensures TextEscape.Alters(s, esc, form) <==> TextEscape.Escaped(s, esc, form) != s
    decreases s
  {
    if s != "" {
      TextUnchanged(s[1..], esc, form);
      assert forall k | 0 < k < |s| :: s[k] == s[1..][k - 1];
      TextPiece(s[0], esc, form);
      hide TextEscape.Piece, TextEscape.Altered;
      SameStart(TextEscape.Piece(s[0], esc, form), TextEscape.Escaped(s[1..], esc, form), s);
    }
  }

  lemma TextPiece(c: char, esc: set<char>, form: TextEscape.Form)
    requires c as int < 256
    ensures TextEscape.Altered(c, esc, form) <==> TextEscape.Piece(c, esc, form) != [c]
  {
  }

  // ---- Entities ----

  /** A marked character becomes its entity, under `toasc` a byte from 128 on its code of
      three figures behind `&#`. */
  lemma EntityLetter(c: char, s: string, esc: set<char>, toasc: bool)
    requires c as int < 256 && IsBytes(s)
    ensures IsBytes([c] + s) && IsBytes("")
    ensures var n := c as int;
            var t := if c in esc then
                       if c == '>' then "&gt;" else if c == '<' then "&lt;" else if c == '&' then "&amp;"
                       else if c == '\"' then "&quot;" else if c == '\'' then "&apos;" else ""
                     else if toasc && n >= 128
                     then "&#" + [HEX_FIGURES[n / 100], HEX_FIGURES[n / 10 % 10], HEX_FIGURES[n % 10]]
                     else [c];
            EntityEscape.Escaped([c] + s, esc, toasc) == t + EntityEscape.Escaped(s, esc, toasc)
    ensures EntityEscape.Escaped("", esc, toasc) == ""
  {
    if c as int >= 128 { ThreeFigures(c); }
    hide EntityEscape.CodeForm;
    assert ([c] + s)[1..] == s;
  }

  lemma ThreeFigures(c: char)
    requires 128 <= c as int < 256
    ensures var n := c as int;
            EntityEscape.CodeForm(c) == "&#" + [HEX_FIGURES[n / 100], HEX_FIGURES[n / 10 % 10], HEX_FIGURES[n % 10]]
  {
    DecimalAt(c as int / 100);
    DecimalAt(c as int / 10 % 10);
    DecimalAt(c as int % 10);
  }

  lemma DecimalAt(d: nat)
    requires d < 10
    ensures EntityEscape.DigitOf(d) == HEX_FIGURES[d]
  {
  }

  /** When no other characters are marked than those the switch knows. */
  lemma {:induction false} EntityUnchanged(s: string, esc: set<char>, toasc: bool)
    requires IsByteString(s) && forall c | c in esc :: EntityEscape.InSwitch(c) || c == '\0'
    ensures |EntityEscape.Escaped(s, esc, toasc)| >= |s|
    ensures EntityEscape.Changes(s, esc, toasc) <==> EntityEscape.Escaped(s, esc, toasc) != s
    decreases s
  {
    hide EntityEscape.CodeForm;
    if s != "" {
      EntityUnchanged(s[1..], esc, toasc);
      assert forall k | 0 < k < |s| :: s[k] == s[1..][k - 1];
      EntityPiece(s[0], esc, toasc);
      hide EntityEscape.EscapedChar, EntityEscape.Altered;
      SameStart(EntityEscape.EscapedChar(s[0], esc, toasc), EntityEscape.Escaped(s[1..], esc, toasc), s);
    }
  }

  lemma EntityPiece(c: char, esc: set<char>, toasc: bool)
    requires 0 < c as int < 256 && (c in esc ==> EntityEscape.InSwitch(c))
    ensures EntityEscape.EscapedChar(c, esc, toasc) != ""
    ensures EntityEscape.Altered(c, esc, toasc) <==> EntityEscape.EscapedChar(c, esc, toasc) != [c]
  {
    hide EntityEscape.CodeForm;
  }
}
