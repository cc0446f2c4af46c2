/**
 The characters that the table of tools/gen_test_char.c marks, and what comes back with them.
 */
module EscapeTable {
  import opened Apr
  import UrlEscape
  import EntityAscii
  import EntityEscape
  import EntityLaws
  import TextEscape

  // In the C locale.

  predicate IsAlnum(c: char) { '0' <= c <= '9' || 'A' <= c <= 'Z' || 'a' <= c <= 'z' }

  predicate IsPrint(c: char) { ' ' <= c <= '~' }

  predicate IsByte(c: char) { c as int < 256 }

  /** T_ESCAPE_SHELL_CMD */
  const SHELL_CMD: set<char> := set c | c in "&;`'\"|*?~<>^()[]{}$\\\n"

  /** T_ESCAPE_PATH_SEGMENT; strchr finds the terminator in every string. */
  const PATH_SEGMENT: set<char> :=
    set c: char | IsByte(c) && !IsAlnum(c) && c !in "$-_.+!*'(),:@&=~" && c != '\0'

  /** T_OS_ESCAPE_PATH */
  const OS_PATH: set<char> := PATH_SEGMENT - {'/'}

  /** T_ESCAPE_URLENCODED */
  const URLENCODED: set<char> := set c: char | IsByte(c) && !IsAlnum(c) && c !in ".-*_ " && c != '\0'

  /** T_ESCAPE_ECHO */
  const ECHO: set<char> := set c: char | IsByte(c) && c != '\0' && (!IsPrint(c) || c == '\"' || c == '\\')

  /** T_ESCAPE_XML */
  const XML: set<char> := {'<', '>', '&', '\"', '\0'}

  /** T_ESCAPE_LDAP_DN */
  const LDAP_DN: set<char> := set c: char | IsByte(c) && (!IsPrint(c) || c in "\"+,;<>\\")

  /** T_ESCAPE_LDAP_FILTER */
  const LDAP_FILTER: set<char> := set c: char | IsByte(c) && (!IsPrint(c) || c in "*()\\")

  lemma PercentIsMarked()
    ensures '%' in PATH_SEGMENT && '%' in OS_PATH && '%' in URLENCODED && '+' in URLENCODED
  {
  }

  lemma EscapedComesBack(s: string, esc: set<char>, plus: bool)
    requires IsByteString(s) && '%' in esc && (plus ==> '+' in esc)
    ensures UrlEscape.ReadFrom(UrlEscape.Escaped(s, esc, plus), 0, "", "", plus).text == s
  {
    hide *;
    UrlEscape.EscapedReadsBack(s, esc, plus);
  }

  lemma PathComesBack(s: string, partial: bool, esc: set<char>)
    requires IsByteString(s) && '%' in esc
    ensures UrlEscape.ReadFrom(UrlEscape.EscapedPath(s, -1, partial, esc), 0, "", "", false).text
            == (if UrlEscape.NeedsDot(s, partial) then "./" else "") + s
  {
    assert UrlEscape.Safe(s, esc, false);
    assert Taken(s, -1) == s;
    hide *;
    UrlEscape.EscapedPathReadsBack(s, -1, partial, esc);
  }

  /** `%` is marked for all three url escapers, and `+` where a space becomes one: their
      strings always come back. */
  lemma UrlsComeBack(s: string, partial: bool)
    requires IsByteString(s)
    ensures UrlEscape.ReadFrom(UrlEscape.Escaped(s, PATH_SEGMENT, false), 0, "", "", false).text == s
    ensures UrlEscape.ReadFrom(UrlEscape.Escaped(s, URLENCODED, true), 0, "", "", true).text == s
    ensures UrlEscape.ReadFrom(UrlEscape.EscapedPath(s, -1, partial, OS_PATH), 0, "", "", false).text
            == (if UrlEscape.NeedsDot(s, partial) then "./" else "") + s
  {
    PercentIsMarked();
    hide *;
    EscapedComesBack(s, PATH_SEGMENT, false);
    EscapedComesBack(s, URLENCODED, true);
    PathComesBack(s, partial, OS_PATH);
  }

  /** The apostrophe is not marked, so `&apos;` is never written, and entities always
      come back. */
  lemma EntitiesComeBack(s: string)
    requires IsByteString(s)
    ensures EntityEscape.ReadFrom(EntityEscape.Escaped(s, XML, false), 0).text == s
  {
    hide EntityEscape.ReadFrom, EntityEscape.Escaped;
    EntityLaws.EntitiesReadBack(s, XML);
  }

  /** With `toasc` those that are ASCII do. */
  lemma AsciiComesBack(s: string)
    requires IsByteString(s)
    ensures EntityEscape.ReadFrom(EntityEscape.Escaped(s, XML, true), 0).text == s <==> EntityAscii.AllAscii(s)
  {
    hide EntityEscape.ReadFrom, EntityEscape.Escaped;
    EntityAscii.AsciiReadsBack(s, XML);
  }

  /** The last byte of ISO 8859-1 is written without the semicolon. */
  lemma LastByte()
    ensures EntityEscape.Escaped("\U{FF}", XML, true) == "&#255"
  {
    assert "\U{FF}"[1..] == "";
    assert EntityEscape.EscapedChar('\U{FF}', XML, true) == EntityEscape.CodeForm('\U{FF}') == "&#255";
  }

  /** The newline is marked, and a shell drops it with its backslash. */
  lemma ShellLosesNewlines(s: string)
    requires IsByteString(s)
    ensures TextEscape.Read(TextEscape.Escaped(s, SHELL_CMD, TextEscape.Shell), 0, TextEscape.Shell) == s
            <==> '\n' !in s
  {
    hide TextEscape.Read, TextEscape.Escaped;
    TextEscape.WhatComesBack(s, SHELL_CMD, TextEscape.Shell);
  }

  /** Echo strings come back with either setting of `quote`. */
  lemma EchoComesBack(s: string, quote: bool)
    requires IsByteString(s)
    ensures TextEscape.Read(TextEscape.Escaped(s, ECHO, TextEscape.Echo(quote)), 0, TextEscape.Echo(quote)) == s
  {
    hide TextEscape.Read, TextEscape.Escaped;
    TextEscape.WhatComesBack(s, ECHO, TextEscape.Echo(quote));
  }

  /** The characters marked under the flags of `apr_escape_ldap`. */
  function LdapSet(dn: bool, filter: bool): set<char> {
    (if dn then LDAP_DN else {}) + (if filter then LDAP_FILTER else {})
  }

  /** LDAP strings, zeros included, come back if a flag is given, and only then. */
  lemma LdapComesBack(dn: bool, filter: bool)
    ensures dn || filter <==>
            forall s | IsBytes(s) ::
              TextEscape.Read(TextEscape.Escaped(s, LdapSet(dn, filter), TextEscape.Ldap), 0, TextEscape.Ldap) == s
  {
    hide TextEscape.Read, TextEscape.Escaped;
    var esc := LdapSet(dn, filter);
    if dn || filter {
      forall s | IsBytes(s)
        ensures TextEscape.Read(TextEscape.Escaped(s, esc, TextEscape.Ldap), 0, TextEscape.Ldap) == s
      {
        TextEscape.WhatComesBack(s, esc, TextEscape.Ldap);
      }
    } else {
      assert UrlEscape.IsHex('0') && '0' !in esc;
      var s := TextEscape.Misread(esc, TextEscape.Ldap);
    }
  }
}
