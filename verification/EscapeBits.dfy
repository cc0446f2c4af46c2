/**
 The entries of the generated table test_char_table (include/private/apr_escape_test_char.h).

 Each is the sum of the bits of the sets a byte is in:
   1 T_ESCAPE_SHELL_CMD, 2 T_ESCAPE_PATH_SEGMENT, 4 T_OS_ESCAPE_PATH, 8 T_ESCAPE_ECHO,
   16 T_ESCAPE_URLENCODED, 32 T_ESCAPE_XML, 64 T_ESCAPE_LDAP_DN, 128 T_ESCAPE_LDAP_FILTER.

 The sets themselves are those of the program that prints the table.
 */
module EscapeBits {
  import opened Apr
  import opened EscapeTable

  /** The entry of a byte; letters and figures have none, nor have `-`, `.` and `_`. */
  function Entry(c: char): nat {
    if c == '\0' then 224
    else if c == '\n' then 223
    else if c < ' ' || c > '~' then 222
    else match c
      case ' ' => 6 case '!' => 16 case '\"' => 127 case '#' => 22 case '$' => 17 case '%' => 22
      case '&' => 49 case '\'' => 17 case '(' => 145 case ')' => 145 case '*' => 129 case '+' => 80
      case ',' => 80 case '/' => 18 case ':' => 16 case ';' => 87 case '<' => 119 case '=' => 16
      case '>' => 119 case '?' => 23 case '@' => 16 case '[' => 23 case '\\' => 223 case ']' => 23
      case '^' => 23 case '`' => 23 case '{' => 23 case '|' => 23 case '}' => 23 case '~' => 17
      case _ => 0
  }

  predicate Bit(c: char, bit: nat)
    requires bit > 0
  {
    Entry(c) / bit % 2 == 1
  }

  lemma ShellBit(c: char)
    requires c as int < 256
    ensures c in SHELL_CMD <==> Bit(c, 1)
  {
    ShellIs(c);
    hide SHELL_CMD;
  }

  lemma ShellIs(c: char)
    ensures c in SHELL_CMD <==>
            || c == '&' || c == ';' || c == '`' || c == '\'' || c == '\"' || c == '|' || c == '*' || c == '?'
            || c == '~' || c == '<' || c == '>' || c == '^' || c == '(' || c == ')' || c == '[' || c == ']'
            || c == '{' || c == '}' || c == '$' || c == '\\' || c == '\n'
  {
  }

  lemma SegmentBit(c: char)
    requires c as int < 256
    ensures c in PATH_SEGMENT <==> Bit(c, 2)
  {
    SegmentIs(c);
    hide PATH_SEGMENT;
  }

  lemma SegmentIs(c: char)
    ensures c in PATH_SEGMENT <==>
            && 0 < c as int < 256 && !('0' <= c <= '9' || 'A' <= c <= 'Z' || 'a' <= c <= 'z')
            && c != '$' && c != '-' && c != '_' && c != '.' && c != '+' && c != '!' && c != '*' && c != '\''
            && c != '(' && c != ')' && c != ',' && c != ':' && c != '@' && c != '&' && c != '=' && c != '~'
  {
  }

  lemma PathBit(c: char)
    requires c as int < 256
    ensures c in OS_PATH <==> Bit(c, 4)
  {
  }

  lemma EchoBit(c: char)
    requires c as int < 256
    ensures c in ECHO <==> Bit(c, 8)
  {
  }

  lemma UrlencodedBit(c: char)
    requires c as int < 256
    ensures c in URLENCODED <==> Bit(c, 16)
  {
  }

  lemma XmlBit(c: char)
    requires c as int < 256
    ensures c in XML <==> Bit(c, 32)
  {
  }

  lemma DnBit(c: char)
    requires c as int < 256
    ensures c in LDAP_DN <==> Bit(c, 64)
  {
  }

  lemma FilterBit(c: char)
    requires c as int < 256
    ensures c in LDAP_FILTER <==> Bit(c, 128)
  {
  }

  /** The bits of an entry are the sets of characters that are marked. */
  lemma MarksAreBits(c: char)
    requires c as int < 256
    ensures (c in SHELL_CMD <==> Bit(c, 1)) && (c in PATH_SEGMENT <==> Bit(c, 2)) && (c in OS_PATH <==> Bit(c, 4))
    ensures (c in ECHO <==> Bit(c, 8)) && (c in URLENCODED <==> Bit(c, 16)) && (c in XML <==> Bit(c, 32))
    ensures (c in LDAP_DN <==> Bit(c, 64)) && (c in LDAP_FILTER <==> Bit(c, 128))
  {
    hide *;
    ShellBit(c);
    SegmentBit(c);
    PathBit(c);
    EchoBit(c);
    UrlencodedBit(c);
    XmlBit(c);
    DnBit(c);
    FilterBit(c);
  }

  /** The two flags of `apr_escape_ldap` each stand for a bit. */
  lemma LdapBits(c: char, dn: bool, filter: bool)
    requires c as int < 256
    ensures c in LdapSet(dn, filter) <==> (dn && Bit(c, 64)) || (filter && Bit(c, 128))
  {
    DnBit(c);
    FilterBit(c);
    hide LDAP_DN, LDAP_FILTER, Bit;
  }
}
