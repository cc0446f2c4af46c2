/**
 `apr_escape_shell`, `apr_escape_echo` and `apr_escape_ldap` (encoding/apr_escape.c).
 */
module TextEscape {
  import opened Apr
  import opened UrlEscape

  // The characters that the generated table marks are the parameter `esc`.

  /** Which function; `quote` is the parameter of `apr_escape_echo`. */
  datatype Form = Shell | Echo(quote: bool) | Ldap

  /** What each function may be given: a C string, or, for LDAP with a length, as many
      characters as that, zeros included. */
  predicate IsInput(s: string, slen: int, form: Form) {
    if form == Ldap && slen >= 0 then slen <= |s| && IsBytes(s) else IsByteString(s)
  }

  /** What is escaped of it. */
  function Meant(s: string, slen: int, form: Form): (t: string)
    requires IsInput(s, slen, form)
    ensures |t| <= |s| && IsBytes(t) && forall k | 0 <= k < |t| :: t[k] == s[k]
  {
    Taken(s, slen)
  }

  // ---- One character ----

  /** The letter that stands for `c` behind a backslash. */
  function EchoLetter(c: char): Option<char> {
    if c == 7 as char then Some('a')
    else if c == 8 as char then Some('b')
    else if c == 12 as char then Some('f')
    else if c == '\n' then Some('n')
    else if c == '\r' then Some('r')
    else if c == '\t' then Some('t')
    else if c == 11 as char then Some('v')
    else if c == '\\' then Some('\\')
    else if c == '\"' then Some('\"')
    else None
  }

  /** What `c2x` writes. */
  function HexForm(c: char, prefix: char): (t: string)
    requires c as int < 256
    ensures |t| == 3 && t[0] == prefix && t[1..] == ToHex(c)[1..]
  {
    [prefix] + ToHex(c)[1..]
  }

  function Piece(c: char, esc: set<char>, form: Form): (t: string)
    requires c as int < 256
    ensures t != ""
  {
    if c !in esc then [c] else
    match form
    case Shell => ['\\', c]
    case Ldap => HexForm(c, '\\')
    case Echo(quote) =>
      if c == '\"' && !quote then [c]
      else if EchoLetter(c).Some? then ['\\', EchoLetter(c).value]
      else "\\" + HexForm(c, 'x')
  }

  /** Whether escaping changes this character. */
  predicate Altered(c: char, esc: set<char>, form: Form) {
    c in esc && !(form == Echo(false) && c == '\"')
  }

  function Escaped(s: string, esc: set<char>, form: Form): string
    requires IsBytes(s)
  {
    if s == "" then "" else Piece(s[0], esc, form) + Escaped(s[1..], esc, form)
  }

  predicate Alters(s: string, esc: set<char>, form: Form) {
    exists k | 0 <= k < |s| :: Altered(s[k], esc, form)
  }

  // ---- The passes ----

  lemma EscapedFront(s: string, i: nat, esc: set<char>, form: Form)
    requires IsBytes(s) && i < |s|
    ensures IsBytes(s[i..]) && IsBytes(s[i + 1..])
    ensures Escaped(s[i..], esc, form) == Piece(s[i], esc, form) + Escaped(s[i + 1..], esc, form)
  {
    assert s[i..][1..] == s[i + 1..];
  }

  lemma NothingLeft(s: string, esc: set<char>, form: Form)
    ensures s[|s|..] == "" && s[0..] == s && IsBytes("") && Escaped("", esc, form) == ""
  {
  }

  /** What a turn of the writing loop of `apr_escape_shell` adds. */
  method WriteShell(d: array<char>, at: nat, c: char, esc: set<char>) returns (next: nat, size: nat, found: bool)
    requires c as int < 256 && at + |Piece(c, esc, Shell)| < d.Length
    modifies d
    ensures size == |Piece(c, esc, Shell)| && next == at + size && found == Altered(c, esc, Shell)
    ensures d[..next] == old(d[..at]) + Piece(c, esc, Shell)
  {
    next, size, found := at, 0, false;
    if c in esc {
      next := Write(d, next, "\\");
      size := size + 1;
      found := true;
    }
    next := Write(d, next, [c]);
    size := size + 1;
  }

  /** Of `apr_escape_ldap`. */
  method WriteLdap(d: array<char>, at: nat, c: char, esc: set<char>) returns (next: nat, size: nat, found: bool)
    requires c as int < 256 && at + |Piece(c, esc, Ldap)| < d.Length
    modifies d
    ensures size == |Piece(c, esc, Ldap)| && next == at + size && found == Altered(c, esc, Ldap)
    ensures d[..next] == old(d[..at]) + Piece(c, esc, Ldap)
  {
    hide HexForm;
    next, size, found := at, 0, false;
    if c in esc {
      next := Write(d, next, HexForm(c, '\\'));
      size := size + 2;
      found := true;
    } else {
      next := Write(d, next, [c]);
    }
    size := size + 1;
  }

  /** Of `apr_escape_echo`: without `quote` the backslash in front of a double quote is
      written over. */
  method WriteEcho(d: array<char>, at: nat, c: char, esc: set<char>, quote: bool)
    returns (next: nat, size: nat, found: bool)
    requires c as int < 256 && at + |Piece(c, esc, Echo(quote))| < d.Length
    modifies d
    ensures size == |Piece(c, esc, Echo(quote))| && next == at + size && found == Altered(c, esc, Echo(quote))
    ensures d[..next] == old(d[..at]) + Piece(c, esc, Echo(quote))
  {
    hide HexForm;
    next, size, found := at, 0, false;
    if c in esc {
      next := Write(d, next, "\\");
      size := size + 1;
      if c == '\"' && !quote {
        d[next - 1] := c;
        assert d[..next] == old(d[..at]) + [c];
      } else if EchoLetter(c).Some? {
        next := Write(d, next, [EchoLetter(c).value]);
        Glue(old(d[..at]), "\\", [EchoLetter(c).value]);
        size := size + 1;
        found := true;
      } else {
        next := Write(d, next, HexForm(c, 'x'));
        Glue(old(d[..at]), "\\", HexForm(c, 'x'));
        size := size + 3;
        found := true;
      }
    } else {
      next := Write(d, next, [c]);
      size := size + 1;
    }
  }

  lemma Glue(a: string, b: string, c: string)
    ensures (a + b) + c == a + (b + c)
  {
  }

  /** The loops test the character first and the length then; the one of LDAP goes on
      over a zero as long as the length lasts. */
  predicate GoesOn(s: string, i: nat, slen: int, form: Form) {
    (At(s, i) != '\0' && slen != 0) || (form == Ldap && slen > 0)
  }

  lemma WhenItGoesOn(s: string, i: nat, slen0: int, form: Form)
    requires IsInput(s, slen0, form) && i <= |Meant(s, slen0, form)|
    ensures GoesOn(s, i, slen0 - i, form) <==> i < |Meant(s, slen0, form)|
  {
  }

  /** The writing loop of each function. */
  method WriteAll(d: array<char>, s: string, slen0: int, esc: set<char>, form: Form) returns (size: nat, found: bool)
    requires IsInput(s, slen0, form) && |Escaped(Meant(s, slen0, form), esc, form)| < d.Length
    modifies d
    ensures var t := Meant(s, slen0, form);
            && size == |Escaped(t, esc, form)| + 1 && found == Alters(t, esc, form)
            && d[..size - 1] == Escaped(t, esc, form) && d[size - 1] == '\0'
  {
    hide Escaped, Piece, Altered, GoesOn, Meant, IsInput;
    size, found := 1, false;
    var i: nat, next: nat, slen := 0, 0, slen0;
    ghost var t := Meant(s, slen0, form);
    ghost var all := Escaped(t, esc, form);
    NothingLeft(t, esc, form);
    WhenItGoesOn(s, i, slen0, form);
    while GoesOn(s, i, slen, form)
      invariant i <= |t| && slen == slen0 - i && size == next + 1 && next < d.Length
      invariant GoesOn(s, i, slen, form) <==> i < |t|
      invariant IsBytes(t[i..]) && all == d[..next] + Escaped(t[i..], esc, form)
      invariant found <==> exists k | 0 <= k < i :: Altered(t[k], esc, form)
      decreases |t| - i
    {
      EscapedFront(t, i, esc, form);
      OneMorePiece(all, d[..next], Piece(t[i], esc, form), Escaped(t[i + 1..], esc, form));
      var more, hit;
      match form {
        case Shell => next, more, hit := WriteShell(d, next, s[i], esc);
        case Ldap => next, more, hit := WriteLdap(d, next, s[i], esc);
        case Echo(quote) => next, more, hit := WriteEcho(d, next, s[i], esc, quote);
      }
      size, found := size + more, found || hit;
      i := i + 1;
      slen := slen - 1;
      WhenItGoesOn(s, i, slen0, form);
    }
    d[next] := '\0';
  }

  /** What a turn of the counting loop of each function adds. */
  method CountPiece(c: char, esc: set<char>, form: Form) returns (size: nat, found: bool)
    requires c as int < 256
    ensures size == |Piece(c, esc, form)| && found == Altered(c, esc, form)
  {
    hide HexForm;
    size, found := 0, false;
    match form {
      case Shell =>
        if c in esc {
          size := size + 1;
          found := true;
        }
        size := size + 1;
      case Ldap =>
        if c in esc {
          size := size + 2;
          found := true;
        }
        size := size + 1;
      case Echo(quote) =>
        size := size + 1;
        if c in esc {
          if c == '\"' {
            if quote {
              size := size + 1;
              found := true;
            }
          } else {
            size := size + if EchoLetter(c).Some? then 1 else 3;
            found := true;
          }
        }
    }
  }

  method CountAll(s: string, slen0: int, esc: set<char>, form: Form) returns (size: nat, found: bool)
    requires IsInput(s, slen0, form)
    ensures var t := Meant(s, slen0, form);
            size == |Escaped(t, esc, form)| + 1 && found == Alters(t, esc, form)
  {
    hide Escaped, Piece, Altered, GoesOn, Meant, IsInput;
    size, found := 1, false;
    var i: nat, slen := 0, slen0;
    ghost var t := Meant(s, slen0, form);
    NothingLeft(t, esc, form);
    WhenItGoesOn(s, i, slen0, form);
    while GoesOn(s, i, slen, form)
      invariant i <= |t| && slen == slen0 - i && IsBytes(t[i..])
      invariant GoesOn(s, i, slen, form) <==> i < |t|
      invariant size + |Escaped(t[i..], esc, form)| == |Escaped(t, esc, form)| + 1
      invariant found <==> exists k | 0 <= k < i :: Altered(t[k], esc, form)
      decreases |t| - i
    {
      EscapedFront(t, i, esc, form);
      var more, hit := CountPiece(s[i], esc, form);
      size, found := size + more, found || hit;
      i := i + 1;
      slen := slen - 1;
      WhenItGoesOn(s, i, slen0, form);
    }
  }

  /** The whole function; with `d` null only the size is found. */
  method Escape(d: array?<char>, s: string, slen: int, esc: set<char>, form: Form) returns (status: Status, len: nat)
    requires IsInput(s, slen, form) && (d != null ==> |Escaped(Meant(s, slen, form), esc, form)| < d.Length)
    modifies d
    ensures var t := Meant(s, slen, form);
            && len == |Escaped(t, esc, form)| + 1
            && status == (if Alters(t, esc, form) then Success else NotFound)
            && (d != null ==> d[..len - 1] == Escaped(t, esc, form) && d[len - 1] == '\0')
  {
    var found;
    if d != null {
      len, found := WriteAll(d, s, slen, esc, form);
    } else {
      len, found := CountAll(s, slen, esc, form);
    }
    status := if found then Success else NotFound;
  }

  // ---- Reading the escapes ----

  /** The character that a letter stands for behind a backslash. */
  function EchoMeaning(l: char): (r: Option<char>)
    ensures r.Some? <==> l in "abfnrtv\\\""
    ensures r.Some? ==> EchoLetter(r.value) == Some(l)
  {
    match l
    case 'a' => Some(7 as char)
    case 'b' => Some(8 as char)
    case 'f' => Some(12 as char)
    case 'n' => Some('\n')
    case 'r' => Some('\r')
    case 't' => Some('\t')
    case 'v' => Some(11 as char)
    case '\\' => Some('\\')
    case '\"' => Some('\"')
    case _ => None
  }

  predicate HexAt(t: string, i: nat) {
    i + 1 < |t| && IsHex(t[i]) && IsHex(t[i + 1])
  }

  /** What stands at `i` as a reader of the text takes it: a shell takes what follows a
      backslash as it stands and drops a newline with it, `echo` knows letters and `x`
      with two digits, and LDAP two digits alone. A backslash that begins nothing of the
      kind stands for itself. */
  function ReadAt(t: string, i: nat, form: Form): (r: (string, nat))
    requires i < |t|
    ensures i < r.1 <= |t|
  {
    if t[i] != '\\' then ([t[i]], i + 1) else
    match form
    case Shell =>
      if i + 1 == |t| then ("\\", i + 1)
      else if t[i + 1] == '\n' then ("", i + 2)
      else ([t[i + 1]], i + 2)
    case Ldap => if HexAt(t, i + 1) then ([FromHex(t[i + 1], t[i + 2])], i + 3) else ("\\", i + 1)
    case Echo(_) =>
      if At(t, i + 1) == 'x' && HexAt(t, i + 2) then ([FromHex(t[i + 2], t[i + 3])], i + 4)
      else if EchoMeaning(At(t, i + 1)).Some? then ([EchoMeaning(At(t, i + 1)).value], i + 2)
      else ("\\", i + 1)
  }

  function Read(t: string, i: nat, form: Form): string
    requires i <= |t|
    decreases |t| - i
  {
    if i == |t| then "" else ReadAt(t, i, form).0 + Read(t, ReadAt(t, i, form).1, form)
  }

  /** The set holds the backslash; or it is LDAP's, and holds every digit. */
  predicate Unambiguous(esc: set<char>, form: Form) {
    '\\' in esc || (form == Ldap && forall h | IsHex(h) :: h in esc)
  }

  /** A shell drops a newline that is escaped. */
  predicate Dropped(c: char, esc: set<char>, form: Form) {
    form == Shell && c == '\n' && c in esc
  }

  function Kept(s: string, esc: set<char>, form: Form): (r: string)
    ensures |r| <= |s| && (r == s <==> forall k | 0 <= k < |s| :: !Dropped(s[k], esc, form))
  {
    if s == "" then "" else
    assert s == [s[0]] + s[1..];
    var rest := Kept(s[1..], esc, form);
    if Dropped(s[0], esc, form) then rest else
    assert [s[0]] + rest == s ==> rest == s[1..] by { assert ([s[0]] + rest)[1..] == rest; }
    [s[0]] + rest
  }

  lemma PieceReadsBack(c: char, esc: set<char>, form: Form, t: string, i: nat, rest: string)
    requires c as int < 256 && StandsAt(t, i, Piece(c, esc, form), rest)
    requires c == '\\' ==> c in esc || (form == Ldap && (rest == "" || !IsHex(rest[0])))
    ensures i < |t| && t[i + |Piece(c, esc, form)|..] == rest
    ensures ReadAt(t, i, form) == (if Dropped(c, esc, form) then "" else [c], i + |Piece(c, esc, form)|)
  {
    hide FromHex, IsHex, ToHex, StandsAt;
    var piece := Piece(c, esc, form);
    TailOf(t, i, piece, rest);
    if rest != "" { assert t[i + |piece|] == t[i + |piece|..][0]; }
    assert t[i + 0] == piece[0];
    if |piece| > 1 { assert t[i + 1] == piece[1]; }
    if |piece| > 2 { assert t[i + 2] == piece[2]; }
    if |piece| > 3 { assert t[i + 3] == piece[3]; }
  }

  /** No escaped text begins with a digit that the set holds. */
  lemma NoDigitFirst(s: string, esc: set<char>, form: Form)
    requires IsBytes(s) && form == Ldap && forall h | IsHex(h) :: h in esc
    ensures Escaped(s, esc, form) == "" || !IsHex(Escaped(s, esc, form)[0])
  {
    if s != "" { assert Escaped(s, esc, form)[0] == Piece(s[0], esc, form)[0]; }
  }

  /** The first character comes back or is dropped, and the others follow. */
  lemma FirstReadsBack(s: string, esc: set<char>, form: Form, t: string, i: nat)
    requires IsBytes(s) && s != "" && Unambiguous(esc, form) && i <= |t| && t[i..] == Escaped(s, esc, form)
    ensures IsBytes(s[1..]) && s[0] as int < 256
    ensures var n := i + |Piece(s[0], esc, form)|;
            && n <= |t| && t[n..] == Escaped(s[1..], esc, form)
            && Read(t, i, form) == (if Dropped(s[0], esc, form) then "" else [s[0]]) + Read(t, n, form)
  {
    hide Piece, ReadAt, IsHex, Read;
    assert StandsAt(t, i, Piece(s[0], esc, form), Escaped(s[1..], esc, form));
    hide Escaped, StandsAt;
    if '\\' !in esc { NoDigitFirst(s[1..], esc, form); }
    PieceReadsBack(s[0], esc, form, t, i, Escaped(s[1..], esc, form));
    ReadFront(t, i, form);
  }

  lemma NothingReads(esc: set<char>, form: Form, t: string, i: nat)
    requires i <= |t| && IsBytes("") && t[i..] == Escaped("", esc, form)
    ensures Read(t, i, form) == "" && Kept("", esc, form) == ""
  {
    hide ReadAt;
    assert i == |t|;
  }

  lemma KeptFront(s: string, esc: set<char>, form: Form)
    requires s != ""
    ensures Kept(s, esc, form) == (if Dropped(s[0], esc, form) then "" else [s[0]]) + Kept(s[1..], esc, form)
  {
  }

  lemma {:induction false} ReadsBackFrom(s: string, esc: set<char>, form: Form, t: string, i: nat)
    requires IsBytes(s) && Unambiguous(esc, form) && i <= |t| && t[i..] == Escaped(s, esc, form)
    ensures Read(t, i, form) == Kept(s, esc, form)
    decreases |s|
  {
    hide *;
    if s == "" {
      NothingReads(esc, form, t, i);
    } else {
      FirstReadsBack(s, esc, form, t, i);
      ReadsBackFrom(s[1..], esc, form, t, i + |Piece(s[0], esc, form)|);
      KeptFront(s, esc, form);
    }
  }

  lemma ReadFront(t: string, i: nat, form: Form)
    requires i < |t|
    ensures Read(t, i, form) == ReadAt(t, i, form).0 + Read(t, ReadAt(t, i, form).1, form)
  {
    hide ReadAt;
  }

  /** What comes back under such a set: all of the string, but for the newlines that a
      shell drops. */
  lemma WhatComesBack(s: string, esc: set<char>, form: Form)
    requires IsBytes(s) && Unambiguous(esc, form)
    ensures Read(Escaped(s, esc, form), 0, form) == Kept(s, esc, form)
    ensures Read(Escaped(s, esc, form), 0, form) == s <==> !(form == Shell && '\n' in esc && '\n' in s)
  {
    assert Escaped(s, esc, form)[0..] == Escaped(s, esc, form);
    ReadsBackFrom(s, esc, form, Escaped(s, esc, form), 0);
  }

  /** Under another there is a string that reads as another: two backslashes as one; for
      LDAP a backslash and two digits as one character. A shell makes nothing of an
      escaped newline. */
  lemma Misread(esc: set<char>, form: Form) returns (s: string)
    requires !Unambiguous(esc, form) || (form == Shell && '\n' in esc)
    ensures IsByteString(s) && Read(Escaped(s, esc, form), 0, form) != s
  {
    if Unambiguous(esc, form) {
      s := "\n";
      WhatComesBack(s, esc, form);
      assert s[0] == '\n';
    } else {
      if form == Ldap {
        var h :| IsHex(h) && h !in esc;
        s := ['\\', h, h];
      } else {
        s := "\\\\";
      }
      PlainText(s, esc, form);
      ReadAgain(s, form);
    }
  }

  lemma {:induction false} PlainText(s: string, esc: set<char>, form: Form)
    requires IsBytes(s) && forall k | 0 <= k < |s| :: s[k] !in esc
    ensures Escaped(s, esc, form) == s
    decreases s
  {
    if s != "" {
      PlainText(s[1..], esc, form);
      assert s == [s[0]] + s[1..];
    }
  }

  lemma ReadAgain(s: string, form: Form)
    requires if form == Ldap then |s| == 3 && s[0] == '\\' && IsHex(s[1]) && IsHex(s[2]) else s == "\\\\"
    ensures |Read(s, 0, form)| == 1
  {
    hide FromHex, IsHex;
    assert ReadAt(s, 0, form).1 == |s|;
    assert Read(s, |s|, form) == "";
  }

  /** Every string comes back from its escaped form exactly when the set holds the
      backslash and, for a shell, no newline; or, for LDAP, every hexadecimal digit. */
  lemma WhenEscapesReadBack(esc: set<char>, form: Form)
    ensures Unambiguous(esc, form) && !(form == Shell && '\n' in esc)
            <==> forall s | IsByteString(s) :: Read(Escaped(s, esc, form), 0, form) == s
  {
    if Unambiguous(esc, form) && !(form == Shell && '\n' in esc) {
      forall s | IsByteString(s) ensures Read(Escaped(s, esc, form), 0, form) == s {
        WhatComesBack(s, esc, form);
      }
    } else {
      var s := Misread(esc, form);
    }
  }
}
