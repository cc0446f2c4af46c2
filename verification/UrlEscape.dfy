/**
 The url escapers and `apr_unescape_url` (encoding/apr_escape.c).
 */
module UrlEscape {
  import opened Apr
  import BitOps

  // The characters that the generated table marks are the parameter `esc`; a string
  // ends at its terminator or at the length `slen`, unless that is negative.

  // ---- Hexadecimal digits ----

  /** apr_isxdigit */
  predicate IsHex(c: char) { '0' <= c <= '9' || 'A' <= c <= 'F' || 'a' <= c <= 'f' }

  /** One half of `x2c`. */
  function HexValue(c: char): (v: nat)
    requires IsHex(c)
    ensures v < 16
  {
    if c >= 'A' then UpperCode(c) - 'A' as int + 10 else c as int - '0' as int
  }

  /** `c & 0xdf` */
  function UpperCode(c: char): (u: int)
    requires IsHex(c) && c >= 'A'
    ensures u == if c >= 'a' then c as int - 32 else c as int
  {
    var b := BitOps.Narrow(c as int);
    MaskClearsCase(b);
    (b & 0xdf) as int
  }

  lemma MaskClearsCase(b: bv8)
    requires 0x41 <= b as int <= 0x46 || 0x61 <= b as int <= 0x66
    ensures (b & 0xdf) as int == if b as int >= 0x61 then b as int - 32 else b as int
  {
    BitOps.Cut5(b);
    BitOps.Cut5(b & 0xdf);
    assert (b & 0xdf) & 31 == b & 31;
    assert 0x61 <= b ==> (b & 0xdf) >> 5 == 2 && b >> 5 == 3;
    assert 0x41 <= b <= 0x46 ==> (b & 0xdf) >> 5 == 2 && b >> 5 == 2;
  }

  /** `x2c` */
  function FromHex(hi: char, lo: char): (c: char)
    requires IsHex(hi) && IsHex(lo)
    ensures c as int == HexValue(hi) * 16 + HexValue(lo) < 256
  {
    (HexValue(hi) * 16 + HexValue(lo)) as char
  }

  /** A digit of c2x_table. */
  function HexDigit(v: nat): (c: char)
    requires v < 16
    ensures IsHex(c) && HexValue(c) == v
  {
    if v < 10 then (v + '0' as int) as char else (v - 10 + 'a' as int) as char
  }

  /** What `c2x` writes with prefix `%`. */
  function ToHex(c: char): (t: string)
    requires c as int < 256
    ensures |t| == 3 && t[0] == '%' && IsHex(t[1]) && IsHex(t[2]) && FromHex(t[1], t[2]) == c
  {
    ['%', HexDigit(c as int / 16), HexDigit(c as int % 16)]
  }

  // ---- Escaping ----

  /** One character escaped; under `plus` a space that is not in the set becomes `+`. */
  function EscapedChar(c: char, esc: set<char>, plus: bool): (t: string)
    requires c as int < 256
    ensures t != ""
  {
    if c in esc then ToHex(c) else if plus && c == ' ' then "+" else [c]
  }

  function Escaped(s: string, esc: set<char>, plus: bool): (t: string)
    requires IsByteString(s)
    ensures |t| >= |s|
  {
    if s == "" then "" else EscapedChar(s[0], esc, plus) + Escaped(s[1..], esc, plus)
  }

  /** Whether escaping changes anything. */
  predicate Changes(s: string, esc: set<char>, plus: bool) {
    exists k | 0 <= k < |s| :: s[k] in esc || (plus && s[k] == ' ')
  }

  lemma {:induction false} EscapedStep(s: string, k: nat, esc: set<char>, plus: bool)
    requires IsByteString(s) && k < |s|
    ensures Escaped(s[..k + 1], esc, plus) == Escaped(s[..k], esc, plus) + EscapedChar(s[k], esc, plus)
    decreases k
  {
    if k > 0 {
      EscapedStep(s[1..], k - 1, esc, plus);
      assert s[1..][..k] == s[..k + 1][1..] && s[1..][..k - 1] == s[..k][1..];
    } else {
      assert s[..1][1..] == "" && s[..0] == "";
    }
  }

  /** More characters never need less room. */
  lemma {:induction false} EscapedGrows(s: string, k: nat, esc: set<char>, plus: bool)
    requires IsByteString(s) && k <= |s|
    ensures |Escaped(s[..k], esc, plus)| <= |Escaped(s, esc, plus)|
    decreases |s| - k
  {
    if k < |s| {
      EscapedStep(s, k, esc, plus);
      EscapedGrows(s, k + 1, esc, plus);
    } else {
      assert s[..k] == s;
    }
  }

  /** `*d++ = c` for the characters of `t`. */
  method Write(d: array<char>, at: nat, t: string) returns (next: nat)
    requires at + |t| <= d.Length
    modifies d
    ensures next == at + |t| && d[..next] == old(d[..at]) + t
  {
    next := at;
    for k := 0 to |t|
      invariant next == at + k && d[..next] == old(d[..at]) + t[..k]
    {
      d[next] := t[k];
      assert t[..k + 1] == t[..k] + [t[k]];
      assert d[..next + 1] == d[..next] + [t[k]];
      next := next + 1;
    }
    assert t[..|t|] == t;
  }

  /** The writing loop the three escapers share, behind `at` characters of `d`;
      `size0` and `found0` come from what was done before. */
  method WriteLoop(
    d: array<char>, at: nat, s: string, slen0: int, esc: set<char>, plus: bool, size0: nat, found0: bool)
    returns (size: nat, found: bool)
    requires IsByteString(s) && at + |Escaped(Taken(s, slen0), esc, plus)| < d.Length
    modifies d
    ensures var t := Taken(s, slen0);
            size == size0 + |Escaped(t, esc, plus)| && found == (found0 || Changes(t, esc, plus))
    ensures var text := Escaped(Taken(s, slen0), esc, plus);
            d[..at + |text|] == old(d[..at]) + text && d[at + |text|] == '\0'
  {
    hide Escaped, Changes, EscapedChar;
    size, found := size0, found0;
    var i, next, slen := 0, at, slen0;
    ghost var t := Taken(s, slen0);
    NothingEscaped(esc, plus);
    assert t[..0] == "" && old(d[..at]) + "" == d[..at];
    while i < |s| && slen != 0
      invariant 0 <= i <= |t| && slen == slen0 - i && at <= next < d.Length
      invariant next == at + |Escaped(t[..i], esc, plus)| && size == size0 + next - at
      invariant d[..next] == old(d[..at]) + Escaped(t[..i], esc, plus)
      invariant found == (found0 || Changes(t[..i], esc, plus))
      decreases |s| - i
    {
      EscapedStep(t, i, esc, plus);
      EscapedGrows(t, i + 1, esc, plus);
      ChangesStep(t, i, esc, plus);
      var more, hit;
      next, more, hit := WriteEscaped(d, next, s[i], esc, plus);
      size, found := size + more, found || hit;
      i := i + 1;
      slen := slen - 1;
    }
    assert t[..i] == t;
    d[next] := '\0';
  }

  /** One turn of that loop: what it adds to the size, and whether it changes anything. */
  method WriteEscaped(d: array<char>, at: nat, c: char, esc: set<char>, plus: bool)
    returns (next: nat, size: nat, found: bool)
    requires c as int < 256 && at + |EscapedChar(c, esc, plus)| < d.Length
    modifies d
    ensures size == |EscapedChar(c, esc, plus)| && next == at + size
    ensures d[..next] == old(d[..at]) + EscapedChar(c, esc, plus)
    ensures found == (c in esc || (plus && c == ' '))
  {
    hide ToHex;
    size, found := 0, false;
    if c in esc {
      next := Write(d, at, ToHex(c));
      size := size + 2;
      found := true;
    } else if plus && c == ' ' {
      next := Write(d, at, "+");
      found := true;
    } else {
      next := Write(d, at, [c]);
    }
    size := size + 1;
  }

  lemma NothingEscaped(esc: set<char>, plus: bool)
    ensures Escaped("", esc, plus) == "" && !Changes("", esc, plus)
  {
  }

  /** The counting loop. */
  method CountLoop(s: string, slen0: int, esc: set<char>, plus: bool, size0: nat, found0: bool)
    returns (size: nat, found: bool)
    requires IsByteString(s)
    ensures var t := Taken(s, slen0);
            size == size0 + |Escaped(t, esc, plus)| && found == (found0 || Changes(t, esc, plus))
  {
    hide Escaped, Changes, ToHex;
    size, found := size0, found0;
    var i, slen := 0, slen0;
    ghost var t := Taken(s, slen0);
    NothingEscaped(esc, plus);
    assert t[..0] == "";
    while i < |s| && slen != 0
      invariant 0 <= i <= |t| && slen == slen0 - i && size == size0 + |Escaped(t[..i], esc, plus)|
      invariant found == (found0 || Changes(t[..i], esc, plus))
      decreases |s| - i
    {
      var c := s[i];
      EscapedStep(t, i, esc, plus);
      ChangesStep(t, i, esc, plus);
      if c in esc {
        size := size + 2;
        found := true;
      } else if plus && c == ' ' {
        found := true;
      }
      size := size + 1;
      i := i + 1;
      slen := slen - 1;
    }
    assert t[..i] == t;
  }

  lemma ChangesStep(s: string, k: nat, esc: set<char>, plus: bool)
    requires k < |s|
    ensures Changes(s[..k + 1], esc, plus) <==> Changes(s[..k], esc, plus) || s[k] in esc || (plus && s[k] == ' ')
  {
    assert forall m | 0 <= m < k :: s[..k + 1][m] == s[..k][m];
    assert s[..k + 1][k] == s[k];
  }

  /** `apr_escape_path_segment`; with `d` null only the size is found. */
  method EscapePathSegment(d: array?<char>, s: string, slen: int, esc: set<char>) returns (status: Status, len: nat)
    requires IsByteString(s) && (d != null ==> |Escaped(Taken(s, slen), esc, false)| < d.Length)
    modifies d
    ensures len == |Escaped(Taken(s, slen), esc, false)| + 1
    ensures status == if Changes(Taken(s, slen), esc, false) then Success else NotFound
    ensures d != null ==> d[..len - 1] == Escaped(Taken(s, slen), esc, false) && d[len - 1] == '\0'
  {
    var found;
    if d != null {
      len, found := WriteLoop(d, 0, s, slen, esc, false, 1, false);
    } else {
      len, found := CountLoop(s, slen, esc, false, 1, false);
    }
    status := if found then Success else NotFound;
  }

  /** `apr_escape_urlencoded`; with `d` null only the size is found. */
  method EscapeUrlencoded(d: array?<char>, s: string, slen: int, esc: set<char>) returns (status: Status, len: nat)
    requires IsByteString(s) && (d != null ==> |Escaped(Taken(s, slen), esc, true)| < d.Length)
    modifies d
    ensures len == |Escaped(Taken(s, slen), esc, true)| + 1
    ensures status == if Changes(Taken(s, slen), esc, true) then Success else NotFound
    ensures d != null ==> d[..len - 1] == Escaped(Taken(s, slen), esc, true) && d[len - 1] == '\0'
  {
    var found;
    if d != null {
      len, found := WriteLoop(d, 0, s, slen, esc, true, 1, false);
    } else {
      len, found := CountLoop(s, slen, esc, true, 1, false);
    }
    status := if found then Success else NotFound;
  }

  /** strchr: the first place of `c`, or the length. */
  function Find(s: string, c: char): (k: nat)
    ensures k <= |s| && (k < |s| ==> s[k] == c) && forall m | 0 <= m < k :: s[m] != c
  {
    if s == "" || s[0] == c then 0 else
    assert forall m | 0 < m < |s| :: s[m] == s[1..][m - 1];
    1 + Find(s[1..], c)
  }

  /** A relative path that would read as a scheme gets `./` in front. */
  predicate NeedsDot(s: string, partial: bool) {
    !partial && Find(s, ':') < |s| && Find(s, ':') < Find(s, '/')
  }

  /** The colon is looked for in the whole string. */
  function EscapedPath(s: string, slen: int, partial: bool, esc: set<char>): string
    requires IsByteString(s)
  {
    (if NeedsDot(s, partial) then "./" else "") + Escaped(Taken(s, slen), esc, false)
  }

  /** `apr_escape_path` */
  method EscapePath(d: array?<char>, s: string, slen: int, partial: bool, esc: set<char>)
    returns (status: Status, len: nat)
    requires IsByteString(s) && (d != null ==> |EscapedPath(s, slen, partial, esc)| < d.Length)
    modifies d
    ensures len == |EscapedPath(s, slen, partial, esc)| + 1
    ensures status == if NeedsDot(s, partial) || Changes(Taken(s, slen), esc, false) then Success else NotFound
    ensures d != null ==> d[..len - 1] == EscapedPath(s, slen, partial, esc) && d[len - 1] == '\0'
  {
    var at, size, found := 0, 1, false;
    if !partial {
      var colon, slash := Find(s, ':'), Find(s, '/');
      if colon < |s| && (slash == |s| || colon < slash) {
        if d != null {
          at := Write(d, 0, "./");
        }
        size := size + 2;
        found := true;
      }
    }
    if d != null {
      len, found := WriteLoop(d, at, s, slen, esc, false, size, found);
    } else {
      len, found := CountLoop(s, slen, esc, false, size, found);
    }
    status := if found then Success else NotFound;
  }

  /** The first character of a kind in the first `n`, or none. */
  lemma FindInFront(s: string, n: nat, c: char)
    requires n <= |s|
    ensures Find(s[..n], c) == if Find(s, c) < n then Find(s, c) else n
  {
    var k := Find(s[..n], c);
    assert k < n ==> s[..n][k] == s[k];
    assert Find(s, c) < n ==> s[..n][Find(s, c)] == s[Find(s, c)];
    assert forall m | 0 <= m < k :: s[..n][m] == s[m];
  }

  /** Only the first `slen` characters count, unless the colon that asks for `./` stands
      behind them. */
  lemma WhenLengthCounts(s: string, slen: int, partial: bool, esc: set<char>)
    requires IsByteString(s)
    ensures EscapedPath(s, slen, partial, esc) == EscapedPath(Taken(s, slen), -1, partial, esc)
            <==> !(NeedsDot(s, partial) && 0 <= slen <= Find(s, ':'))
  {
    var t := Taken(s, slen);
    hide Escaped, Find;
    if 0 <= slen < |s| {
      FindInFront(s, slen, ':');
      FindInFront(s, slen, '/');
    }
    assert |"./" + Escaped(t, esc, false)| != |"" + Escaped(t, esc, false)|;
  }

  /** Two characters of `ab:c`, of which the second is no colon. */
  lemma ColonBehindLength()
    ensures EscapedPath("ab:c", 2, false, {}) == "./ab"
  {
    var s := "ab:c";
    assert s[1..] == "b:c" && s[1..][1..] == ":c";
    assert Find(s, ':') == 2 by { assert Find(s[1..][1..], ':') == 0 && Find(s[1..], ':') == 1; }
    assert s[2] == ':' && Find(s, '/') != 2;
    assert Find(s, '/') > 2;
    assert s[..2] == "ab" && "ab"[1..] == "b" && "b"[1..] == "";
    assert Escaped("b", {}, false) == "b";
  }

  // ---- Unescaping ----

  /** What one pass over a url gives. */
  datatype Reading = Reading(text: string, badEsc: bool, badPath: bool, found: bool)

  /** A valid escape stands at `i`. */
  predicate EscapeAt(s: string, i: nat) {
    i + 2 < |s| && IsHex(s[i + 1]) && IsHex(s[i + 2])
  }

  /** The piece at `i`: what is written for it, and the place after it. A character in
      `forbid`, or the terminator, is written but marks the path as bad; an escape
      of a character in `reserved` stays. */
  function PieceAt(s: string, i: nat, forbid: string, reserved: string, plus: bool): (r: (Reading, nat))
    requires i < |s|
    ensures i < r.1 <= |s| && r.0.text != ""
  {
    if plus && s[i] == '+' then (Reading(" ", false, false, true), i + 1)
    else if s[i] != '%' then (Reading([s[i]], false, false, false), i + 1)
    else if !EscapeAt(s, i) then (Reading("%", true, false, false), i + 1)
    else
      var c := FromHex(s[i + 1], s[i + 2]);
      if c == '\0' || c in forbid then (Reading([c], false, true, false), i + 3)
      else if c in reserved then (Reading(s[i..i + 3], false, false, false), i + 3)
      else (Reading([c], false, false, true), i + 3)
  }

  /** One reading after another. */
  function Then(a: Reading, b: Reading): Reading {
    Reading(a.text + b.text, a.badEsc || b.badEsc, a.badPath || b.badPath, a.found || b.found)
  }

  const NOTHING := Reading("", false, false, false)

  /** The pieces from `i` to the end of the string. */
  function ReadFrom(s: string, i: nat, forbid: string, reserved: string, plus: bool): Reading
    requires i <= |s|
    decreases |s| - i
  {
    if i == |s| then NOTHING else
    var (piece, n) := PieceAt(s, i, forbid, reserved, plus);
    Then(piece, ReadFrom(s, n, forbid, reserved, plus))
  }

  lemma FirstPiece(s: string, i: nat, forbid: string, reserved: string, plus: bool)
    requires i < |s|
    ensures var (piece, n) := PieceAt(s, i, forbid, reserved, plus);
            ReadFrom(s, i, forbid, reserved, plus) == Then(piece, ReadFrom(s, n, forbid, reserved, plus))
  {
  }

  function StatusOf(r: Reading): Status {
    if r.badEsc then Einval else if r.badPath then BadCh else if !r.found then NotFound else Success
  }

  /** An escape stands at `i` that stays because its character is reserved. */
  predicate StaysAt(s: string, i: nat, forbid: string, reserved: string) {
    && i < |s| && s[i] == '%' && EscapeAt(s, i)
    && var c := FromHex(s[i + 1], s[i + 2]); c != '\0' && c !in forbid && c in reserved
  }

  /** What a pass takes off `slen` for the piece at `i`: its length; only the writing
      pass takes 1 for an escape that stays. */
  function Cost(s: string, i: nat, forbid: string, reserved: string, plus: bool, counting: bool): (c: nat)
    requires i < |s|
    ensures c >= 1
  {
    if !counting && StaysAt(s, i, forbid, reserved) then 1 else PieceAt(s, i, forbid, reserved, plus).1 - i
  }

  /** The pieces one pass reads from `i` on: it stops at the terminator, or when `slen`
      is 0; a negative `slen` never is. */
  function ReadWith(
    s: string, i: nat, slen: int, forbid: string, reserved: string, plus: bool, counting: bool): Reading
    requires i <= |s|
    decreases |s| - i
  {
    if i == |s| || slen == 0 then NOTHING else
    var (piece, n) := PieceAt(s, i, forbid, reserved, plus);
    Then(piece, ReadWith(s, n, slen - Cost(s, i, forbid, reserved, plus, counting), forbid, reserved, plus, counting))
  }

  /** `apr_unescape_url`; with `d` null only size and status are found. */
  method UnescapeUrl(d: array?<char>, s: string, slen: int, forbid: string, reserved: string, plus: bool)
    returns (status: Status, len: nat)
    requires d != null ==> |ReadWith(s, 0, slen, forbid, reserved, plus, false).text| < d.Length
    modifies d
    ensures var r := ReadWith(s, 0, slen, forbid, reserved, plus, d == null);
            && len == |r.text| + 1 && status == StatusOf(r)
            && (d != null ==> d[..len - 1] == r.text && d[len - 1] == '\0')
  {
    var badesc, badpath, found;
    if d != null {
      len, badesc, badpath, found := UnescapeWriting(d, s, slen, forbid, reserved, plus);
    } else {
      len, badesc, badpath, found := UnescapeCounting(s, slen, forbid, reserved, plus);
    }
    if badesc {
      status := Einval;
    } else if badpath {
      status := BadCh;
    } else if !found {
      status := NotFound;
    } else {
      status := Success;
    }
  }

  method UnescapeWriting(d: array<char>, s: string, slen0: int, forbid: string, reserved: string, plus: bool)
    returns (size: nat, badesc: bool, badpath: bool, found: bool)
    requires |ReadWith(s, 0, slen0, forbid, reserved, plus, false).text| < d.Length
    modifies d
    ensures var r := ReadWith(s, 0, slen0, forbid, reserved, plus, false);
            && size == |r.text| + 1 && Reading(r.text, badesc, badpath, found) == r
            && d[..size - 1] == r.text && d[size - 1] == '\0'
  {
    hide ReadWith, PieceAt, StaysAt, Cost;
    size, badesc, badpath, found := 1, false, false, false;
    var i: nat, next: nat, slen := 0, 0, slen0;
    ghost var all := ReadWith(s, 0, slen0, forbid, reserved, plus, false);
    Regroup(NOTHING, all, NOTHING);
    while i < |s| && slen != 0
      invariant 0 <= i <= |s| && size == next + 1 && next < d.Length
      invariant all == Then(Reading(d[..next], badesc, badpath, found),
                            ReadWith(s, i, slen, forbid, reserved, plus, false))
      decreases |s| - i
    {
      ghost var done := Reading(d[..next], badesc, badpath, found);
      ReadStep(done, s, i, slen, forbid, reserved, plus, false);
      var more, esc, path, hit;
      next, i, slen, more, esc, path, hit := WritePiece(d, next, s, i, slen, forbid, reserved, plus);
      size, badesc, badpath, found := size + more, badesc || esc, badpath || path, found || hit;
    }
    ReadEnd(s, i, slen, forbid, reserved, plus, false);
    Regroup(Reading(d[..next], badesc, badpath, found), NOTHING, NOTHING);
    d[next] := '\0';
  }

  /** One turn of the writing loop: what it adds to size and flags. */
  method WritePiece(d: array<char>, next0: nat, s: string, i0: nat, slen0: int,
                    forbid: string, reserved: string, plus: bool)
    returns (next: nat, i: nat, slen: int, size: nat, badesc: bool, badpath: bool, found: bool)
    requires i0 < |s| && next0 + |PieceAt(s, i0, forbid, reserved, plus).0.text| < d.Length
    modifies d
    ensures var (piece, n) := PieceAt(s, i0, forbid, reserved, plus);
            && i == n && size == |piece.text| && next == next0 + size && d[..next] == old(d[..next0]) + piece.text
            && piece == Reading(piece.text, badesc, badpath, found)
    ensures slen == slen0 - Cost(s, i0, forbid, reserved, plus, false)
  {
    hide FromHex, IsHex;
    i, slen, size, badesc, badpath, found := i0, slen0, 0, false, false, false;
    if plus && s[i] == '+' {
      next := Write(d, next0, " ");
      found := true;
    } else if s[i] != '%' {
      next := Write(d, next0, [s[i]]);
    } else if !EscapeAt(s, i) {
      badesc := true;
      next := Write(d, next0, "%");
    } else {
      var decoded := FromHex(s[i + 1], s[i + 2]);
      if decoded == '\0' || decoded in forbid {
        badpath := true;
        next := Write(d, next0, [decoded]);
        i := i + 2;
        slen := slen - 2;
      } else if decoded in reserved {
        next := Write(d, next0, s[i..i + 3]);
        i := i + 2;
        size := size + 2;
      } else {
        next := Write(d, next0, [decoded]);
        i := i + 2;
        slen := slen - 2;
        found := true;
      }
    }
    size := size + 1;
    i := i + 1;
    slen := slen - 1;
  }

  method UnescapeCounting(s: string, slen0: int, forbid: string, reserved: string, plus: bool)
    returns (size: nat, badesc: bool, badpath: bool, found: bool)
    ensures var r := ReadWith(s, 0, slen0, forbid, reserved, plus, true);
            size == |r.text| + 1 && Reading(r.text, badesc, badpath, found) == r
  {
    hide ReadWith, PieceAt, Cost;
    size, badesc, badpath, found := 1, false, false, false;
    var i, slen := 0, slen0;
    ghost var all, done := ReadWith(s, 0, slen0, forbid, reserved, plus, true), NOTHING;
    Regroup(NOTHING, all, NOTHING);
    while i < |s| && slen != 0
      invariant 0 <= i <= |s| && size == |done.text| + 1
      invariant done == Reading(done.text, badesc, badpath, found)
      invariant all == Then(done, ReadWith(s, i, slen, forbid, reserved, plus, true))
      decreases |s| - i
    {
      ReadStep(done, s, i, slen, forbid, reserved, plus, true);
      done := Then(done, PieceAt(s, i, forbid, reserved, plus).0);
      var more, esc, path, hit;
      i, slen, more, esc, path, hit := CountPiece(s, i, slen, forbid, reserved, plus);
      size, badesc, badpath, found := size + more, badesc || esc, badpath || path, found || hit;
    }
    ReadEnd(s, i, slen, forbid, reserved, plus, true);
    Regroup(done, NOTHING, NOTHING);
  }

  /** One turn of the counting loop. */
  method CountPiece(s: string, i0: nat, slen0: int, forbid: string, reserved: string, plus: bool)
    returns (i: nat, slen: int, size: nat, badesc: bool, badpath: bool, found: bool)
    requires i0 < |s|
    ensures var (piece, n) := PieceAt(s, i0, forbid, reserved, plus);
            i == n && size == |piece.text| && piece == Reading(piece.text, badesc, badpath, found)
    ensures slen == slen0 - Cost(s, i0, forbid, reserved, plus, true)
  {
    hide FromHex, IsHex, StaysAt;
    i, slen, size, badesc, badpath, found := i0, slen0, 0, false, false, false;
    if plus && s[i] == '+' {
      found := true;
    } else if s[i] != '%' {
      // the character stays
    } else if !EscapeAt(s, i) {
      badesc := true;
    } else {
      var decoded := FromHex(s[i + 1], s[i + 2]);
      if decoded == '\0' || decoded in forbid {
        badpath := true;
        i := i + 2;
        slen := slen - 2;
      } else if decoded in reserved {
        i := i + 2;
        slen := slen - 2;
        size := size + 2;
      } else {
        i := i + 2;
        slen := slen - 2;
        found := true;
      }
    }
    i := i + 1;
    size := size + 1;
    slen := slen - 1;
  }

  /** One more piece behind what was read. */
  lemma ReadStep(
    done: Reading, s: string, i: nat, slen: int, forbid: string, reserved: string, plus: bool, counting: bool)
    requires i < |s| && slen != 0
    ensures var (piece, n) := PieceAt(s, i, forbid, reserved, plus);
            var left := slen - Cost(s, i, forbid, reserved, plus, counting);
            var all := Then(done, ReadWith(s, i, slen, forbid, reserved, plus, counting));
            && all == Then(Then(done, piece), ReadWith(s, n, left, forbid, reserved, plus, counting))
            && |done.text| + |piece.text| <= |all.text|
  {
    hide PieceAt, Cost;
    var (piece, n) := PieceAt(s, i, forbid, reserved, plus);
    var left := slen - Cost(s, i, forbid, reserved, plus, counting);
    Regroup(done, piece, ReadWith(s, n, left, forbid, reserved, plus, counting));
  }

  lemma ReadEnd(s: string, i: nat, slen: int, forbid: string, reserved: string, plus: bool, counting: bool)
    requires i <= |s| && (i == |s| || slen == 0)
    ensures ReadWith(s, i, slen, forbid, reserved, plus, counting) == NOTHING
  {
  }

  lemma Regroup(a: Reading, b: Reading, c: Reading)
    ensures Then(Then(a, b), c) == Then(a, Then(b, c))
    ensures Then(NOTHING, a) == a && Then(a, NOTHING) == a
    ensures |Then(Then(a, b), c).text| >= |Then(a, b).text|
  {
  }

  // ---- Unescaping undoes escaping ----

  /** The string has no `%`, and under `plus` no `+`, that the set leaves alone. */
  predicate Safe(s: string, esc: set<char>, plus: bool) {
    forall k | 0 <= k < |s| :: SafeChar(s[k], esc, plus)
  }

  predicate SafeChar(c: char, esc: set<char>, plus: bool) {
    (c == '%' ==> '%' in esc) && (plus && c == '+' ==> '+' in esc)
  }

  /** A safe character comes back from its escaped form. */
  lemma PieceReadsBack(c: char, esc: set<char>, plus: bool, t: string, i: nat, rest: string)
    requires 0 < c as int < 256 && SafeChar(c, esc, plus)
    requires i <= |t| && t[i..] == EscapedChar(c, esc, plus) + rest
    ensures i < |t|
    ensures var n := i + |EscapedChar(c, esc, plus)|;
            && n <= |t| && t[n..] == rest
            && PieceAt(t, i, "", "", plus) == (Reading([c], false, false, c in esc || (plus && c == ' ')), n)
  {
    hide ToHex, FromHex, IsHex;
    var piece := EscapedChar(c, esc, plus);
    TailOf(t, i, piece, rest);
    assert t[i + 0] == piece[0];
    if c in esc { assert t[i + 1] == piece[1] && t[i + 2] == piece[2]; }
  }

  /** A hexadecimal digit at the head of an escaped string stands for itself. */
  lemma HexHead(s: string, esc: set<char>, plus: bool, t: string, i: nat)
    requires IsByteString(s) && i < |t| && t[i..] == Escaped(s, esc, plus) && IsHex(t[i])
    ensures s != "" && s[0] == t[i] && i + 1 <= |t| && t[i + 1..] == Escaped(s[1..], esc, plus)
  {
    assert t[i..][0] == t[i];
    var piece := EscapedChar(s[0], esc, plus);
    assert piece[0] == t[i..][0];
    TailOf(t, i, piece, Escaped(s[1..], esc, plus));
  }

  /** An unescaped `%` spoils the reading: it is a bad escape, or it swallows the two
      characters behind it. */
  lemma PercentSpoils(s: string, esc: set<char>, plus: bool, t: string, i: nat)
    requires IsByteString(s) && s != "" && s[0] == '%' && '%' !in esc
    requires i <= |t| && t[i..] == Escaped(s, esc, plus)
    ensures i < |t| && t[i] == '%' && t[i + 1..] == Escaped(s[1..], esc, plus)
    ensures EscapeAt(t, i) ==> |s| >= 3 && t[i + 3..] == Escaped(s[3..], esc, plus)
  {
    TailOf(t, i, "%", Escaped(s[1..], esc, plus));
    assert t[i + 0] == '%';
    if EscapeAt(t, i) {
      HexHead(s[1..], esc, plus, t, i + 1);
      HexHead(s[1..][1..], esc, plus, t, i + 2);
      assert s[1..][1..][1..] == s[3..];
    }
  }

  /** `t` ends, from `i` on, in the escaped string. */
  lemma {:induction false} EscapedReadsBackFrom(s: string, esc: set<char>, plus: bool, t: string, i: nat)
    requires IsByteString(s) && i <= |t| && t[i..] == Escaped(s, esc, plus)
    ensures var r := ReadFrom(t, i, "", "", plus);
            && |r.text| <= |s|
            && (r.text == s && !r.badEsc && !r.badPath <==> Safe(s, esc, plus))
            && (Safe(s, esc, plus) ==> r.found == Changes(s, esc, plus))
    decreases |s|
  {
    hide EscapedChar, PieceAt, Changes, Safe, Escaped, EscapeAt;
    if s == "" {
      NothingEscaped(esc, plus);
      NothingUnsafe(esc, plus);
      assert i == |t|;
    } else {
      EscapedFront(s, esc, plus);
      SafeFront(s, esc, plus);
      if SafeChar(s[0], esc, plus) {
        var n := i + |EscapedChar(s[0], esc, plus)|;
        PieceReadsBack(s[0], esc, plus, t, i, Escaped(s[1..], esc, plus));
        EscapedReadsBackFrom(s[1..], esc, plus, t, n);
        assert s == [s[0]] + s[1..];
        ChangesFront(s, esc, plus);
        SameTail(s, ReadFrom(t, n, "", "", plus).text);
      } else if s[0] == '%' {
        PercentSpoils(s, esc, plus, t, i);
        PercentPiece(t, i, plus);
        var n := if EscapeAt(t, i) then i + 3 else i + 1;
        EscapedReadsBackFrom(if EscapeAt(t, i) then s[3..] else s[1..], esc, plus, t, n);
      } else {
        PlusPiece(s, esc, t, i, Escaped(s[1..], esc, plus));
        EscapedReadsBackFrom(s[1..], esc, plus, t, i + 1);
        var r := ReadFrom(t, i, "", "", plus);
        assert r.text[0] == ' ' && s[0] == '+';
      }
    }
  }

  lemma NothingUnsafe(esc: set<char>, plus: bool)
    ensures Safe("", esc, plus)
  {
  }

  lemma EscapedFront(s: string, esc: set<char>, plus: bool)
    requires IsByteString(s) && s != ""
    ensures Escaped(s, esc, plus) == EscapedChar(s[0], esc, plus) + Escaped(s[1..], esc, plus)
  {
  }

  lemma SafeFront(s: string, esc: set<char>, plus: bool)
    requires s != ""
    ensures Safe(s, esc, plus) <==> SafeChar(s[0], esc, plus) && Safe(s[1..], esc, plus)
  {
    assert forall k | 0 < k < |s| :: s[k] == s[1..][k - 1];
  }

  lemma SameTail(s: string, w: string)
    requires s != ""
    ensures [s[0]] + w == s <==> w == s[1..]
  {
    assert s == [s[0]] + s[1..];
    if [s[0]] + w == s { assert ([s[0]] + w)[1..] == w; }
  }

  /** What is read for a `%`. */
  lemma PercentPiece(t: string, i: nat, plus: bool)
    requires i < |t| && t[i] == '%'
    ensures var (piece, n) := PieceAt(t, i, "", "", plus);
            if EscapeAt(t, i) then |piece.text| == 1 && n == i + 3
            else piece == Reading("%", true, false, false) && n == i + 1
  {
  }

  /** Under `plus` an unescaped `+` is read as a space. */
  lemma PlusPiece(s: string, esc: set<char>, t: string, i: nat, rest: string)
    requires s != "" && s[0] == '+' && '+' !in esc
    requires i <= |t| && t[i..] == EscapedChar('+', esc, true) + rest
    ensures i < |t| && t[i + 1..] == rest && PieceAt(t, i, "", "", true) == (Reading(" ", false, false, true), i + 1)
  {
    TailOf(t, i, "+", rest);
    assert t[i + 0] == '+';
  }

  lemma ChangesFront(s: string, esc: set<char>, plus: bool)
    requires s != ""
    ensures Changes(s, esc, plus) <==> s[0] in esc || (plus && s[0] == ' ') || Changes(s[1..], esc, plus)
  {
    assert forall k | 0 < k < |s| :: s[k] == s[1..][k - 1];
  }

  /** Unescaping what an escaper wrote, with the same setting of `plus`, gives the
      string back without complaint exactly when the string is safe; so always, when
      the set holds `%` and, under `plus`, also `+`. */
  lemma EscapedReadsBack(s: string, esc: set<char>, plus: bool)
    requires IsByteString(s)
    ensures var r := ReadFrom(Escaped(s, esc, plus), 0, "", "", plus);
            r == Reading(s, false, false, Changes(s, esc, plus)) <==> Safe(s, esc, plus)
    ensures '%' in esc && (plus ==> '+' in esc) ==>
              ReadFrom(Escaped(s, esc, plus), 0, "", "", plus) == Reading(s, false, false, Changes(s, esc, plus))
  {
    var t := Escaped(s, esc, plus);
    assert t[0..] == t;
    EscapedReadsBackFrom(s, esc, plus, t, 0);
  }

  /** A path comes back with the `./` it may have got. */
  lemma EscapedPathReadsBack(path: string, slen: int, partial: bool, esc: set<char>)
    requires IsByteString(path)
    ensures var s := Taken(path, slen);
            ReadFrom(EscapedPath(path, slen, partial, esc), 0, "", "", false)
            == Reading((if NeedsDot(path, partial) then "./" else "") + s, false, false, Changes(s, esc, false))
            <==> Safe(s, esc, false)
  {
    hide Escaped, Changes, Safe, NeedsDot, ReadFrom;
    var s := Taken(path, slen);
    var t := EscapedPath(path, slen, partial, esc);
    if NeedsDot(path, partial) {
      assert t[2..] == Escaped(s, esc, false);
      EscapedReadsBackFrom(s, esc, false, t, 2);
      var rest := ReadFrom(t, 2, "", "", false);
      assert t[0] == '.' && t[1] == '/';
      FirstPiece(t, 0, "", "", false);
      FirstPiece(t, 1, "", "", false);
      var r := ReadFrom(t, 0, "", "", false);
      assert r.text == "./" + rest.text;
      if r.text == "./" + s { assert r.text[2..] == rest.text == s; }
    } else {
      assert t == Escaped(s, esc, false) && "" + s == s;
      EscapedReadsBack(s, esc, false);
    }
  }

  /** A `%` the set leaves alone: `%41` comes back as `A`. */
  lemma PercentMustBeEscaped()
    ensures Escaped("%41", {}, false) == "%41"
    ensures ReadFrom("%41", 0, "", "", false).text == "A"
  {
    assert "%41"[1..] == "41" && "41"[1..] == "1" && "1"[1..] == "";
    assert Escaped("1", {}, false) == "1" && Escaped("41", {}, false) == "41";
    assert FromHex('4', '1') == 'A';
    assert ReadFrom("%41", 3, "", "", false) == NOTHING;
  }
}
