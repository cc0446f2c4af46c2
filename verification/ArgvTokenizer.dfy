/**
 `apr_tokenize_to_argv` with its four macros, and `apr_cpystrn` (strings/apr_cpystrn.c).
 */
module ArgvTokenizer {
  import opened Apr

  predicate IsBlank(c: char) { c == ' ' || c == '\t' }

  /** What a backslash keeps from ending a token. */
  predicate Escapable(c: char) { IsBlank(c) || c == '"' || c == '\'' }

  /** The three values of `isquoted`. */
  datatype Quoting = Unquoted | Double | Single

  predicate Ends(q: Quoting, c: char) {
    match q
    case Unquoted => IsBlank(c)
    case Double => c == '"'
    case Single => c == '\''
  }

  // ---- What the macros compute ----

  function AfterBlanks(s: string, i: nat): (r: nat)
    requires i <= |s|
    ensures i <= r <= |s| && (r < |s| ==> !IsBlank(s[r]))
    decreases |s| - i
  {
    if i < |s| && IsBlank(s[i]) then AfterBlanks(s, i + 1) else i
  }

  function QuotingAt(s: string, i: nat): Quoting {
    if i < |s| && s[i] == '"' then Double else if i < |s| && s[i] == '\'' then Single else Unquoted
  }

  /** Where the text of a token starting at `i` begins. */
  function TextStart(s: string, i: nat): nat {
    if QuotingAt(s, i).Unquoted? then i else i + 1
  }

  /** Where the token text at `i` ends: at a character that ends it, or at the end of
      the string. */
  function TextEnd(s: string, i: nat, q: Quoting): (e: nat)
    requires i <= |s|
    ensures i <= e <= |s| && (e < |s| ==> Ends(q, s[e]))
    decreases |s| - i
  {
    if i == |s| then i
    else if s[i] == '\\' && i + 1 < |s| && Escapable(s[i + 1]) then TextEnd(s, i + 2, q)
    else if Ends(q, s[i]) then i
    else TextEnd(s, i + 1, q)
  }

  /** The text with its escaping backslashes removed; `escaped` says whether the
      character before was such a backslash. */
  function Cleaned(t: string, escaped: bool): (r: string)
    ensures |r| <= |t|
  {
    if t == "" then ""
    else if !escaped && t[0] == '\\' then Cleaned(t[1..], true)
    else [t[0]] + Cleaned(t[1..], false)
  }

  /** The token that begins at `b`: where its text ends, the text, and the place behind. */
  function EndAt(s: string, b: nat): (e: nat)
    requires b < |s|
    ensures TextStart(s, b) <= e <= |s|
  {
    TextEnd(s, TextStart(s, b), QuotingAt(s, b))
  }

  function TokenAt(s: string, b: nat): string
    requires b < |s|
  {
    Cleaned(s[TextStart(s, b)..EndAt(s, b)], false)
  }

  function Behind(s: string, b: nat): (n: nat)
    requires b < |s| && !IsBlank(s[b])
    ensures b < n <= |s|
  {
    assert QuotingAt(s, b).Unquoted? ==> !Ends(Unquoted, s[b]) && EndAt(s, b) > b;
    if EndAt(s, b) < |s| then EndAt(s, b) + 1 else EndAt(s, b)
  }

  /** The tokens of the string from `i` on. */
  function Tokens(s: string, i: nat): seq<string>
    requires i <= |s|
    decreases |s| - i
  {
    var b := AfterBlanks(s, i);
    if b == |s| then [] else [TokenAt(s, b)] + Tokens(s, Behind(s, b))
  }

  // ---- The macros ----

  /** SKIP_WHITESPACE */
  method SkipWhitespace(s: string, cp0: nat) returns (cp: nat)
    requires cp0 <= |s|
    ensures cp == AfterBlanks(s, cp0)
  {
    cp := cp0;
    while cp < |s| && IsBlank(s[cp])
      invariant cp0 <= cp <= |s| && AfterBlanks(s, cp) == AfterBlanks(s, cp0)
    {
      cp := cp + 1;
    }
  }

  /** CHECK_QUOTATION */
  method CheckQuotation(s: string, cp0: nat) returns (cp: nat, isquoted: Quoting)
    requires cp0 < |s|
    ensures isquoted == QuotingAt(s, cp0) && cp == TextStart(s, cp0) <= |s|
  {
    cp, isquoted := cp0, Unquoted;
    if s[cp] == '"' {
      isquoted, cp := Double, cp + 1;
    } else if s[cp] == '\'' {
      isquoted, cp := Single, cp + 1;
    }
  }

  /** DETERMINE_NEXTSTRING */
  method DetermineNextString(s: string, cp0: nat, isquoted: Quoting) returns (cp: nat)
    requires cp0 <= |s|
    ensures cp == TextEnd(s, cp0, isquoted)
  {
    cp := cp0;
    while cp < |s|
      invariant cp0 <= cp <= |s| && TextEnd(s, cp, isquoted) == TextEnd(s, cp0, isquoted)
      decreases |s| - cp
    {
      if s[cp] == '\\' && cp + 1 < |s| && Escapable(s[cp + 1]) {
        cp := cp + 2;
        continue;
      }
      if Ends(isquoted, s[cp]) { break; }
      cp := cp + 1;
    }
  }

  /** `apr_cpystrn`: at most `dst.Length - 1` characters of `src` and a terminator;
      the result points at the terminator. Without a source nothing is copied. */
  method CpyStrn(dst: array<char>, src: Option<string>) returns (d: nat)
    requires src.Some? ==> IsCString(src.value)
    modifies dst
    ensures dst.Length == 0 ==> d == 0
    ensures dst.Length > 0 ==>
              var text := if src.Some? then src.value else "";
              && d == (if |text| < dst.Length then |text| else dst.Length - 1)
              && dst[..d] == text[..d] && dst[d] == '\0'
    ensures forall k | d < k < dst.Length :: dst[k] == old(dst[k])
  {
    d := 0;
    if dst.Length == 0 { return; }
    if src.Some? {
      var text := src.value;
      while d < dst.Length - 1
        invariant 0 <= d <= dst.Length - 1 && d <= |text|
        invariant dst[..d] == text[..d] && forall k | d <= k < dst.Length :: dst[k] == old(dst[k])
      {
        if d == |text| {
          dst[d] := '\0';
          return;
        }
        dst[d] := text[d];
        d := d + 1;
      }
    }
    dst[d] := '\0';
  }

  lemma {:induction false} CleanedStep(t: string, k: nat, escaped: bool)
    requires k < |t|
    ensures Cleaned(t[k..], escaped) ==
            if !escaped && t[k] == '\\' then Cleaned(t[k + 1..], true) else [t[k]] + Cleaned(t[k + 1..], false)
  {
    assert t[k..][1..] == t[k + 1..];
  }

  lemma NothingCleaned()
    ensures Cleaned("", false) == "" && Cleaned("", true) == ""
  {
  }

  lemma Reattach(before: string, c: char, rest: string)
    ensures before + ([c] + rest) == before + [c] + rest
  {
  }

  /** REMOVE_ESCAPE_CHARS, in place: the terminated text in `buf` gives way to its
      cleaned form. */
  method RemoveEscapeChars(buf: array<char>, ghost t: string) returns (cleaned: nat)
    requires IsCString(t) && |t| < buf.Length && buf[..|t|] == t && buf[|t|] == '\0'
    modifies buf
    ensures cleaned == |Cleaned(t, false)| && buf[..cleaned] == Cleaned(t, false) && buf[cleaned] == '\0'
  {
    hide Cleaned;
    cleaned := 0;
    var dirty, escaped := 0, false;
    assert t[0..] == t;
    while buf[dirty] != '\0'
      invariant 0 <= cleaned <= dirty <= |t|
      invariant forall k | dirty <= k <= |t| :: buf[k] == if k < |t| then t[k] else '\0'
      invariant Cleaned(t, false) == buf[..cleaned] + Cleaned(t[dirty..], escaped)
      decreases |t| - dirty
    {
      CleanedStep(t, dirty, escaped);
      if !escaped && buf[dirty] == '\\' {
        escaped := true;
      } else {
        escaped := false;
        ghost var before := buf[..cleaned];
        Reattach(before, t[dirty], Cleaned(t[dirty + 1..], false));
        buf[cleaned] := buf[dirty];
        cleaned := cleaned + 1;
        assert buf[..cleaned] == before + [t[dirty]];
      }
      dirty := dirty + 1;
    }
    assert t[dirty..] == "";
    NothingCleaned();
    buf[cleaned] := '\0';
  }

  // ---- The function ----

  /** The counting pass: one more than the number of tokens. */
  method CountArgs(s: string) returns (numargs: nat)
    ensures numargs == |Tokens(s, 0)| + 1
  {
    var ct := SkipWhitespace(s, 0);
    numargs := 1;
    SpacesFirst(s, 0);
    hide Tokens, AfterBlanks, TokenAt, Behind;
    while ct < |s|
      invariant ct <= |s| && ct == AfterBlanks(s, ct)
      invariant numargs + |Tokens(s, ct)| == |Tokens(s, 0)| + 1
      decreases |s| - ct
    {
      FirstToken(s, ct);
      ct := SkipToken(s, ct);
      numargs := numargs + 1;
      SpacesFirst(s, ct);
      ct := SkipWhitespace(s, ct);
    }
    NoTokens(s);
  }

  /** One token passed over. */
  method SkipToken(s: string, ct0: nat) returns (ct: nat)
    requires ct0 < |s| && !IsBlank(s[ct0])
    ensures ct == Behind(s, ct0)
  {
    hide TextEnd;
    var isquoted;
    ct, isquoted := CheckQuotation(s, ct0);
    ct := DetermineNextString(s, ct, isquoted);
    if ct < |s| {
      ct := ct + 1;
    }
  }

  /** The first token, and the others behind it. */
  lemma FirstToken(s: string, i: nat)
    requires i <= |s| && AfterBlanks(s, i) < |s|
    ensures var b := AfterBlanks(s, i);
            Tokens(s, i) == [TokenAt(s, b)] + Tokens(s, Behind(s, b))
  {
  }

  /** Leading whitespace does not matter. */
  lemma {:induction false} SpacesFirst(s: string, i: nat)
    requires i <= |s|
    ensures AfterBlanks(s, AfterBlanks(s, i)) == AfterBlanks(s, i)
    ensures Tokens(s, AfterBlanks(s, i)) == Tokens(s, i)
    decreases |s| - i
  {
    hide TokenAt, Behind;
    if i < |s| && IsBlank(s[i]) { SpacesFirst(s, i + 1); }
  }

  /** `cp` may have stepped over the terminator. */
  function Clip(s: string, cp: nat): nat {
    if cp <= |s| then cp else |s|
  }

  /** Both passes together: the arguments are exactly the tokens. Inside the second
      loop every token starts before the terminator. */
  method TokenizeToArgv(s: string) returns (argv: seq<string>)
    requires IsCString(s)
    ensures argv == Tokens(s, 0)
  {
    hide Tokens, TextEnd, AfterBlanks, Cleaned, QuotingAt;
    var numargs := CountArgs(s);
    AllLeft(s);
    argv := [];
    var cp: nat := 0;
    while |argv| < numargs - 1
      invariant cp <= |s| + 1
      invariant argv + Tokens(s, Clip(s, cp)) == Tokens(s, 0)
      decreases numargs - |argv|
    {
      TokensLeft(argv, s, cp);
      ghost var from := cp;
      cp := SkipWhitespace(s, cp);
      var isquoted;
      cp, isquoted := CheckQuotation(s, cp);
      var ct := cp;
      cp := DetermineNextString(s, cp, isquoted);
      var arg := CutToken(s, ct, cp);
      cp := cp + 1;
      NextToken(argv, s, from);
      argv := argv + [arg];
    }
    NoMore(argv, Tokens(s, Clip(s, cp)));
  }

  /** Allocates room for the text of a token, copies and cleans it. */
  method CutToken(s: string, ct: nat, cp: nat) returns (arg: string)
    requires IsCString(s) && ct <= cp <= |s|
    ensures arg == Cleaned(s[ct..cp], false)
  {
    ghost var text := s[ct..cp];
    var buf := new char[cp + 1 - ct];
    var end := CpyStrn(buf, Some(s[ct..]));
    assert end == |text| && s[ct..][..end] == text;
    var n := RemoveEscapeChars(buf, text);
    arg := buf[..n];
  }

  /** While tokens are missing there is text left. */
  lemma TokensLeft(argv: seq<string>, s: string, cp: nat)
    requires cp <= |s| + 1 && |argv| < |Tokens(s, 0)|
    requires argv + Tokens(s, Clip(s, cp)) == Tokens(s, 0)
    ensures cp <= |s| && AfterBlanks(s, cp) < |s|
  {
    NoTokens(s);
    var rest := Tokens(s, Clip(s, cp));
    assert |argv + rest| == |argv| + |rest|;
    assert rest != [];
  }

  lemma AllLeft(s: string)
    ensures [] + Tokens(s, 0) == Tokens(s, 0)
  {
  }

  lemma NextToken(argv: seq<string>, s: string, from: nat)
    requires from <= |s| && AfterBlanks(s, from) < |s|
    ensures var b := AfterBlanks(s, from);
            argv + Tokens(s, from) == (argv + [TokenAt(s, b)]) + Tokens(s, Behind(s, b))
  {
    hide TokenAt, Behind;
    FirstToken(s, from);
    hide Tokens;
  }

  lemma NoMore(argv: seq<string>, rest: seq<string>)
    requires |argv| >= |argv + rest|
    ensures argv == argv + rest
  {
  }

  // ---- Which argument lists a string can be cut into ----

  predicate EndsInBackslash(t: string) {
    t != "" && t[|t| - 1] == '\\'
  }

  /** The argument with a backslash before every backslash and double quote. */
  function Escaped(a: string): string {
    if a == "" then ""
    else (if a[0] == '\\' || a[0] == '"' then ['\\', a[0]] else [a[0]]) + Escaped(a[1..])
  }

  /** The arguments in double quotes, with spaces between; a last one that ends in a
      backslash is left unclosed. */
  function Quoted(args: seq<string>): string {
    if args == [] then ""
    else if |args| == 1 then "\"" + Escaped(args[0]) + (if EndsInBackslash(args[0]) then "" else "\"")
    else "\"" + Escaped(args[0]) + "\" " + Quoted(args[1..])
  }

  lemma {:induction false} CleanedEscaped(a: string)
    ensures Cleaned(Escaped(a), false) == a
    decreases a
  {
    if a != "" {
      CleanedEscaped(a[1..]);
      var e := Escaped(a);
      if a[0] == '\\' || a[0] == '"' {
        assert e[1..][1..] == Escaped(a[1..]) && e[1..][0] == a[0];
      } else {
        assert e[1..] == Escaped(a[1..]);
      }
    }
  }

  /** `w` stands at `i`, up to `e`. */
  predicate Holds(s: string, i: nat, e: nat, w: string) {
    i <= e <= |s| && s[i..e] == w
  }

  /** An escaped argument reaches to the quote that closes it, or to the end. */
  lemma {:induction false} EscapedReachesEnd(s: string, i: nat, e: nat, a: string)
    requires Holds(s, i, e, Escaped(a)) && (e < |s| ==> s[e] == '"' && !EndsInBackslash(a))
    ensures TextEnd(s, i, Double) == e
    decreases |a|
  {
    if a != "" {
      var w := Escaped(a);
      assert forall k | 0 <= k < |w| :: s[i + k] == s[i..e][k] == w[k];
      assert s[i + 0] == w[0];
      if a[0] == '"' {
        assert s[i + 1] == w[1];
        EscapedTail(s, i, e, a, 2);
        EscapedReachesEnd(s, i + 2, e, a[1..]);
      } else if a[0] == '\\' {
        assert s[i + 1] == w[1] == '\\';
        EscapedTail(s, i, e, a, 2);
        if a[1..] == "" {
        } else if Escapable(s[i + 2]) {
          var v := Escaped(a[1..]);
          assert s[i + 2] == s[i + 2..e][0] == v[0];
          EscapedTail(s, i + 2, e, a[1..], 1);
          EscapedReachesEnd(s, i + 3, e, a[1..][1..]);
        } else {
          EscapedReachesEnd(s, i + 2, e, a[1..]);
        }
      } else {
        EscapedTail(s, i, e, a, 1);
        EscapedReachesEnd(s, i + 1, e, a[1..]);
      }
    }
  }

  lemma EscapedTail(s: string, i: nat, e: nat, a: string, m: nat)
    requires Holds(s, i, e, Escaped(a)) && a != ""
    requires m == if a[0] == '\\' || a[0] == '"' then 2 else 1
    ensures Holds(s, i + m, e, Escaped(a[1..]))
    ensures EndsInBackslash(a[1..]) ==> EndsInBackslash(a)
  {
    assert Escaped(a)[m..] == Escaped(a[1..]);
    assert s[i..e][m..] == s[i + m..e];
  }

  /** The first quoted argument is the first token. */
  lemma FirstQuoted(s: string, i: nat, e: nat, a: string)
    requires i < |s| && s[i] == '"' && Holds(s, i + 1, e, Escaped(a))
    requires e < |s| ==> s[e] == '"' && !EndsInBackslash(a)
    ensures Tokens(s, i) == [a] + Tokens(s, if e < |s| then e + 1 else e)
  {
    EscapedReachesEnd(s, i + 1, e, a);
    CleanedEscaped(a);
  }

  lemma HoldsParts(s: string, i: nat, v: string, w: string)
    requires i <= |s| && s[i..] == v + w
    ensures i + |v| <= |s| && Holds(s, i, i + |v|, v) && s[i + |v|..] == w
  {
    assert |s[i..]| == |v| + |w|;
    assert s[i..][..|v|] == s[i..i + |v|] && s[i..][|v|..] == s[i + |v|..];
    assert (v + w)[..|v|] == v && (v + w)[|v|..] == w;
  }

  /** Where the parts of a quoted argument stand. */
  lemma QuotedPlaces(s: string, i: nat, w: string, rest: string)
    requires i <= |s| && s[i..] == "\"" + w + rest
    ensures var e := i + 1 + |w|;
            e <= |s| && i < e && s[i] == '"' && Holds(s, i + 1, e, w) && s[e..] == rest
    ensures rest != "" ==> i + 1 + |w| < |s| && s[i + 1 + |w|] == rest[0]
  {
    assert "\"" + w + rest == "\"" + (w + rest);
    HoldsParts(s, i, "\"", w + rest);
    HoldsParts(s, i + 1, w, rest);
    assert s[i] == s[i..i + 1][0];
    if rest != "" { assert s[i + 1 + |w|] == s[i + 1 + |w|..][0]; }
  }

  lemma OneSpace(s: string, i: nat)
    requires i < |s| && IsBlank(s[i])
    ensures Tokens(s, i) == Tokens(s, i + 1)
  {
    SpacesFirst(s, i);
    SpacesFirst(s, i + 1);
  }

  lemma NoTokens(s: string)
    ensures Tokens(s, |s|) == []
  {
  }

  lemma {:induction false} QuotedTokens(s: string, i: nat, args: seq<string>)
    requires i <= |s| && s[i..] == Quoted(args)
    requires forall k | 0 <= k < |args| - 1 :: !EndsInBackslash(args[k])
    ensures Tokens(s, i) == args
    decreases args
  {
    hide Escaped, EndsInBackslash, Tokens, Holds;
    NoTokens(s);
    if args == [] {
      assert i == |s|;
    } else {
      var w := Escaped(args[0]);
      var e := i + 1 + |w|;
      if |args| == 1 {
        QuotedPlaces(s, i, w, if EndsInBackslash(args[0]) then "" else "\"");
        FirstQuoted(s, i, e, args[0]);
      } else {
        QuotedPlaces(s, i, w, "\" " + Quoted(args[1..]));
        FirstQuoted(s, i, e, args[0]);
        HoldsParts(s, e, "\" ", Quoted(args[1..]));
        assert s[e + 1] == s[e..][1] == ' ';
        assert forall k | 0 <= k < |args[1..]| :: args[1..][k] == args[k + 1];
        QuotedTokens(s, e + 2, args[1..]);
        OneSpace(s, e + 1);
      }
    }
  }

  /** A token text that something ends does not end in a backslash. */
  lemma {:induction false} NoBackslashBeforeEnd(s: string, i: nat, q: Quoting)
    requires i <= |s|
    ensures var e := TextEnd(s, i, q); e < |s| && e > i ==> s[e - 1] != '\\'
    decreases |s| - i
  {
    if i < |s| {
      if s[i] == '\\' && i + 1 < |s| && Escapable(s[i + 1]) {
        NoBackslashBeforeEnd(s, i + 2, q);
      } else if !Ends(q, s[i]) {
        NoBackslashBeforeEnd(s, i + 1, q);
      }
    }
  }

  lemma {:induction false} CleanedEnd(t: string, escaped: bool)
    requires t != "" && t[|t| - 1] != '\\'
    ensures !EndsInBackslash(Cleaned(t, escaped)) && Cleaned(t, escaped) != ""
    decreases t
  {
    hide EndsInBackslash;
    OneBehind(t[0], "");
    if |t| > 1 {
      assert t[1..][|t| - 2] == t[|t| - 1];
      var next := !escaped && t[0] == '\\';
      CleanedEnd(t[1..], next);
      OneBehind(t[0], Cleaned(t[1..], next));
    } else {
      assert t[1..] == "";
    }
  }

  lemma OneBehind(c: char, t: string)
    ensures EndsInBackslash([c] + t) == if t == "" then c == '\\' else EndsInBackslash(t)
  {
  }

  lemma {:induction false} OnlyLastEndsInBackslash(s: string, i: nat, k: nat)
    requires i <= |s| && k + 1 < |Tokens(s, i)|
    ensures !EndsInBackslash(Tokens(s, i)[k])
    decreases |s| - i
  {
    hide EndsInBackslash, TokenAt, TextEnd;
    NoTokens(s);
    FirstToken(s, i);
    var b := AfterBlanks(s, i);
    if k == 0 {
      ClosedTokenEnd(s, b);
    } else {
      OnlyLastEndsInBackslash(s, Behind(s, b), k - 1);
    }
  }

  /** A token with something behind it does not end in a backslash. */
  lemma ClosedTokenEnd(s: string, b: nat)
    requires b < |s| && EndAt(s, b) < |s|
    ensures !EndsInBackslash(TokenAt(s, b))
  {
    var start, e := TextStart(s, b), EndAt(s, b);
    NoBackslashBeforeEnd(s, start, QuotingAt(s, b));
    hide TextEnd, Cleaned;
    if e > start {
      assert s[start..e][e - start - 1] == s[e - 1];
      CleanedEnd(s[start..e], false);
    } else {
      NothingCleaned();
    }
  }

  lemma {:induction false} CleanedIsCString(t: string, escaped: bool)
    requires IsCString(t)
    ensures IsCString(Cleaned(t, escaped))
    decreases t
  {
    if t != "" {
      CleanedIsCString(t[1..], true);
      CleanedIsCString(t[1..], false);
    }
  }

  lemma {:induction false} TokensAreCStrings(s: string, i: nat)
    requires IsCString(s) && i <= |s|
    ensures forall k | 0 <= k < |Tokens(s, i)| :: IsCString(Tokens(s, i)[k])
    decreases |s| - i
  {
    var b := AfterBlanks(s, i);
    if b < |s| {
      FirstToken(s, i);
      CleanedIsCString(s[TextStart(s, b)..EndAt(s, b)], false);
      hide Cleaned, Behind;
      TokensAreCStrings(s, Behind(s, b));
    }
  }

  lemma {:induction false} QuotedIsCString(args: seq<string>)
    requires forall k | 0 <= k < |args| :: IsCString(args[k])
    ensures IsCString(Quoted(args))
    decreases args
  {
    if args != [] {
      EscapedIsCString(args[0]);
      QuotedIsCString(args[1..]);
    }
  }

  lemma {:induction false} EscapedIsCString(a: string)
    requires IsCString(a)
    ensures IsCString(Escaped(a))
    decreases a
  {
    if a != "" { EscapedIsCString(a[1..]); }
  }

  /** An argument list can be had from some C string exactly when its members are C
      strings none of which, but perhaps the last, ends in a backslash. */
  lemma WhichArgumentLists(args: seq<string>)
    ensures (exists s :: IsCString(s) && Tokens(s, 0) == args) <==>
            && (forall k | 0 <= k < |args| :: IsCString(args[k]))
            && (forall k | 0 <= k < |args| - 1 :: !EndsInBackslash(args[k]))
  {
    if s :| IsCString(s) && Tokens(s, 0) == args {
      TokensAreCStrings(s, 0);
      forall k | 0 <= k < |args| - 1 ensures !EndsInBackslash(args[k]) {
        OnlyLastEndsInBackslash(s, 0, k);
      }
    }
    if && (forall k | 0 <= k < |args| :: IsCString(args[k]))
       && (forall k | 0 <= k < |args| - 1 :: !EndsInBackslash(args[k])) {
      QuotedIsCString(args);
      QuotedComesBack(args);
    }
  }

  /** The quoted list is tokenized into the list itself. */
  lemma {:induction false} QuotedComesBack(args: seq<string>)
    requires forall k | 0 <= k < |args| - 1 :: !EndsInBackslash(args[k])
    ensures Tokens(Quoted(args), 0) == args
  {
    assert Quoted(args)[0..] == Quoted(args);
    QuotedTokens(Quoted(args), 0, args);
  }
}
