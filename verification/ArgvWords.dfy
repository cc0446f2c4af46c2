/**
 Lines of words, and the arguments `apr_tokenize_to_argv` makes of them (strings/apr_cpystrn.c).
 */
module ArgvWords {
  import opened Apr
  import opened ArgvTokenizer

  /** The ways to write an argument: as it stands, in quotes of either kind, with a
      backslash before every character, of which the last is none, or with both. */
  datatype Word =
    | Bare(text: string)
    | InSingle(text: string)
    | InDouble(text: string)
    | Slashed(text: string)
    | SlashedSingle(text: string)
    | SlashedDouble(text: string)

  predicate Without(t: string, bad: string) {
    forall k | 0 <= k < |t| :: t[k] !in bad
  }

  /** What each way allows. */
  predicate Allowed(w: Word) {
    match w
    case Bare(t) => t != "" && Without(t, " \t\"'\\")
    case InSingle(t) => Without(t, "'\\")
    case InDouble(t) => Without(t, "\"\\")
    case Slashed(t) => t != "" && t[|t| - 1] != '\\'
    case SlashedSingle(t) => t != "" ==> t[|t| - 1] != '\\'
    case SlashedDouble(t) => t != "" ==> t[|t| - 1] != '\\'
  }

  function Slash(t: string): string {
    if t == "" then "" else ['\\', t[0]] + Slash(t[1..])
  }

  function Spelled(w: Word): (r: string)
    ensures Allowed(w) ==> r != ""
  {
    match w
    case Bare(t) => t
    case InSingle(t) => "'" + t + "'"
    case InDouble(t) => "\"" + t + "\""
    case Slashed(t) => Slash(t)
    case SlashedSingle(t) => "'" + Slash(t) + "'"
    case SlashedDouble(t) => "\"" + Slash(t) + "\""
  }

  /** A run of spaces and tabs. */
  predicate IsGap(g: string) {
    forall k | 0 <= k < |g| :: g[k] == ' ' || g[k] == '\t'
  }

  /** The words with a gap before each; only the first may be empty. */
  predicate IsLine(gaps: seq<string>, words: seq<Word>) {
    && |gaps| == |words|
    && (forall k | 0 <= k < |gaps| :: IsGap(gaps[k]) && (k > 0 ==> gaps[k] != ""))
    && (forall k | 0 <= k < |words| :: Allowed(words[k]))
  }

  function Line(gaps: seq<string>, words: seq<Word>, tail: string): string
    requires |gaps| == |words|
  {
    if words == [] then tail else gaps[0] + (Spelled(words[0]) + Line(gaps[1..], words[1..], tail))
  }

  function Texts(words: seq<Word>): (r: seq<string>)
    ensures |r| == |words| && forall k | 0 <= k < |r| :: r[k] == words[k].text
  {
    if words == [] then [] else [words[0].text] + Texts(words[1..])
  }

  // ---- One word ----

  /** Without backslashes a token text reaches to the first character that ends it. */
  lemma {:induction false} PlainTextEnd(s: string, i: nat, e: nat, q: Quoting)
    requires i <= e <= |s| && (e < |s| ==> Ends(q, s[e]) && s[e] != '\\')
    requires forall k | i <= k < e :: s[k] != '\\' && !Ends(q, s[k])
    ensures TextEnd(s, i, q) == e
    decreases e - i
  {
    if i < e { PlainTextEnd(s, i + 1, e, q); }
  }

  lemma {:induction false} PlainCleaned(t: string)
    requires Without(t, "\\")
    ensures Cleaned(t, false) == t
    decreases t
  {
    if t != "" {
      PlainCleaned(t[1..]);
      assert t == [t[0]] + t[1..];
    }
  }

  lemma {:induction false} SlashedTextEnd(s: string, i: nat, t: string, q: Quoting, rest: string)
    requires StandsAt(s, i, Slash(t), rest) && (rest != "" ==> Ends(q, rest[0]))
    requires t != "" ==> t[|t| - 1] != '\\'
    ensures i + |Slash(t)| <= |s| && TextEnd(s, i, q) == i + |Slash(t)|
    decreases t
  {
    if t == "" {
      if rest != "" { assert s[i] == s[i..][0]; }
    } else {
      SlashedPair(s, i, t, rest);
      assert |Slash(t)| == 2 + |Slash(t[1..])|;
      hide StandsAt, Slash;
      SlashedTextEnd(s, i + 2, t[1..], q, rest);
      if !Escapable(t[0]) { OneOn(s, i + 1, q); }
    }
  }

  /** The first character behind its backslash, and what stands behind the two. */
  lemma SlashedPair(s: string, i: nat, t: string, rest: string)
    requires StandsAt(s, i, Slash(t), rest) && t != "" && t[|t| - 1] != '\\'
    ensures i + 1 < |s| && s[i] == '\\' && s[i + 1] == t[0]
    ensures t[0] == '\\' ==> i + 2 < |s| && s[i + 2] == '\\'
    ensures StandsAt(s, i + 2, Slash(t[1..]), rest)
  {
    var more := Slash(t[1..]) + rest;
    SlashParts(t, rest);
    if t[0] == '\\' { SlashFront(t[1..]); }
    hide Slash;
    TwoStand(s, i, '\\', t[0], more);
  }

  lemma SlashParts(t: string, rest: string)
    requires t != ""
    ensures Slash(t) + rest == ['\\', t[0]] + (Slash(t[1..]) + rest)
  {
    Regroup(['\\', t[0]], Slash(t[1..]), rest);
  }

  lemma Regroup(a: string, b: string, c: string)
    ensures a + b + c == a + (b + c)
  {
  }

  lemma TwoStand(s: string, i: nat, a: char, b: char, more: string)
    requires StandsAt(s, i, [a, b], more)
    ensures i + 1 < |s| && s[i] == a && s[i + 1] == b && s[i + 2..] == more
    ensures more != "" ==> i + 2 < |s| && s[i + 2] == more[0]
  {
    TailOf(s, i, [a, b], more);
    assert s[i + 0] == [a, b][0] && s[i + 1] == [a, b][1];
  }

  lemma SlashFront(t: string)
    requires t != ""
    ensures Slash(t) != "" && Slash(t)[0] == '\\'
  {
  }

  /** A character behind a backslash that needs none is passed over by itself. */
  lemma OneOn(s: string, i: nat, q: Quoting)
    requires i < |s| && !Escapable(s[i]) && (i + 1 < |s| && s[i] == '\\' ==> !Escapable(s[i + 1]))
    ensures TextEnd(s, i, q) == TextEnd(s, i + 1, q)
  {
  }

  lemma {:induction false} SlashedCleaned(t: string)
    ensures Cleaned(Slash(t), false) == t
    decreases t
  {
    if t != "" {
      SlashedCleaned(t[1..]);
      var w := Slash(t);
      assert w[1..][1..] == Slash(t[1..]) && w[1..][0] == t[0];
      assert t == [t[0]] + t[1..];
    }
  }

  /** What the token at `i` is, from its end and its text. */
  predicate IsToken(s: string, i: nat, n: nat, text: string) {
    && i < n <= |s| && !IsBlank(s[i]) && TokenAt(s, i) == text
    && (Behind(s, i) == n || (n < |s| && Behind(s, i) == n + 1))
  }

  /** Where a word's token ends, its text, and what follows. */
  lemma WordIsToken(s: string, i: nat, w: Word, rest: string)
    requires Allowed(w) && StandsAt(s, i, Spelled(w), rest) && (rest != "" ==> rest[0] == ' ' || rest[0] == '\t')
    ensures var n := i + |Spelled(w)|; n <= |s| && s[n..] == rest && IsToken(s, i, n, w.text)
  {
    TailOf(s, i, Spelled(w), rest);
    hide IsToken, StandsAt, Slash, Without;
    assert rest != "" ==> Ends(Unquoted, rest[0]);
    match w
    case Bare(t) => BareIsToken(s, i, t, rest);
    case Slashed(t) => SlashedIsToken(s, i, t, rest);
    case _ => QuotedWord(s, i, w, rest);
  }

  lemma QuotedWord(s: string, i: nat, w: Word, rest: string)
    requires Allowed(w) && !w.Bare? && !w.Slashed? && StandsAt(s, i, Spelled(w), rest)
    ensures IsToken(s, i, i + |Spelled(w)|, w.text)
  {
    hide IsToken, StandsAt, Slash, Without;
    match w
    case InSingle(t) =>
      OnlyThese(t, '\'');
      PlainQuoted(s, i, '\'', Single, t, rest);
    case InDouble(t) =>
      OnlyThese(t, '"');
      PlainQuoted(s, i, '"', Double, t, rest);
    case SlashedSingle(t) => SlashedQuoted(s, i, '\'', Single, t, rest);
    case SlashedDouble(t) => SlashedQuoted(s, i, '"', Double, t, rest);
  }

  lemma OnlyThese(t: string, c: char)
    ensures Without(t, [c, '\\']) ==> Without(t, "\\") && forall k | 0 <= k < |t| :: t[k] != c
  {
  }

  lemma BareIsToken(s: string, i: nat, t: string, rest: string)
    requires Allowed(Bare(t)) && StandsAt(s, i, t, rest) && (rest != "" ==> rest[0] == ' ' || rest[0] == '\t')
    ensures IsToken(s, i, i + |t|, t)
  {
    hide TextEnd, Cleaned;
    TailOf(s, i, t, rest);
    var n := i + |t|;
    if rest != "" { assert s[n] == s[n..][0]; }
    assert s[i + 0] == t[0];
    forall k | i <= k < n ensures s[k] == t[k - i] { assert s[i + (k - i)] == t[k - i]; }
    PlainTextEnd(s, i, n, Unquoted);
    PlainCleaned(t);
    assert s[i..n] == t;
  }

  lemma SlashedIsToken(s: string, i: nat, t: string, rest: string)
    requires Allowed(Slashed(t)) && StandsAt(s, i, Slash(t), rest)
    requires rest != "" ==> rest[0] == ' ' || rest[0] == '\t'
    ensures IsToken(s, i, i + |Slash(t)|, t)
  {
    hide TextEnd, Cleaned;
    var r := Slash(t);
    TailOf(s, i, r, rest);
    assert s[i + 0] == r[0] == '\\';
    SlashedTextEnd(s, i, t, Unquoted, rest);
    SlashedCleaned(t);
    assert s[i..i + |r|] == r;
  }

  /** A quote and the kind of quoting it opens. */
  predicate Opens(c: char, q: Quoting) {
    (c == '\'' && q == Single) || (c == '"' && q == Double)
  }

  /** A text between two quotes that reaches to the second and is `t` without its backslashes. */
  lemma QuotedIsToken(s: string, i: nat, c: char, q: Quoting, r: string, t: string, rest: string)
    requires Opens(c, q) && StandsAt(s, i, [c] + r + [c], rest)
    requires i + 1 + |r| <= |s| && TextEnd(s, i + 1, q) == i + 1 + |r| && Cleaned(r, false) == t
    ensures IsToken(s, i, i + |r| + 2, t)
  {
    hide TextEnd, Cleaned;
    var all := [c] + r + [c];
    TailOf(s, i, all, rest);
    assert s[i + 0] == all[0] == c;
    var e := i + 1 + |r|;
    forall k | i + 1 <= k < e ensures s[k] == r[k - i - 1] { assert s[i + (k - i)] == all[k - i]; }
    assert s[i + 1..e] == r;
  }

  /** What stands between the quotes. */
  lemma BetweenQuotes(s: string, i: nat, c: char, r: string, rest: string)
    requires StandsAt(s, i, [c] + r + [c], rest)
    ensures StandsAt(s, i + 1, r, [c] + rest)
  {
    assert [c] + r + [c] + rest == [c] + (r + ([c] + rest));
    TailOf(s, i, [c], r + ([c] + rest));
  }

  lemma PlainQuoted(s: string, i: nat, c: char, q: Quoting, t: string, rest: string)
    requires Opens(c, q) && Without(t, "\\") && (forall k | 0 <= k < |t| :: t[k] != c)
    requires StandsAt(s, i, [c] + t + [c], rest)
    ensures IsToken(s, i, i + |t| + 2, t)
  {
    BetweenQuotes(s, i, c, t, rest);
    TailOf(s, i + 1, t, [c] + rest);
    var e := i + 1 + |t|;
    forall k | i + 1 <= k < e ensures s[k] == t[k - i - 1] { assert s[i + 1 + (k - i - 1)] == t[k - i - 1]; }
    assert s[e] == s[e..][0] == c;
    hide IsToken, Cleaned, TextEnd, StandsAt;
    PlainTextEnd(s, i + 1, e, q);
    PlainCleaned(t);
    QuotedIsToken(s, i, c, q, t, t, rest);
  }

  lemma SlashedQuoted(s: string, i: nat, c: char, q: Quoting, t: string, rest: string)
    requires Opens(c, q) && (t != "" ==> t[|t| - 1] != '\\') && StandsAt(s, i, [c] + Slash(t) + [c], rest)
    ensures IsToken(s, i, i + |Slash(t)| + 2, t)
  {
    hide IsToken, Cleaned, TextEnd, StandsAt, Slash;
    BetweenQuotes(s, i, c, Slash(t), rest);
    SlashedTextEnd(s, i + 1, t, q, [c] + rest);
    SlashedCleaned(t);
    QuotedIsToken(s, i, c, q, Slash(t), t, rest);
  }

  // ---- Lines ----

  lemma {:induction false} GapSkipped(s: string, i: nat, g: string, rest: string)
    requires IsGap(g) && StandsAt(s, i, g, rest)
    ensures i + |g| <= |s| && Tokens(s, i) == Tokens(s, i + |g|)
    decreases g
  {
    hide Tokens;
    TailOf(s, i, g, rest);
    if g != "" {
      assert s[i + 0] == g[0];
      assert g + rest == [g[0]] + (g[1..] + rest);
      TailOf(s, i, [g[0]], g[1..] + rest);
      assert IsGap(g[1..]) by { assert forall k | 0 <= k < |g[1..]| :: g[1..][k] == g[k + 1]; }
      GapSkipped(s, i + 1, g[1..], rest);
      OneSpace(s, i);
    }
  }

  /** What stands behind a word: nothing, or a blank. */
  lemma LineFront(gaps: seq<string>, words: seq<Word>, tail: string)
    requires IsLine(gaps, words) && IsGap(tail) && (words != [] ==> gaps[0] != "")
    ensures var l := Line(gaps, words, tail); l != "" ==> l[0] == ' ' || l[0] == '\t'
  {
    if words != [] {
      assert Line(gaps, words, tail)[0] == gaps[0][0];
    }
  }

  lemma {:induction false} LineTokens(s: string, i: nat, gaps: seq<string>, words: seq<Word>, tail: string)
    requires IsLine(gaps, words) && IsGap(tail) && i <= |s| && s[i..] == Line(gaps, words, tail)
    ensures Tokens(s, i) == Texts(words)
    decreases words
  {
    hide Tokens, TokenAt, Behind, Spelled, Allowed, IsGap, StandsAt, AfterBlanks, IsBlank;
    if words == [] {
      TailStands(s, i, tail);
      GapSkipped(s, i, tail, "");
      NoTokens(s);
    } else {
      var r, rest := Spelled(words[0]), Line(gaps[1..], words[1..], tail);
      var b := i + |gaps[0]|;
      RestIsLine(gaps, words);
      WordStands(s, i, gaps, words, tail);
      GapSkipped(s, i, gaps[0], r + rest);
      LineFront(gaps[1..], words[1..], tail);
      WordIsToken(s, b, words[0], rest);
      var n := b + |r|;
      FirstHere(s, b);
      LineTokens(s, n, gaps[1..], words[1..], tail);
      if Behind(s, b) != n { OneSpaceOn(s, n, rest); }
    }
  }

  lemma WordStands(s: string, i: nat, gaps: seq<string>, words: seq<Word>, tail: string)
    requires IsLine(gaps, words) && words != [] && i <= |s| && s[i..] == Line(gaps, words, tail)
    ensures var rest := Line(gaps[1..], words[1..], tail);
            StandsAt(s, i, gaps[0], Spelled(words[0]) + rest) && StandsAt(s, i + |gaps[0]|, Spelled(words[0]), rest)
  {
    hide Spelled;
    TailOf(s, i, gaps[0], Spelled(words[0]) + Line(gaps[1..], words[1..], tail));
  }

  lemma TailStands(s: string, i: nat, tail: string)
    requires i <= |s| && s[i..] == tail
    ensures StandsAt(s, i, tail, "") && i + |tail| == |s|
  {
  }

  lemma RestIsLine(gaps: seq<string>, words: seq<Word>)
    requires IsLine(gaps, words) && words != []
    ensures IsLine(gaps[1..], words[1..]) && (words[1..] != [] ==> gaps[1..][0] != "")
    ensures IsGap(gaps[0]) && Allowed(words[0])
  {
    hide IsGap, Allowed;
    assert forall k | 0 <= k < |gaps[1..]| :: gaps[1..][k] == gaps[k + 1] && words[1..][k] == words[k + 1];
  }

  lemma FirstHere(s: string, b: nat)
    requires b < |s| && !IsBlank(s[b])
    ensures Tokens(s, b) == [TokenAt(s, b)] + Tokens(s, Behind(s, b))
  {
    FirstToken(s, b);
  }

  lemma OneSpaceOn(s: string, n: nat, rest: string)
    requires n < |s| && s[n..] == rest && (rest != "" ==> rest[0] == ' ' || rest[0] == '\t')
    ensures Tokens(s, n) == Tokens(s, n + 1)
  {
    assert s[n] == rest[0];
    OneSpace(s, n);
  }

  /** A line of words, each written in any of the six ways, with a run of spaces and tabs
      between, is cut into the words. */
  lemma LineComesBack(gaps: seq<string>, words: seq<Word>, tail: string)
    requires IsLine(gaps, words) && IsGap(tail)
    ensures Tokens(Line(gaps, words, tail), 0) == Texts(words)
  {
    var s := Line(gaps, words, tail);
    assert s[0..] == s;
    LineTokens(s, 0, gaps, words, tail);
  }

  lemma OneWord(w: Word)
    requires Allowed(w)
    ensures IsLine([""], [w]) && Line([""], [w], "") == Spelled(w) && Texts([w]) == [w.text]
  {
    hide Allowed, Spelled;
    assert [w][1..] == [] && [""][1..] == [];
    assert Line([], [], "") == "";
    assert "" + (Spelled(w) + "") == Spelled(w);
  }

  /** One word in single quotes is one argument, whatever blanks it holds. */
  lemma SingleQuotes(w: string)
    requires forall k | 0 <= k < |w| :: w[k] != '\'' && w[k] != '\\'
    ensures Tokens("'" + w + "'", 0) == [w]
  {
    assert Allowed(InSingle(w)) && Spelled(InSingle(w)) == "'" + w + "'" && IsGap("");
    hide *;
    OneWord(InSingle(w));
    LineComesBack([""], [InSingle(w)], "");
  }
}
