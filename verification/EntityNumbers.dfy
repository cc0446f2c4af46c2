/**
 What numeric entities are read as, and what the status of `apr_unescape_entity` says (encoding/apr_escape.c).
 */
module EntityNumbers {
  import opened Apr
  import opened EntityEscape
  import opened EntityLaws
  import NumberText

  lemma {:induction false} ValueOfNumeral(n: nat)
    ensures IsNumber(NumberText.Digits(n, 10)) && Value(NumberText.Digits(n, 10)) == n
    decreases n
  {
    if n >= 10 {
      NumberText.QuotientSmaller(n, 10);
      ValueOfNumeral(n / 10);
      var t := NumberText.Digits(n, 10);
      assert t[..|t| - 1] == NumberText.Digits(n / 10, 10);
    } else {
      assert Value("") == 0 && NumberText.Digits(n, 10)[..0] == "";
    }
  }

  /** What stands between `&#` and `;` is read as a number, or vanishes. */
  lemma NumberAlone(w: string)
    requires ';' !in w
    ensures ReadFrom("&#" + w + ";", 0)
            == match Numbered(w) case Some(c) => Reading([c], true) case None => Reading("", false)
  {
    var t := "&#" + w + ";";
    var e := |t| - 1;
    assert t[2..e] == w && t[0] == '&' && t[1] == '#' && t[e] == ';';
    assert NoneIs(t[1..e], ';') by { assert t[1..e] == "#" + w; }
    EndIs(t, 1, e);
    hide EndOfEntity, Numbered, NoneIs;
    assert PieceAt(t, 0) == match Numbered(w)
                            case Some(c) => (Reading([c], true), |t|)
                            case None => (Reading("", false), |t|);
    assert ReadFrom(t, |t|) == NOTHING;
  }

  /** A number below 2^32 is read as the character of that code if it is a tab, a newline
      or a graphic character of ISO 8859-1, and otherwise vanishes. */
  lemma NumberIsRead(n: nat)
    requires n < 0x1_0000_0000
    ensures var t := "&#" + NumberText.Digits(n, 10) + ";";
            ReadFrom(t, 0)
            == if n == 9 || n == 10 || 32 <= n <= 126 || 161 <= n <= 255
               then Reading([n as char], true) else Reading("", false)
  {
    var digits := NumberText.Digits(n, 10);
    ValueOfNumeral(n);
    WrapOfSmall(n);
    assert forall k | 0 <= k < |digits| :: IsDigit(digits[k]);
    hide Value, Wrap, IsNumber, ReadFrom;
    NumberAlone(digits);
  }

  /** Anything else than digits vanishes, and so does nothing at all, which is the number 0. */
  lemma NoNumberVanishes(w: string)
    requires ';' !in w && (w == "" || exists k | 0 <= k < |w| :: w[k] < '0' || '9' < w[k])
    ensures ReadFrom("&#" + w + ";", 0) == Reading("", false)
  {
    hide *;
    IsNoNumber(w);
    NumberAlone(w);
  }

  lemma IsNoNumber(w: string)
    requires w == "" || exists k | 0 <= k < |w| :: w[k] < '0' || '9' < w[k]
    ensures Numbered(w) == None
  {
    if w == "" {
      assert Wrap(Value(w)) == 0;
    } else {
      var k :| 0 <= k < |w| && (w[k] < '0' || '9' < w[k]);
      assert !IsDigit(w[k]);
    }
  }

  lemma WrapOfSmall(n: nat)
    requires n < 0x1_0000_0000
    ensures IsAllowed(Wrap(n)) <==> n == 9 || n == 10 || 32 <= n <= 126 || 161 <= n <= 255
    ensures IsAllowed(Wrap(n)) ==> Wrap(n) == n
  {
  }

  // ---- The status ----

  /** Some piece from `i` on is a number that leaves nothing. */
  predicate Drops(s: string, i: nat)
    requires i <= |s|
    decreases |s| - i
  {
    i < |s| && (PieceAt(s, i).0.text == "" || Drops(s, PieceAt(s, i).1))
  }

  lemma {:induction false} ChangedFrom(s: string, i: nat)
    requires i <= |s|
    ensures ReadFrom(s, i).text == s[i..] <==> !ReadFrom(s, i).found && !Drops(s, i)
    decreases |s| - i
  {
    if i < |s| {
      var (piece, n) := PieceAt(s, i);
      PieceText(s, i);
      hide PieceAt;
      ChangedFrom(s, n);
      assert s[i..] == s[i..n] + s[n..];
      SamePart(piece.text, ReadFrom(s, n).text, s[i..n], s[n..]);
    }
  }

  lemma PieceText(s: string, i: nat)
    requires i < |s|
    ensures var (piece, n) := PieceAt(s, i);
            piece.text == s[i..n] <==> !piece.found && piece.text != ""
  {
    hide Named, Numbered, EndOfEntity;
  }

  /** A string that is changed although the status is APR_NOTFOUND: exactly one with
      entities of which each is a number that leaves nothing. */
  lemma ChangedInSilence(s: string)
    ensures ReadFrom(s, 0).text != s && !ReadFrom(s, 0).found <==> Drops(s, 0) && !ReadFrom(s, 0).found
    ensures ReadFrom(s, 0).found ==> ReadFrom(s, 0).text != s
    ensures Drops("&#0;", 0) && !ReadFrom("&#0;", 0).found && ReadFrom("&#0;", 0).text == ""
  {
    ChangedFrom(s, 0);
    assert s[0..] == s;
    hide ReadFrom, PieceAt;
    Zero();
  }

  lemma Zero()
    ensures Drops("&#0;", 0) && !ReadFrom("&#0;", 0).found && ReadFrom("&#0;", 0).text == ""
  {
    var t := "&#0;";
    EndIs(t, 1, 3) by { assert t[1..3] == "#0"; }
    assert t[2..3] == "0" && Value("0") == 0 && Wrap(0) == 0;
    hide EndOfEntity, Value;
    assert PieceAt(t, 0) == (Reading("", false), 4);
    assert ReadFrom(t, 4) == NOTHING;
  }
}
