/**
 White space, signs, prefixes and letters in front of `apr_strtoi64` (strings/apr_strings.c).
 */
module NumberLetters {
  import opened Apr
  import opened NumberText

  /** A digit has the value of its place, in either case; any other character has none. */
  lemma DigitIsPlace(c: char)
    ensures var v := DigitValue(c);
            if v < 36 then c == (FIGURES + SMALL)[v] || c == (FIGURES + CAPITALS)[v]
            else c !in FIGURES + SMALL && c !in FIGURES + CAPITALS
  {
    hide FIGURES, SMALL, CAPITALS;
    var v := DigitValue(c);
    Sizes();
    Among(c);
    InSum(c, FIGURES, SMALL);
    InSum(c, FIGURES, CAPITALS);
    if v < 10 {
      FigureAt(v);
    } else if v < 36 {
      SmallAt(v - 10);
      CapitalAt(v - 10);
    }
  }

  lemma PlaceIsDigit(v: nat)
    requires v < 36
    ensures |FIGURES + SMALL| == |FIGURES + CAPITALS| == 36
    ensures DigitValue((FIGURES + SMALL)[v]) == v && DigitValue((FIGURES + CAPITALS)[v]) == v
  {
    hide FIGURES, SMALL, CAPITALS;
    Sizes();
    if v < 10 {
      FigureAt(v);
    } else {
      SmallAt(v - 10);
      CapitalAt(v - 10);
    }
  }

  /** The same letter in another case, or the same character. */
  predicate SameLetter(a: char, b: char) {
    || a == b
    || ('a' <= a <= 'z' && b as int == a as int - 32)
    || ('A' <= a <= 'Z' && b as int == a as int + 32)
  }

  /** Case matters neither to the number nor to its end nor to the word. */
  lemma {:induction false} CaseDoesNotMatter(
    s: string, t: string, i: nat, base: nat, before: nat, neg: bool, acc: int)
    requires i <= |s| == |t| && forall k | 0 <= k < |s| :: SameLetter(s[k], t[k])
    ensures ValueFrom(s, i, base, before) == ValueFrom(t, i, base, before)
    ensures DigitsEnd(s, i, base) == DigitsEnd(t, i, base)
    ensures WordFrom(s, i, base, neg, acc) == WordFrom(t, i, base, neg, acc)
    decreases |s| - i
  {
    if i < |s| {
      assert SameLetter(s[i], t[i]);
      var d := DigitValue(s[i]);
      assert DigitValue(t[i]) == d;
      hide DigitValue, NextWord, SameLetter;
      var next := NextWord(acc, neg, base, d);
      CaseDoesNotMatter(s, t, i + 1, base, Append(before, base, d), neg, if next.Some? then next.value else 0);
    }
  }

  // ---- What may stand in front ----

  predicate IsWhite(c: char) {
    c == ' ' || c == '\t' || c == '\n' || c == '\U{0B}' || c == '\U{0C}' || c == '\r'
  }

  predicate White(w: string) {
    forall k | 0 <= k < |w| :: IsWhite(w[k])
  }

  lemma {:induction false} SpacesPassed(s: string, i: nat, w: string, rest: string)
    requires White(w) && StandsAt(s, i, w, rest)
    requires rest != "" ==> !IsWhite(rest[0])
    ensures AfterSpaces(s, i) == i + |w| <= |s|
    decreases w
  {
    TailOf(s, i, w, rest);
    if w == "" {
      if rest != "" { assert s[i] == s[i..][0]; }
    } else {
      assert s[i + 0] == w[0];
      assert w + rest == [w[0]] + (w[1..] + rest);
      TailOf(s, i, [w[0]], w[1..] + rest);
      assert White(w[1..]) by { assert forall k | 0 <= k < |w[1..]| :: w[1..][k] == w[k + 1]; }
      SpacesPassed(s, i + 1, w[1..], rest);
    }
  }

  lemma {:induction false} DigitsPassed(s: string, i: nat, t: string, rest: string, base: nat)
    requires StandsAt(s, i, t, rest) && base <= 36 && (forall k | 0 <= k < |t| :: DigitValue(t[k]) < base)
    requires rest != "" ==> DigitValue(rest[0]) >= base
    ensures DigitsEnd(s, i, base) == i + |t| <= |s|
    decreases t
  {
    hide DigitValue;
    TailOf(s, i, t, rest);
    if t == "" {
      if rest != "" { assert s[i] == s[i..][0]; }
    } else {
      assert s[i + 0] == t[0];
      assert t + rest == [t[0]] + (t[1..] + rest);
      TailOf(s, i, [t[0]], t[1..] + rest);
      assert forall k | 0 <= k < |t[1..]| :: t[1..][k] == t[k + 1];
      DigitsPassed(s, i + 1, t[1..], rest, base);
    }
  }

  predicate IsSign(sign: string) { sign == "" || sign == "+" || sign == "-" }

  predicate IsPrefix(prefix: string) { prefix == "" || prefix == "0x" || prefix == "0X" }

  /** All of `t` are digits of the base, and `rest` begins with none; so it is the base that
      a prefix asks for, and a zero before an `x` is no number in base 16. */
  predicate AreDigits(prefix: string, t: string, rest: string, base: int) {
    && t != "" && (if prefix == "" then 2 <= base <= 36 else base == 0 || base == 16)
    && (forall k | 0 <= k < |t| :: DigitValue(t[k]) < if prefix == "" then base else 16)
    && (rest != "" ==> DigitValue(rest[0]) >= if prefix == "" then base else 16)
    && (prefix == "" && base == 16 && t == "0" && rest != "" ==> rest[0] != 'x' && rest[0] != 'X')
  }

  /** White space, a sign or none, a prefix `0x` or none, digits, and something else: the
      parts are told apart, the sign is a minus or not, and the digits are read to their
      end. The prefix is one in base 16 and in base 0. */
  lemma PartsToldApart(w: string, sign: string, prefix: string, digits: string, rest: string, base: int)
    requires White(w) && IsSign(sign) && IsPrefix(prefix) && AreDigits(prefix, digits, rest, base)
    ensures var s, i := w + (sign + (prefix + (digits + rest))), |w| + |sign| + |prefix|;
            var b := if prefix == "" then base else 16;
            && BaseOf(s, base) == b && DigitsStart(s, base) == i && (Negative(s) <==> sign == "-")
            && DigitsEnd(s, i, b) == i + |digits|
  {
    hide *;
    PartsStand(w, sign, prefix, digits, rest);
    PartsAt(w + (sign + (prefix + (digits + rest))), w, sign, prefix, digits, rest, base);
  }

  /** The same for a string in which the parts stand one behind the other. */
  lemma PartsAt(s: string, w: string, sign: string, prefix: string, digits: string, rest: string, base: int)
    requires White(w) && IsSign(sign) && IsPrefix(prefix) && AreDigits(prefix, digits, rest, base)
    requires StandsAt(s, 0, w, sign + (prefix + (digits + rest)))
    requires StandsAt(s, |w|, sign, prefix + (digits + rest))
    requires StandsAt(s, |w| + |sign|, prefix, digits + rest)
    requires StandsAt(s, |w| + |sign| + |prefix|, digits, rest)
    ensures var i, b := |w| + |sign| + |prefix|, if prefix == "" then base else 16;
            && BaseOf(s, base) == b && DigitsStart(s, base) == i && (Negative(s) <==> sign == "-")
            && 2 <= b <= 36 && i <= |s| && DigitsEnd(s, i, b) == i + |digits|
  {
    var b := if prefix == "" then base else 16;
    hide *;
    StartsPlain(prefix, digits, rest, base);
    SignPlace(s, |w|, w, sign, prefix + (digits + rest));
    PrefixPlace(s, |w| + |sign|, prefix, digits, rest, base);
    OfTheBase(prefix, digits, rest, base);
    DigitsPassed(s, |w| + |sign| + |prefix|, digits, rest, b);
  }

  lemma OfTheBase(prefix: string, t: string, rest: string, base: int)
    requires AreDigits(prefix, t, rest, base)
    ensures var b := if prefix == "" then base else 16;
            && 2 <= b <= 36 && (forall k | 0 <= k < |t| :: DigitValue(t[k]) < b)
            && (rest != "" ==> DigitValue(rest[0]) >= b)
  {
  }

  lemma StartsPlain(prefix: string, digits: string, rest: string, base: int)
    requires IsPrefix(prefix) && AreDigits(prefix, digits, rest, base)
    ensures var t := prefix + (digits + rest); t != "" && !IsWhite(t[0]) && t[0] != '+' && t[0] != '-'
  {
    assert digits != "" ==> DigitValue(digits[0]) < 36;
  }

  lemma PartsStand(w: string, sign: string, prefix: string, digits: string, rest: string)
    ensures var s := w + (sign + (prefix + (digits + rest)));
            && StandsAt(s, 0, w, sign + (prefix + (digits + rest)))
            && StandsAt(s, |w|, sign, prefix + (digits + rest))
            && StandsAt(s, |w| + |sign|, prefix, digits + rest)
            && StandsAt(s, |w| + |sign| + |prefix|, digits, rest)
  {
    var s := w + (sign + (prefix + (digits + rest)));
    assert s[0..] == s;
    TailOf(s, 0, w, sign + (prefix + (digits + rest)));
    TailOf(s, |w|, sign, prefix + (digits + rest));
    TailOf(s, |w| + |sign|, prefix, digits + rest);
  }

  /** What stands behind the white space is a sign, or it is not. */
  lemma SignPlace(s: string, i: nat, w: string, sign: string, behind: string)
    requires White(w) && |w| == i && StandsAt(s, 0, w, sign + behind) && StandsAt(s, i, sign, behind)
    requires IsSign(sign) && behind != "" && !IsWhite(behind[0]) && behind[0] != '+' && behind[0] != '-'
    ensures AfterSign(s) == i + |sign| && (Negative(s) <==> sign == "-")
  {
    FirstOfTwo(sign, behind);
    FirstStands(s, i, sign, behind);
    hide StandsAt, AfterSpaces, White, IsWhite;
    SpacesPassed(s, 0, w, sign + behind);
  }

  lemma FirstOfTwo(sign: string, behind: string)
    requires IsSign(sign) && behind != "" && !IsWhite(behind[0]) && behind[0] != '+' && behind[0] != '-'
    ensures var first := (sign + behind)[0];
            && !IsWhite(first) && (first == '-' <==> sign == "-") && (first == '+' <==> sign == "+")
            && (sign == "" <==> first != '-' && first != '+')
  {
  }

  lemma FirstStands(s: string, i: nat, a: string, b: string)
    requires StandsAt(s, i, a, b) && a + b != ""
    ensures i < |s| && s[i] == (a + b)[0]
  {
    assert s[i..][0] == s[i];
  }

  lemma PrefixPlace(s: string, j: nat, prefix: string, digits: string, rest: string, base: int)
    requires AfterSign(s) == j && IsPrefix(prefix) && AreDigits(prefix, digits, rest, base)
    requires StandsAt(s, j, prefix, digits + rest) && StandsAt(s, j + |prefix|, digits, rest)
    ensures BaseOf(s, base) == (if prefix == "" then base else 16) && DigitsStart(s, base) == j + |prefix|
  {
    TailOf(s, j, prefix, digits + rest);
    TailOf(s, j + |prefix|, digits, rest);
    if prefix != "" {
      assert s[j + 0] == prefix[0] && s[j + 1] == prefix[1];
    } else if base == 16 {
      assert s[j + 0] == digits[0];
      if digits[0] == '0' { SecondIsNoX(s, j, digits, rest); }
    }
    hide StandsAt, AfterSign;
  }

  lemma SecondIsNoX(s: string, j: nat, digits: string, rest: string)
    requires StandsAt(s, j, digits, rest) && digits != "" && digits[0] == '0'
    requires |digits| > 1 ==> DigitValue(digits[1]) < 16
    requires digits == "0" && rest != "" ==> rest[0] != 'x' && rest[0] != 'X'
    ensures At(s, j + 1) != 'x' && At(s, j + 1) != 'X'
  {
    TailOf(s, j, digits, rest);
    if |digits| > 1 {
      assert s[j + 1] == digits[1];
    } else {
      assert digits == "0";
      if rest != "" { assert s[j + 1] == s[j + 1..][0]; }
    }
  }

  /** `FF` in base 16 is 255, and ` -0xfF` in base 0 its negative. */
  method HexLetters() returns (a: int, b: int)
    ensures a == 255 && b == -255
  {
    var errno, end;
    TwoLetters("FF", 0);
    PartsToldApart("", "", "", "FF", "", 16);
    assert "" + ("" + ("" + ("FF" + ""))) == "FF";
    PartsToldApart(" ", "-", "0x", "fF", "", 0);
    var s := " " + ("-" + ("0x" + ("fF" + "")));
    assert s[4] == 'f' && s[5] == 'F' && |s| == 6;
    TwoLetters(s, 4);
    hide DigitsStart, BaseOf, Negative, DigitsEnd, ValueFrom, WordFrom;
    a, errno, end := Strtoi64("FF", 16);
    b, errno, end := Strtoi64(s, 0);
  }

  lemma TwoLetters(s: string, i: nat)
    requires |s| == i + 2 && (s[i] == 'F' || s[i] == 'f') && (s[i + 1] == 'F' || s[i + 1] == 'f')
    ensures ValueFrom(s, i, 16, 0) == 255
  {
    assert Append(0, 16, 15) == 15 && Append(15, 16, 15) == 255;
    assert ValueFrom(s, i + 2, 16, 255) == 255;
  }
}
