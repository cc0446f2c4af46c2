/**
 When base 0 of `apr_strtoi64` (strings/apr_strings.c) means ten.
 */
module NumberBases {
  import opened Apr
  import opened NumberText

  // Without `0x` in front it is to mean ten; the code takes a leading zero for octal.

  predicate IsDigitAt(s: string, i: nat, base: nat) {
    i < |s| && DigitValue(s[i]) < base
  }

  /** A larger number read so far stays the larger one in the larger base. */
  lemma {:induction false} Overtakes(s: string, i: nat, a: nat, b: nat)
    requires i <= |s| && a < b
    ensures ValueFrom(s, i, 8, a) < ValueFrom(s, i, 10, b)
    decreases |s| - i
  {
    if IsDigitAt(s, i, 8) {
      var d := DigitValue(s[i]);
      Overtakes(s, i + 1, Append(a, 8, d), Append(b, 10, d));
    } else {
      ValueGrows(s, i, 10, b);
    }
  }

  /** Octal and decimal digits from `i` on make the same number and end at the same
      place exactly when that number is a single octal digit. */
  lemma {:induction false} OctalIsDecimal(s: string, i: nat)
    requires i <= |s|
    ensures ValueFrom(s, i, 8, 0) == ValueFrom(s, i, 10, 0) && DigitsEnd(s, i, 8) == DigitsEnd(s, i, 10)
            <==> ValueFrom(s, i, 10, 0) < 8
    decreases |s| - i
  {
    if IsDigitAt(s, i, 10) {
      var d := DigitValue(s[i]);
      assert Append(0, 8, d) == d == Append(0, 10, d);
      if d == 0 {
        OctalIsDecimal(s, i + 1);
      } else if d >= 8 {
        ValueGrows(s, i + 1, 10, d);
      } else {
        OneDigitMore(s, i + 1, d);
      }
    }
  }

  /** Behind a digit other than zero there must be none. */
  lemma OneDigitMore(s: string, i: nat, d: nat)
    requires i <= |s| && 0 < d < 8
    ensures ValueFrom(s, i, 8, d) == ValueFrom(s, i, 10, d) && DigitsEnd(s, i, 8) == DigitsEnd(s, i, 10)
            <==> ValueFrom(s, i, 10, d) < 8
  {
    if IsDigitAt(s, i, 10) {
      var e := DigitValue(s[i]);
      ValueGrows(s, i + 1, 10, Append(d, 10, e));
      assert Append(d, 10, e) >= 10;
      if e < 8 { Overtakes(s, i + 1, Append(d, 8, e), Append(d, 10, e)); }
    }
  }

  /** Base 0 without a hex prefix gives the number and the end of base ten exactly when
      the first digit is not zero, or the number in base ten is below eight. */
  lemma WhenBaseZeroIsTen(s: string)
    requires !HexPrefix(s, 0)
    ensures var i, base := AfterSign(s), BaseOf(s, 0);
            && i == DigitsStart(s, 0) == DigitsStart(s, 10)
            && (ValueFrom(s, i, base, 0) == ValueFrom(s, i, 10, 0) && DigitsEnd(s, i, base) == DigitsEnd(s, i, 10)
                <==> At(s, i) != '0' || ValueFrom(s, i, 10, 0) < 8)
  {
    OctalIsDecimal(s, AfterSign(s));
  }

  /** `010` is read as eight. */
  method LeadingZero() returns (acc: int, errno: Errno, end: nat)
    ensures acc == 8 && errno == NoError && end == 3
  {
    var s := "010";
    assert AfterSpaces(s, 0) == 0;
    assert ValueFrom(s, 3, 8, 8) == 8 && ValueFrom(s, 2, 8, 1) == 8 && ValueFrom(s, 1, 8, 0) == 8;
    assert DigitsEnd(s, 3, 8) == 3 && DigitsEnd(s, 2, 8) == 3 && DigitsEnd(s, 1, 8) == 3;
    acc, errno, end := Strtoi64(s, 0);
  }
}
