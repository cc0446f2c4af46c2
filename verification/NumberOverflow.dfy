/**
 Which overflows `apr_strtoi64` (strings/apr_strings.c) notices.
 */
module NumberOverflow {
  import opened Apr
  import opened NumberText

  // Its tests compare the wrapped word with the one before; that is enough in base 2
  // and, without a minus sign, in base 3. In every other base some numbers that do
  // not fit are taken for others that do.

  const WORDS: nat := 0x1_0000_0000_0000_0000

  /** Every number that does not fit is noticed. */
  predicate Sure(neg: bool, base: nat) {
    base == 2 || (base == 3 && !neg)
  }

  /** One wrap-around in each direction. */
  lemma WrapsBack(x: int)
    ensures MIN <= x <= MAX ==> Wrap(x) == x
    ensures MAX < x <= MAX + WORDS ==> Wrap(x) == x - WORDS
    ensures MIN - WORDS <= x < MIN ==> Wrap(x) == x + WORDS
  {
  }

  /** The first digit too many is noticed at once. */
  lemma NoticedAtOnce(read: nat, neg: bool, base: nat, d: nat)
    requires Sure(neg, base) && d < base && InRange(neg, read) && !InRange(neg, Append(read, base, d))
    ensures NextWord(Signed(neg, read), neg, base, d) == None
  {
    hide Wrap;
    if neg { NoticedBelow(0 - read, d); } else { NoticedAbove(read, base, d); }
  }

  lemma NoticedAbove(acc: nat, base: nat, d: nat)
    requires (base == 2 || base == 3) && d < base && acc <= MAX < acc * base + d
    ensures Wrap(acc * base) < acc || Wrap(Wrap(acc * base) + d) < acc
  {
    WrapsBack(acc * base);
    hide Wrap;
    WrapsBack(acc * base + d);
  }

  lemma NoticedBelow(acc: int, d: nat)
    requires d < 2 && acc * 2 - d < MIN <= acc <= 0
    ensures Wrap(acc * 2) > acc || Wrap(Wrap(acc * 2) - d) > acc
  {
    WrapsBack(acc * 2);
    hide Wrap;
    WrapsBack(acc * 2 - d);
  }

  lemma {:induction false} OverflowIsNoticed(s: string, i: nat, neg: bool, base: nat, read: nat)
    requires i <= |s| && Sure(neg, base) && InRange(neg, read) && !InRange(neg, ValueFrom(s, i, base, read))
    ensures WordFrom(s, i, base, neg, Signed(neg, read)) == None
    decreases |s| - i
  {
    hide NextWord, InRange;
    if i < |s| && DigitValue(s[i]) < base && DigitValue(s[i]) < 36 {
      var d := DigitValue(s[i]);
      var next := Append(read, base, d);
      if InRange(neg, next) {
        NextFits(read, neg, base, d);
        OverflowIsNoticed(s, i + 1, neg, base, next);
      } else {
        NoticedAtOnce(read, neg, base, d);
      }
    }
  }

  // ---- In the other bases ----

  /** A number that fits, and comes out as another that fits when a zero is added. */
  lemma SomethingSlipsThrough(neg: bool, base: nat) returns (w: nat, r: nat)
    requires 2 <= base <= 36 && !Sure(neg, base)
    ensures InRange(neg, w) && InRange(neg, w + r) && !InRange(neg, Append(w, base, 0))
    ensures NextWord(Signed(neg, w), neg, base, 0) == Some(Signed(neg, w + r))
  {
    w, r := Divided(base);
    Bounds(base, w, r);
    Slips(neg, base, w, r);
  }

  /** `w` is the least number whose product with `base - 1` reaches the number of words. */
  lemma Divided(base: nat) returns (w: nat, r: nat)
    requires 3 <= base
    ensures r <= base - 2 && (base - 1) * w == WORDS + r && w * base == WORDS + (w + r)
  {
    var a, n := base - 1, WORDS + base - 2;
    w, r := n / a, base - 2 - n % a;
    assert n == a * w + n % a;
    assert w * base == a * w + w;
  }

  lemma Bounds(base: nat, w: nat, r: nat)
    requires 3 <= base <= 36 && r <= base - 2 && (base - 1) * w == WORDS + r
    ensures w + r <= (if base == 3 then -MIN else MAX)
  {
    if base > 3 { MoreTimes(3, base - 1, w); }
  }

  lemma MoreTimes(a: nat, b: nat, w: nat)
    requires a <= b
    ensures a * w <= b * w
  {
    assert (b - a) * w >= 0;
  }

  /** One wrap-around brings the product back to `w + r`. */
  lemma Slips(neg: bool, base: nat, w: nat, r: nat)
    requires w * base == WORDS + (w + r) && w + r <= (if neg then -MIN else MAX)
    ensures InRange(neg, w) && InRange(neg, w + r) && !InRange(neg, Append(w, base, 0))
    ensures NextWord(Signed(neg, w), neg, base, 0) == Some(Signed(neg, w + r))
  {
    hide Wrap;
    SignedTimes(neg, w, base);
    WrapOnce(w + r);
    WrapFits(Signed(neg, w + r));
  }

  lemma WrapOnce(x: nat)
    requires x <= -MIN
    ensures Wrap(0 - WORDS - x) == 0 - x
    ensures x <= MAX ==> Wrap(WORDS + x) == x
  {
  }

  /** A string that spells it. */
  function Spelled(neg: bool, base: nat, w: nat): string
    requires 2 <= base <= 36
  {
    (if neg then "-" else "") + Digits(w, base) + "0"
  }

  lemma SpelledParts(neg: bool, base: nat, w: nat)
    requires 2 <= base <= 36
    ensures var s := Spelled(neg, base, w);
            && Negative(s) == neg && DigitsStart(s, base) == (if neg then 1 else 0)
            && s[DigitsStart(s, base)..] == Digits(w, base) + "0"
  {
    var s, t := Spelled(neg, base, w), Digits(w, base);
    var i := if neg then 1 else 0;
    DigitsAreDigits(w, base);
    assert s[i..] == t + "0";
    assert s[i] == s[i..][0] == t[0];
    assert s[i + 1] == s[i..][1] == if |t| > 1 then t[1] else '0';
    assert DigitValue('x') == 33 && DigitValue('X') == 33;
    assert AfterSpaces(s, 0) == 0;
  }

  lemma SpelledSlipsThrough(neg: bool, base: nat) returns (s: string)
    requires 2 <= base <= 36 && !Sure(neg, base)
    ensures Negative(s) == neg && !InRange(neg, ValueFrom(s, DigitsStart(s, base), base, 0))
    ensures WordFrom(s, DigitsStart(s, base), base, neg, 0) != None
  {
    var w, r := SomethingSlipsThrough(neg, base);
    s := Spelled(neg, base, w);
    SpelledParts(neg, base, w);
    var i := DigitsStart(s, base);
    ValueOfDigits(s, i, w, base, neg, "0");
    var e := i + |Digits(w, base)|;
    hide NextWord, InRange;
    assert s[e] == s[e..][0] == '0' && |s| == e + 1;
    assert ValueFrom(s, e, base, w) == Append(w, base, 0);
  }

  /** `apr_strtoi64` reports every number that does not fit, in a base and with a sign,
      exactly when the base is 2, or 3 without a minus. */
  lemma WhichOverflowsAreNoticed(neg: bool, base: nat)
    requires 2 <= base <= 36
    ensures Sure(neg, base) <==>
            forall s: string | Negative(s) == neg && !InRange(neg, ValueFrom(s, DigitsStart(s, base), base, 0)) ::
              WordFrom(s, DigitsStart(s, base), base, neg, 0) == None
  {
    if Sure(neg, base) {
      forall s: string | Negative(s) == neg && !InRange(neg, ValueFrom(s, DigitsStart(s, base), base, 0))
        ensures WordFrom(s, DigitsStart(s, base), base, neg, 0) == None
      {
        OverflowIsNoticed(s, DigitsStart(s, base), neg, base, 0);
      }
    } else {
      var s := SpelledSlipsThrough(neg, base);
      assert Negative(s) == neg;
    }
  }

  /** In base 10, 43000000000000000000 is read without an error. */
  method WrapsToMore() returns (acc: int, errno: Errno)
    ensures acc == 6106511852580896768 && errno == NoError
  {
    var s := Numeral(43000000000000000000);
    OneZeroTooMany(s);
    assert BaseOf(s, 10) == 10;
    hide *;
    var end;
    acc, errno, end := Strtoi64(s, 10);
  }

  lemma OneZeroTooMany(s: string)
    requires s == Numeral(43000000000000000000)
    ensures !Negative(s) && DigitsStart(s, 10) == 0 && DigitsEnd(s, 0, 10) > 0
    ensures WordFrom(s, 0, 10, false, 0) == Some(6106511852580896768)
  {
    var w := 4300000000000000000;
    assert s == Spelled(false, 10, w);
    SpelledParts(false, 10, w);
    DigitsAreDigits(w, 10);
    FirstDigit(s, 10);
    assert Signed(false, w) == w && InRange(false, w);
    hide *;
    ValueOfDigits(s, 0, w, 10, false, "0");
    LastZero(s, |Digits(w, 10)|, w);
  }

  /** The word before is 4300000000000000000, and twice the number of words is taken off. */
  lemma LastZero(s: string, e: nat, w: nat)
    requires e < |s| && s[e..] == "0" && w == 4300000000000000000
    ensures WordFrom(s, e, 10, false, w) == Some(6106511852580896768)
  {
    assert s[e] == s[e..][0] == '0' && |s| == e + 1;
    assert NextWord(w, false, 10, 0) == Some(6106511852580896768);
  }

  lemma FirstDigit(s: string, base: nat)
    requires s != "" && DigitValue(s[0]) < base <= 36
    ensures DigitsEnd(s, 0, base) > 0
  {
  }
}
