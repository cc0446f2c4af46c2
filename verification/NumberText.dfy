/**
 `apr_ltoa`, `apr_strtoi64` (the portable branch) and `apr_atoi64` (strings/apr_strings.c), with words that wrap.
 */
module NumberText {
  import opened Apr

  const MAX: int := 0x7FFF_FFFF_FFFF_FFFF
  const MIN: int := -0x8000_0000_0000_0000

  /** What a signed 64-bit word holds after an operation with this result. */
  function Wrap(x: int): int {
    var r := x % 0x1_0000_0000_0000_0000;
    if r > MAX then r - 0x1_0000_0000_0000_0000 else r
  }

  // ---- Writing ----

  function Digit(d: nat): (c: char)
    requires d < 36
    ensures DigitValue(c) == d
  {
    if d < 10 then (d + '0' as int) as char else (d - 10 + 'a' as int) as char
  }

  /** The digits of a number, at least one. */
  function Digits(n: nat, base: nat): (t: string)
    requires 2 <= base <= 36
    ensures t != ""
    decreases n
  {
    if n < base then [Digit(n)] else
    QuotientSmaller(n, base);
    Digits(n / base, base) + [Digit(n % base)]
  }

  /** No leading zero. */
  lemma {:induction false} FirstDigit(n: nat, base: nat)
    requires 2 <= base <= 36
    ensures Digits(n, base)[0] == '0' <==> n == 0
    decreases n
  {
    if n >= base {
      QuotientSmaller(n, base);
      FirstDigit(n / base, base);
    }
  }

  lemma QuotientSmaller(n: nat, base: nat)
    requires 2 <= base <= n
    ensures n / base < n && (n / base) * base + n % base == n
  {
    assert n == base * (n / base) + n % base;
  }

  function Numeral(n: int): string {
    if n < 0 then "-" + Digits(-n, 10) else Digits(n, 10)
  }

  function Pow10(k: nat): nat {
    if k == 0 then 1 else 10 * Pow10(k - 1)
  }

  lemma {:induction false} DigitCount(n: nat, k: nat)
    requires k > 0 && n < Pow10(k)
    ensures |Digits(n, 10)| <= k
    decreases k
  {
    if n >= 10 { DigitCount(n / 10, k - 1); }
  }

  lemma NineteenDigits(n: nat)
    requires n <= -MIN
    ensures |Digits(n, 10)| <= 19
  {
    assert Pow10(5) == 100000;
    assert Pow10(10) == 10000000000;
    assert Pow10(15) == 1000000000000000;
    assert Pow10(19) == 10000000000000000000;
    DigitCount(n, 19);
  }

  /** `n / 10` and `n % 10`, which truncate. */
  function Quot(n: int): (q: int)
    ensures if n < 0 then n < q <= 0 else 0 <= q <= n
  {
    if n < 0 then 0 - (0 - n) / 10 else n / 10
  }

  function Rem(n: int): (r: int)
    ensures n == 10 * Quot(n) + r && if n < 0 then -10 < r <= 0 else 0 <= r < 10
  {
    if n < 0 then 0 - (0 - n) % 10 else n % 10
  }

  function Abs(n: int): nat {
    if n < 0 then 0 - n else n
  }

  /** What the loop writes; for a negative number the characters stand below `0`. */
  function Written(n: int): (t: string)
    ensures t != ""
    decreases Abs(n)
  {
    var last := [(Rem(n) + '0' as int) as char];
    if Quot(n) == 0 then last else Written(Quot(n)) + last
  }

  /** Digits for a number that is not negative; never for one that is. */
  lemma {:induction false} WrittenIs(n: int)
    ensures n >= 0 ==> Written(n) == Digits(n, 10)
    ensures |Written(n)| == |Digits(Abs(n), 10)|
    ensures n < 0 ==> Written(n)[0] < '0'
    decreases Abs(n)
  {
    if Quot(n) != 0 {
      assert Abs(Quot(n)) == Abs(n) / 10;
      WrittenIs(Quot(n));
    }
  }

  /** What `apr_ltoa` writes. The least number is its own negation in a word, so it is
      written as it is. */
  function LongText(n: int): string {
    if n == MIN then "-" + Written(MIN) else Numeral(n)
  }

  lemma LongTextParts(n0: int, n: int)
    requires MIN <= n0 <= MAX && n == if n0 < 0 then Wrap(-n0) else n0
    ensures |Written(n)| <= 19 && LongText(n0) == (if n0 < 0 then "-" + Written(n) else Written(n))
  {
    assert n == if n0 == MIN then MIN else Abs(n0);
    hide Digits, Written, Quot, Rem;
    NineteenDigits(Abs(n));
    WrittenIs(n);
  }

  /** `apr_ltoa`: the digits are written backwards from the end of a buffer of
      `sizeof(long) * 3 + 2` characters and always fit. */
  method Ltoa(n0: int) returns (buf: array<char>, start: nat)
    requires MIN <= n0 <= MAX
    ensures fresh(buf) && start < buf.Length - 1
    ensures buf[start..buf.Length - 1] == LongText(n0) && buf[buf.Length - 1] == '\0'
  {
    hide Digits, Written, Quot, Rem, LongText, Wrap;
    var n := n0;
    buf := new char[26];
    start := 25;
    var negative := n < 0;
    if negative { n := Wrap(-n); }
    LongTextParts(n0, n);
    buf[start] := '\0';
    start := WriteDigits(buf, start, n);
    if negative {
      start := PutSign(buf, start);
    }
  }

  method PutSign(buf: array<char>, at: nat) returns (start: nat)
    requires 0 < at <= 25 < buf.Length
    modifies buf
    ensures start == at - 1 && buf[start..25] == "-" + old(buf[at..25]) && buf[25] == old(buf[25])
  {
    start := at - 1;
    buf[start] := '-';
    assert buf[start..25] == [buf[start]] + buf[at..25];
  }

  /** The digits of `n0`, written backwards from `end`. */
  method WriteDigits(buf: array<char>, end: nat, n0: int) returns (start: nat)
    requires |Written(n0)| <= end < buf.Length
    modifies buf
    ensures start == end - |Written(n0)| && buf[start..end] == Written(n0)
    ensures forall k | end <= k < buf.Length :: buf[k] == old(buf[k])
  {
    hide Written, Quot, Rem;
    var n := n0;
    start := end;
    ghost var all := Written(n0);
    assert buf[start..end] == [];
    var again := true;
    while again
      invariant start <= end && forall k | end <= k < buf.Length :: buf[k] == old(buf[k])
      invariant all == (if again then Written(n) else []) + buf[start..end]
      invariant !again ==> n == 0
      decreases again, Abs(n)
    {
      ghost var before := buf[start..end];
      LastDigit(n, before);
      start := start - 1;
      buf[start] := (Rem(n) + '0' as int) as char;
      assert buf[start..end] == [(Rem(n) + '0' as int) as char] + before;
      n := Quot(n);
      again := n != 0;
    }
    assert [] + buf[start..end] == buf[start..end];
  }

  lemma LastDigit(n: int, rest: string)
    ensures var last := [(Rem(n) + '0' as int) as char];
            Written(n) + rest == (if Quot(n) != 0 then Written(Quot(n)) else []) + (last + rest)
  {
    hide Quot, Rem;
  }

  // ---- Reading ----

  /** The value of a digit or letter, 36 for anything else. */
  function DigitValue(c: char): nat {
    if '0' <= c <= '9' then c as int - '0' as int
    else if 'A' <= c <= 'Z' then c as int - 'A' as int + 10
    else if 'a' <= c <= 'z' then c as int - 'a' as int + 10
    else 36
  }

  function AfterSpaces(s: string, i: nat): (r: nat)
    requires i <= |s|
    ensures i <= r <= |s| && (r < |s| ==> !IsSpace(s[r]))
    decreases |s| - i
  {
    if i < |s| && IsSpace(s[i]) then AfterSpaces(s, i + 1) else i
  }

  /** Where the digits start and end, the number they make, and its sign. */
  function AfterSign(s: string): (r: nat)
    ensures r <= |s|
  {
    var i := AfterSpaces(s, 0);
    if At(s, i) == '-' || At(s, i) == '+' then i + 1 else i
  }

  predicate Negative(s: string) {
    At(s, AfterSpaces(s, 0)) == '-'
  }

  predicate HexPrefix(s: string, base: int) {
    var i := AfterSign(s);
    (base == 0 || base == 16) && At(s, i) == '0' && (At(s, i + 1) == 'x' || At(s, i + 1) == 'X')
  }

  function BaseOf(s: string, base: int): int {
    if HexPrefix(s, base) then 16
    else if base == 0 then (if At(s, AfterSign(s)) == '0' then 8 else 10)
    else base
  }

  function DigitsStart(s: string, base: int): (r: nat)
    ensures r <= |s|
  {
    if HexPrefix(s, base) then AfterSign(s) + 2 else AfterSign(s)
  }

  function DigitsEnd(s: string, i: nat, base: nat): (r: nat)
    requires i <= |s|
    ensures i <= r <= |s|
    decreases |s| - i
  {
    if i < |s| && DigitValue(s[i]) < base && DigitValue(s[i]) < 36 then DigitsEnd(s, i + 1, base) else i
  }

  function Append(before: nat, base: nat, d: nat): nat {
    before * base + d
  }

  /** The number the digits from `i` on make, `before` standing in front of them. */
  function ValueFrom(s: string, i: nat, base: nat, before: nat): (v: nat)
    requires i <= |s|
    decreases |s| - i
  {
    if i < |s| && DigitValue(s[i]) < base && DigitValue(s[i]) < 36
    then ValueFrom(s, i + 1, base, Append(before, base, DigitValue(s[i]))) else before
  }

  lemma {:induction false} ValueGrows(s: string, i: nat, base: nat, before: nat)
    requires i <= |s| && base > 0
    ensures ValueFrom(s, i, base, before) >= before
    decreases |s| - i
  {
    if i < |s| && DigitValue(s[i]) < base && DigitValue(s[i]) < 36 {
      assert before * base >= before by { assert before * (base - 1) >= 0; }
      ValueGrows(s, i + 1, base, Append(before, base, DigitValue(s[i])));
    }
  }

  datatype Errno = NoError | EInval | ERange

  /** The number with its sign, and whether it fits the word. */
  function Signed(neg: bool, v: nat): int {
    if neg then 0 - v else v
  }

  predicate InRange(neg: bool, v: nat) {
    MIN <= Signed(neg, v) <= MAX
  }

  /** The word after one more digit, unless the tests for wrapping around notice
      something. */
  function NextWord(acc: int, neg: bool, base: nat, d: nat): Option<int> {
    var val := Wrap(acc * base);
    if neg then (if val > acc || Wrap(val - d) > acc then None else Some(Wrap(val - d)))
    else if val < acc || Wrap(val + d) < acc then None
    else Some(Wrap(val + d))
  }

  /** The word after all the digits from `i` on. */
  function WordFrom(s: string, i: nat, base: nat, neg: bool, acc: int): Option<int>
    requires i <= |s|
    decreases |s| - i
  {
    if i < |s| && DigitValue(s[i]) < base && DigitValue(s[i]) < 36
    then
      match NextWord(acc, neg, base, DigitValue(s[i]))
      case None => None
      case Some(w) => WordFrom(s, i + 1, base, neg, w)
    else Some(acc)
  }

  /** White space, sign and prefix: `p` is one past the place the first digit is
      looked for at. */
  method Prologue(s: string, base0: int) returns (p: nat, neg: bool, base: int)
    ensures p == DigitsStart(s, base0) + 1 && neg == Negative(s) && base == BaseOf(s, base0)
  {
    base := base0;
    p := 1;
    var c := At(s, 0);
    while IsSpace(c)
      invariant 0 < p <= |s| + 1 && c == At(s, p - 1)
      invariant AfterSpaces(s, p - 1) == AfterSpaces(s, 0)
      decreases |s| + 1 - p
    {
      c := At(s, p);
      p := p + 1;
    }
    neg := false;
    if c == '-' {
      neg := true;
      c := At(s, p);
      p := p + 1;
    } else if c == '+' {
      c := At(s, p);
      p := p + 1;
    }
    if (base == 0 || base == 16) && c == '0' && (At(s, p) == 'x' || At(s, p) == 'X') {
      c := At(s, p + 1);
      p := p + 2;
      base := 16;
    }
    if base == 0 {
      base := if c == '0' then 8 else 10;
    }
  }

  /** One more digit, with the tests for wrapping around. */
  method Accumulate(acc0: int, any0: int, neg: bool, base: nat, d: nat) returns (acc: int, any: int)
    ensures any0 < 0 ==> any == -1
    ensures any0 >= 0 ==> match NextWord(acc0, neg, base, d)
                          case None => any == -1
                          case Some(w) => any == 1 && acc == w
  {
    hide Wrap;
    acc, any := acc0, any0;
    var val := Wrap(acc * base);
    if any < 0 {
      return acc, -1;
    }
    if neg {
      if val > acc { return acc, -1; }
      val := Wrap(val - d);
      if val > acc { return acc, -1; }
    } else {
      if val < acc { return acc, -1; }
      val := Wrap(val + d);
      if val < acc { return acc, -1; }
    }
    return val, 1;
  }

  /** `apr_strtoi64`; `end` is the place `*endptr` is set to. For digits whose number
      fits the word it is read exactly and the overflow tests stay silent. */
  method Strtoi64(s: string, base0: int) returns (acc: int, errno: Errno, end: nat)
    ensures !(2 <= BaseOf(s, base0) <= 36) ==> acc == 0 && errno == EInval && end == 0
    ensures 2 <= BaseOf(s, base0) <= 36 ==>
              var i, base, neg := DigitsStart(s, base0), BaseOf(s, base0), Negative(s);
              var v := ValueFrom(s, i, base, 0);
              if DigitsEnd(s, i, base) == i then acc == 0 && errno == EInval && end == 0 else
              && end == DigitsEnd(s, i, base)
              && (match WordFrom(s, i, base, neg, 0)
                  case None => acc == (if neg then MIN else MAX) && errno == ERange
                  case Some(w) => acc == w && errno == NoError)
              && (InRange(neg, v) ==> acc == Signed(neg, v) && errno == NoError)
  {
    var p, neg, base := Prologue(s, base0);
    acc := 0;
    if base < 2 || base > 36 {
      return 0, EInval, 0;
    }
    WordIsNumber(s, p - 1, base, neg, 0);
    hide Negative, DigitsStart, BaseOf, DigitsEnd, ValueFrom, InRange, Signed, DigitValue, NextWord, WordFrom;
    var c := At(s, p - 1);
    var any := 0;
    ghost var i: nat := p - 1;
    while true
      invariant 0 < p <= |s| + 1 && c == At(s, p - 1) && i <= p - 1
      invariant DigitsEnd(s, p - 1, base) == DigitsEnd(s, i, base)
      invariant any == 0 ==> p - 1 == i && acc == 0
      invariant p - 1 == i ==> any == 0
      invariant WordFrom(s, i, base, neg, 0) == if any < 0 then None else WordFrom(s, p - 1, base, neg, acc)
      decreases |s| + 1 - p
    {
      var d := DigitValue(c);
      OneDigit(s, p - 1, base, neg, acc);
      if d == 36 { break; }
      if d >= base { break; }
      acc, any := Accumulate(acc, any, neg, base, d);
      c := At(s, p);
      p := p + 1;
    }
    errno := NoError;
    if any < 0 {
      acc := if neg then MIN else MAX;
      errno := ERange;
    } else if any == 0 {
      errno := EInval;
    }
    end := if any != 0 then p - 1 else 0;
  }

  /** What one character does. */
  lemma OneDigit(s: string, i: nat, base: nat, neg: bool, acc: int)
    requires i <= |s|
    ensures var d := DigitValue(At(s, i));
            if d < base && d < 36
            then i < |s| && DigitsEnd(s, i, base) == DigitsEnd(s, i + 1, base)
                 && WordFrom(s, i, base, neg, acc) == match NextWord(acc, neg, base, d)
                                                      case None => None
                                                      case Some(w) => WordFrom(s, i + 1, base, neg, w)
            else DigitsEnd(s, i, base) == i && WordFrom(s, i, base, neg, acc) == Some(acc)
  {
    hide NextWord;
  }

  lemma WrapFits(x: int)
    ensures MIN <= x <= MAX ==> Wrap(x) == x
  {
  }

  lemma NoOverflow(read: nat, base: nat, d: nat)
    requires base >= 1
    ensures read <= read * base <= read * base + d
  {
    assert read * (base - 1) >= 0;
  }

  lemma SignedTimes(neg: bool, read: nat, base: nat)
    ensures Signed(neg, read) * base == Signed(neg, read * base)
  {
  }

  /** While the number fits, a digit is taken exactly and nothing is noticed. */
  lemma NextFits(read: nat, neg: bool, base: nat, d: nat)
    requires base >= 1 && InRange(neg, Append(read, base, d))
    ensures NextWord(Signed(neg, read), neg, base, d) == Some(Signed(neg, Append(read, base, d)))
  {
    hide Wrap;
    var acc := Signed(neg, read);
    NoOverflow(read, base, d);
    SignedTimes(neg, read, base);
    WrapFits(acc * base);
    WrapFits(acc * base - d);
    WrapFits(acc * base + d);
  }

  /** A number that fits is read exactly. */
  lemma {:induction false} WordIsNumber(s: string, i: nat, base: nat, neg: bool, read: nat)
    requires i <= |s| && base > 0
    ensures InRange(neg, ValueFrom(s, i, base, read)) ==>
              WordFrom(s, i, base, neg, Signed(neg, read)) == Some(Signed(neg, ValueFrom(s, i, base, read)))
    decreases |s| - i
  {
    if i < |s| && DigitValue(s[i]) < base && DigitValue(s[i]) < 36 {
      hide NextWord;
      var next := Append(read, base, DigitValue(s[i]));
      ValueGrows(s, i + 1, base, next);
      WordIsNumber(s, i + 1, base, neg, next);
      if InRange(neg, next) { NextFits(read, neg, base, DigitValue(s[i])); }
    }
  }

  // ---- Reading what was written ----

  lemma {:induction false} DigitsAreDigits(n: nat, base: nat)
    requires 2 <= base <= 36
    ensures forall k | 0 <= k < |Digits(n, base)| :: DigitValue(Digits(n, base)[k]) < base
    decreases n
  {
    if n >= base {
      QuotientSmaller(n, base);
      DigitsAreDigits(n / base, base);
    }
  }

  /** A run of digits ending the string. */
  lemma {:induction false} RunToEnd(s: string, i: nat, base: nat)
    requires i <= |s| && base <= 36 && forall k | i <= k < |s| :: DigitValue(s[k]) < base
    ensures DigitsEnd(s, i, base) == |s|
    decreases |s| - i
  {
    if i < |s| { RunToEnd(s, i + 1, base); }
  }

  /** Digits in front of more digits. */
  lemma {:induction false} ValueOfDigits(s: string, i: nat, n: nat, base: nat, neg: bool, rest: string)
    requires 2 <= base <= 36 && i <= |s| && s[i..] == Digits(n, base) + rest
    ensures var e := i + |Digits(n, base)|;
            && e <= |s| && s[e..] == rest
            && ValueFrom(s, i, base, 0) == ValueFrom(s, e, base, n)
            && (InRange(neg, n) ==> WordFrom(s, i, base, neg, 0) == WordFrom(s, e, base, neg, Signed(neg, n)))
    decreases n
  {
    hide NextWord;
    var t := Digits(n, base);
    assert |s[i..]| == |t| + |rest|;
    assert s[i..][|t|..] == s[i + |t|..] && (t + rest)[|t|..] == rest;
    if n < base {
      assert s[i] == s[i..][0] == t[0];
      assert Append(0, base, n) == n;
      if InRange(neg, n) { NextFits(0, neg, base, n); }
    } else {
      QuotientSmaller(n, base);
      var front, last := Digits(n / base, base), [Digit(n % base)];
      assert t + rest == front + (last + rest);
      ValueOfDigits(s, i, n / base, base, neg, last + rest);
      assert s[i + |front|] == s[i + |front|..][0] == Digit(n % base);
      if InRange(neg, n) { NextFits(n / base, neg, base, n % base); }
    }
  }

  /** `apr_atoi64` of `apr_ltoa` of a number is that number: what Strtoi64 promises for
      base 10 applies to every numeral, and yields the number. */
  lemma NumeralReadsBack(n: int)
    requires MIN < n <= MAX
    ensures var s := Numeral(n);
            && BaseOf(s, 10) == 10 && Negative(s) == (n < 0)
            && ValueFrom(s, DigitsStart(s, 10), 10, 0) == (if n < 0 then -n else n)
            && DigitsStart(s, 10) < DigitsEnd(s, DigitsStart(s, 10), 10) == |s|
  {
    var s := Numeral(n);
    var m := if n < 0 then -n else n;
    var i := if n < 0 then 1 else 0;
    DigitsAreDigits(m, 10);
    assert s[i..] == Digits(m, 10) + "";
    assert forall k | i <= k < |s| :: s[k] == Digits(m, 10)[k - i];
    ValueOfDigits(s, i, m, 10, n < 0, "");
    RunToEnd(s, i, 10);
    assert s[0] == if n < 0 then '-' else Digits(m, 10)[0];
    assert AfterSpaces(s, 0) == 0;
  }

  /** `apr_atoi64` */
  method Atoi64(s: string) returns (n: int)
    ensures var i := DigitsStart(s, 10);
            if DigitsEnd(s, i, 10) == i then n == 0 else
            InRange(Negative(s), ValueFrom(s, i, 10, 0)) ==> n == Signed(Negative(s), ValueFrom(s, i, 10, 0))
  {
    var acc, _, _ := Strtoi64(s, 10);
    n := acc;
  }

  /** What is written is the numeral for every number but the least, for which it holds
      no digit behind the sign. */
  lemma LeastIsNoNumeral(n: int)
    requires MIN <= n <= MAX
    ensures LongText(n) == Numeral(n) <==> n != MIN
    ensures n == MIN ==> DigitsEnd(LongText(n), DigitsStart(LongText(n), 10), 10) == DigitsStart(LongText(n), 10)
  {
    if n == MIN {
      WrittenIs(MIN);
      DigitsAreDigits(-MIN, 10);
      var s := LongText(n);
      hide Written, Digits;
      assert s[1] == Written(MIN)[0] && Numeral(MIN)[1] == Digits(-MIN, 10)[0];
      hide LongText, Numeral;
      NoDigitBehindSign(s);
    }
  }

  lemma NoDigitBehindSign(s: string)
    requires |s| > 1 && s[0] == '-' && s[1] < '0'
    ensures DigitsStart(s, 10) == 1 == DigitsEnd(s, 1, 10)
  {
    assert AfterSpaces(s, 0) == 0;
  }

  /** Writing a number and reading the text gives the number back; the least one comes
      back as zero. */
  method WriteThenRead(n: int) returns (back: int)
    requires MIN <= n <= MAX
    ensures back == if n == MIN then 0 else n
  {
    var buf, start := Ltoa(n);
    LeastIsNoNumeral(n);
    if n > MIN { NumeralReadsBack(n); }
    back := Atoi64(buf[start..buf.Length - 1]);
  }
}
