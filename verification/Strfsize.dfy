/**
 `apr_strfsize` (strings/apr_strings.c): a size in four characters.

 The size is divided by 1024 as long as it is 973 or more. What is shown then is
 compared, in fractions of a unit, with the size that was given.
 */
module Strfsize {

  const MAX: nat := 0x7FFF_FFFF_FFFF_FFFF

  /** What is shown. */
  datatype Shown =
    | Dash                                  // a negative size
    | Bytes(n: nat)                         // `%3d `
    | Tenths(n: nat, t: nat, unit: nat)     // `%d.%d%c`
    | Whole(n: nat, unit: nat)              // `%3d%c`
  {
    /** Fits its format: one digit, or up to three. */
    predicate Fits() {
      match this
      case Dash => true
      case Bytes(n) => n < 1000
      case Tenths(n, t, unit) => n < 10 && t < 10 && unit < 6
      case Whole(n, unit) => n < 1000 && unit < 6
    }
  }

  function Pow1024(u: nat): (r: nat)
    ensures r > 0
  {
    if u == 0 then 1 else 1024 * Pow1024(u - 1)
  }

  /** The body of the loop once the number of units is small enough: `m` counts
      1024ths of unit `unit`. */
  function ShowUnit(m: nat, unit: nat): (s: Shown)
    ensures s.Tenths? || s.Whole?
  {
    var size, remain := m / 1024, m % 1024;
    if size < 9 || (size == 9 && remain < 973) then
      var t := (remain * 5 + 256) / 512;
      if t >= 10 then Tenths(size + 1, 0, unit) else Tenths(size, t, unit)
    else Whole(if remain >= 512 then size + 1 else size, unit)
  }

  function ShowFrom(m: nat, unit: nat): (s: Shown)
    ensures s.Tenths? || s.Whole?
  {
    if m / 1024 >= 973 then ShowFrom(m / 1024, unit + 1) else ShowUnit(m, unit)
  }

  function Show(size: int): (s: Shown)
    ensures s.Dash? <==> size < 0
  {
    if size < 0 then Dash else if size < 973 then Bytes(size) else ShowFrom(size, 0)
  }

  // ---- Text ----

  function Digit(d: nat): char
    requires d < 10
  {
    (d + '0' as int) as char
  }

  /** `%3d` for numbers of at most three digits. */
  function Pad3(n: nat): (t: string)
    requires n < 1000
    ensures |t| == 3
  {
    [if n < 100 then ' ' else Digit(n / 100), if n < 10 then ' ' else Digit(n / 10 % 10), Digit(n % 10)]
  }

  function Text(s: Shown): (t: string)
    requires s.Fits()
    ensures |t| == 4
  {
    match s
    case Dash => "  - "
    case Bytes(n) => Pad3(n) + " "
    case Tenths(n, t, unit) => [Digit(n), '.', Digit(t), "KMGTPE"[unit]]
    case Whole(n, unit) => Pad3(n) + ["KMGTPE"[unit]]
  }

  lemma ShowUnitFits(m: nat, unit: nat)
    requires m / 1024 < 973 && unit < 6
    ensures ShowUnit(m, unit).Fits()
  {
  }

  /** The method of the source: exactly four characters, and no unit past `E`. */
  method AprStrfsize(size0: int) returns (text: string)
    requires size0 <= MAX
    ensures Show(size0).Fits() && text == Text(Show(size0)) && |text| == 4
  {
    var size := size0;
    if size < 0 { return "  - "; }
    if size < 973 { return Pad3(size) + " "; }
    var o := 0;
    ghost var m: nat := size;
    while true
      invariant size == m && o < 6 && ShowFrom(m, o) == Show(size0)
      invariant m < 0x8000_0000_0000_0000 / Power(o)
      decreases m
    {
      var remain := size % 1024;
      size := size / 1024;
      if size >= 973 {
        UnitsRunOut(m, o);
        o := o + 1;
        m := size;
        continue;
      }
      ShowUnitFits(m, o);
      if size < 9 || (size == 9 && remain < 973) {
        remain := (remain * 5 + 256) / 512;
        if remain >= 10 {
          size, remain := size + 1, 0;
        }
        return [Digit(size), '.', Digit(remain), "KMGTPE"[o]];
      }
      if remain >= 512 {
        size := size + 1;
      }
      return Pad3(size) + ["KMGTPE"[o]];
    }
  }

  /** 1024^o for the units there are. */
  function Power(o: nat): (r: nat)
    requires o <= 6
    ensures r > 0 && r == Pow1024(o)
  {
    if o == 0 then 1 else 1024 * Power(o - 1)
  }

  /** A 63-bit size is below 973 of the last unit. */
  lemma UnitsRunOut(m: nat, o: nat)
    requires o < 6 && m < 0x8000_0000_0000_0000 / Power(o) && m / 1024 >= 973
    ensures o + 1 < 6 && m / 1024 < 0x8000_0000_0000_0000 / Power(o + 1)
  {
    assert Power(0) == 1 && Power(1) == 1024 && Power(2) == 0x10_0000 && Power(3) == 0x4000_0000;
    assert Power(4) == 0x100_0000_0000 && Power(5) == 0x4_0000_0000_0000 && Power(6) == 0x1000_0000_0000_0000;
  }

  // ---- What the text says about the size ----

  /** Ten times the value shown, in bytes. */
  function TenfoldValue(s: Shown): nat
    requires !s.Dash?
  {
    match s
    case Bytes(n) => 10 * n
    case Tenths(n, t, unit) => (10 * n + t) * Pow1024(unit + 1)
    case Whole(n, unit) => 10 * n * Pow1024(unit + 1)
  }

  /** Tenths of a unit shown for `m` 1024ths. */
  function ShownTenths(m: nat): nat {
    var size, remain := m / 1024, m % 1024;
    if size < 9 || (size == 9 && remain < 973) then 10 * size + (remain * 5 + 256) / 512
    else 10 * (if remain >= 512 then size + 1 else size)
  }

  lemma ShowUnitValue(m: nat, unit: nat)
    ensures TenfoldValue(ShowUnit(m, unit)) == ShownTenths(m) * Pow1024(unit + 1)
  {
    assert (m % 1024 * 5 + 256) / 512 <= 10;
  }

  /** The unit in which a size is shown and the 1024ths counted there. */
  lemma {:induction false} UnitOf(v: nat, m: nat, unit: nat, low: nat) returns (m': nat, unit': nat, low': nat)
    requires v == m * Pow1024(unit) + low && low < Pow1024(unit)
    ensures v == m' * Pow1024(unit') + low' && low' < Pow1024(unit')
    ensures m' / 1024 < 973 && ShowFrom(m, unit) == ShowUnit(m', unit')
    ensures m >= 973 ==> m' >= 973
    decreases m
  {
    if m / 1024 >= 973 {
      var p := Pow1024(unit);
      var low1 := (m % 1024) * p + low;
      assert m == (m / 1024) * 1024 + m % 1024;
      assert m * p == (m / 1024) * (1024 * p) + (m % 1024) * p;
      assert (m % 1024) * p <= 1023 * p by { MulLe(m % 1024, 1023, p); }
      m', unit', low' := UnitOf(v, m / 1024, unit + 1, low1);
    } else {
      m', unit', low' := m, unit, low;
    }
  }

  lemma MulLe(a: nat, b: nat, p: nat)
    requires a <= b
    ensures a * p <= b * p
  {
    assert (b - a) * p >= 0;
  }

  /** How far off the text is: 1/20 + 1/1024 of a unit with a decimal point, half a unit
      without one, nothing below 973 bytes. */
  lemma Accuracy(v: nat)
    ensures var s := Show(v);
            match s
            case Dash => false
            case Bytes(n) => n == v
            case Tenths(n, t, unit) =>
              var u: int := Pow1024(unit + 1);
              -261 * u <= 5120 * v - 512 * TenfoldValue(s) <= 261 * u
            case Whole(n, unit) =>
              var u: int := Pow1024(unit + 1);
              -u <= 2 * v - 2 * (n * u) <= u
  {
    if v >= 973 {
      var m, unit, low := UnitOf(v, v, 0, 0);
      UnitAccuracy(v, m, unit, low);
    }
  }

  /** Which form is taken: bytes below 973; from there on the first unit of which there are fewer
      than 973, with a decimal point up to 9 + 972/1024 of it, and rounded half up either way. */
  lemma WhichForm(v: nat) returns (m: nat, unit: nat)
    ensures v < 973 <==> Show(v).Bytes?
    ensures v >= 973 ==>
              var s := Show(v);
              && m * Pow1024(unit) <= v < (m + 1) * Pow1024(unit) && 973 <= m < 973 * 1024
              && (s.Tenths? <==> m <= 9 * 1024 + 972) && (s.Whole? <==> m > 9 * 1024 + 972)
              && (s.Tenths? ==> s.unit == unit && s.t < 10 && 10 * s.n + s.t == (10 * m + 512) / 1024)
              && (s.Whole? ==> s.unit == unit && s.n == (m + 512) / 1024)
  {
    m, unit := v, 0;
    if v >= 973 {
      var low;
      m, unit, low := UnitOf(v, v, 0, 0);
      hide Pow1024, ShowFrom, ShowUnit;
      TenthsAre(m, unit);
      FullUnits(v, m, Pow1024(unit), low);
    }
  }

  lemma FullUnits(v: nat, m: nat, p: nat, low: nat)
    requires v == m * p + low && low < p
    ensures m * p <= v < (m + 1) * p
  {
    Distribute(m, 1, p);
  }

  lemma TenthsAre(m: nat, unit: nat)
    ensures var s := ShowUnit(m, unit);
            && s.unit == unit && (s.Tenths? <==> m <= 9 * 1024 + 972)
            && (s.Tenths? ==> s.t < 10 && 10 * s.n + s.t == (10 * m + 512) / 1024)
            && (s.Whole? ==> s.n == (m + 512) / 1024)
  {
    var size, remain := m / 1024, m % 1024;
    assert m == 1024 * size + remain;
    assert (10 * m + 512) / 1024 == 10 * size + (remain * 5 + 256) / 512;
  }

  lemma UnitAccuracy(v: nat, m: nat, unit: nat, low: nat)
    requires v == m * Pow1024(unit) + low && low < Pow1024(unit) && m / 1024 < 973
    ensures var s := ShowUnit(m, unit);
            var u: int := Pow1024(unit + 1);
            && (s.Tenths? ==> s.unit == unit && -261 * u <= 5120 * v - 512 * TenfoldValue(s) <= 261 * u)
            && (s.Whole? ==> s.unit == unit && -u <= 2 * v - 2 * (s.n * u) <= u)
  {
    hide Pow1024, TenfoldValue, ShowUnit;
    OneUnitUp(unit);
    ShowUnitIs(m, unit);
    ShowUnitValue(m, unit);
    TenthsCase(v, m, Pow1024(unit), low);
    WholeCase(v, m, Pow1024(unit), low);
  }

  /** Which form is taken, and what a whole one shows. */
  lemma ShowUnitIs(m: nat, unit: nat)
    ensures var s, size, remain := ShowUnit(m, unit), m / 1024, m % 1024;
            && (s.Tenths? <==> size < 9 || (size == 9 && remain < 973)) && (s.Tenths? || s.Whole?)
            && s.unit == unit && (s.Whole? ==> s.n == if remain >= 512 then size + 1 else size)
  {
  }

  /** The value with a decimal point, for a unit of 1024 times `p`. */
  lemma TenthsCase(v: nat, m: nat, p: nat, low: nat)
    requires v == m * p + low && low < p
    ensures var size, remain := m / 1024, m % 1024;
            size < 9 || (size == 9 && remain < 973) ==>
              -261 * (1024 * p) <= 5120 * v - 512 * (ShownTenths(m) * (1024 * p)) <= 261 * (1024 * p)
  {
    var size, remain := m / 1024, m % 1024;
    var t := (remain * 5 + 256) / 512;
    Parts(m, size, remain, p);
    TenParts(size, t, 1024 * p);
    TenthsOff(v, size * (1024 * p), remain, p, low, t);
  }

  /** The value without. */
  lemma WholeCase(v: nat, m: nat, p: nat, low: nat)
    requires v == m * p + low && low < p
    ensures var n := if m % 1024 >= 512 then m / 1024 + 1 else m / 1024;
            -(1024 * p) <= 2 * v - 2 * (n * (1024 * p)) <= 1024 * p
  {
    Parts(m, m / 1024, m % 1024, p);
    HalfRounded(m % 1024, m / 1024, p, low);
  }

  lemma Parts(m: nat, size: nat, remain: nat, p: nat)
    requires m == size * 1024 + remain
    ensures m * p == size * (1024 * p) + remain * p
  {
    Distribute(size * 1024, remain, p);
    Regroup(size, p);
    assert size * 1024 == 1024 * size;
  }

  lemma TenParts(size: nat, t: nat, q: nat)
    ensures (10 * size + t) * q == 10 * (size * q) + t * q
  {
    Distribute(10 * size, t, q);
  }

  lemma OneUnitUp(unit: nat)
    ensures Pow1024(unit + 1) == 1024 * Pow1024(unit)
  {
  }

  lemma TenthsOff(v: nat, whole: nat, remain: nat, p: nat, low: nat, t: nat)
    requires v == whole + remain * p + low && low < p && remain < 1024 && t == (remain * 5 + 256) / 512
    ensures -261 * (1024 * p) <= 5120 * v - 512 * (10 * whole + t * (1024 * p)) <= 261 * (1024 * p)
  {
    Rounded(remain, t, p);
  }

  lemma Distribute(a: nat, b: nat, p: nat)
    ensures (a + b) * p == a * p + b * p
  {
  }

  lemma Rounded(remain: nat, t: nat, p: nat)
    requires remain < 1024 && t == (remain * 5 + 256) / 512
    ensures -262144 * p <= 5120 * (remain * p) - 512 * (t * (1024 * p)) <= 262144 * p
  {
    var d := 5120 * remain - 524288 * t;
    assert -262144 <= d <= 262144;
    assert 5120 * (remain * p) - 512 * (t * (1024 * p)) == d * p;
    MulLe(0, d + 262144, p);
    MulLe(0, 262144 - d, p);
  }

  lemma HalfRounded(remain: nat, size: nat, p: nat, low: nat)
    requires remain < 1024 && low < p
    ensures var n := if remain >= 512 then size + 1 else size;
            -(1024 * p) <= 2 * (size * (1024 * p) + remain * p + low) - 2 * (n * (1024 * p)) <= 1024 * p
  {
    if remain >= 512 {
      assert (size + 1) * (1024 * p) == size * (1024 * p) + 1024 * p;
      MulLe(512, remain, p);
      MulLe(remain, 1023, p);
    } else {
      MulLe(remain, 511, p);
    }
  }

  // ---- A larger size never reads as smaller ----

  /** Ten times the value shown, relative to the unit `m` is counted in. */
  function Scaled(m: nat): nat {
    if m / 1024 >= 973 then 1024 * Scaled(m / 1024) else 1024 * ShownTenths(m)
  }

  lemma {:induction false} ScaledIsValue(m: nat, unit: nat)
    ensures TenfoldValue(ShowFrom(m, unit)) == Scaled(m) * Pow1024(unit)
    decreases m
  {
    if m / 1024 >= 973 {
      ScaledIsValue(m / 1024, unit + 1);
      Regroup(Scaled(m / 1024), Pow1024(unit));
    } else {
      Regroup(ShownTenths(m), Pow1024(unit));
      ShowUnitValue(m, unit);
    }
  }

  lemma Regroup(a: nat, p: nat)
    ensures (1024 * a) * p == a * (1024 * p)
  {
  }

  lemma ShownTenthsMonotone(a: nat, b: nat)
    requires a <= b
    ensures ShownTenths(a) <= ShownTenths(b)
  {
    assert (a % 1024 * 5 + 256) / 512 <= 10 && (b % 1024 * 5 + 256) / 512 <= 10;
    if a / 1024 == b / 1024 {
      assert a % 1024 <= b % 1024;
    } else {
      assert a / 1024 + 1 <= b / 1024;
    }
  }

  lemma {:induction false} ScaledAtLeast(m: nat)
    requires m >= 973
    ensures Scaled(m) >= 10240
    decreases m
  {
    if m / 1024 >= 973 { ScaledAtLeast(m / 1024); }
    else { ShownTenthsMonotone(973, m); }
  }

  lemma {:induction false} ScaledMonotone(a: nat, b: nat)
    requires 973 <= a <= b
    ensures Scaled(a) <= Scaled(b)
    decreases b
  {
    if a / 1024 >= 973 {
      ScaledMonotone(a / 1024, b / 1024);
    } else if b / 1024 >= 973 {
      ScaledAtLeast(b / 1024);
      ShownTenthsMonotone(a, 972 * 1024 + 1023);
    } else {
      ShownTenthsMonotone(a, b);
    }
  }

  lemma Monotone(v: nat, w: nat)
    requires v <= w
    ensures TenfoldValue(Show(v)) <= TenfoldValue(Show(w))
  {
    hide ShowFrom, Scaled;
    if w >= 973 { ScaledIsValue(w, 0); ScaledAtLeast(w); }
    if v >= 973 { ScaledIsValue(v, 0); ScaledMonotone(v, w); }
  }

  // ---- Reading the text ----

  /** A figure, or a blank for a leading zero. */
  function Figure(c: char): int {
    if c == ' ' then 0 else c as int - 48
  }

  function UnitOfLetter(c: char): nat {
    match c
    case 'K' => 0
    case 'M' => 1
    case 'G' => 2
    case 'T' => 3
    case 'P' => 4
    case 'E' => 5
    case _ => 6
  }

  /** The number and the unit that four characters show. */
  predicate Reads(t: string, s: Shown)
    requires |t| == 4
  {
    match s
    case Dash => t == "  - "
    case Bytes(n) => 100 * Figure(t[0]) + 10 * Figure(t[1]) + Figure(t[2]) == n && t[3] == ' '
    case Tenths(n, m, unit) => Figure(t[0]) == n && t[1] == '.' && Figure(t[2]) == m && UnitOfLetter(t[3]) == unit
    case Whole(n, unit) => 100 * Figure(t[0]) + 10 * Figure(t[1]) + Figure(t[2]) == n && UnitOfLetter(t[3]) == unit
  }

  lemma ThreeShow(n: nat)
    requires n < 1000
    ensures var t := Pad3(n);
            && 100 * Figure(t[0]) + 10 * Figure(t[1]) + Figure(t[2]) == n
            && (t[0] == ' ' <==> n < 100) && (t[1] == ' ' <==> n < 10) && t[2] != ' '
            && forall k | 0 <= k < 3 :: t[k] == ' ' || '0' <= t[k] <= '9'
  {
    assert n == 100 * (n / 100) + 10 * (n / 10 % 10) + n % 10;
  }

  lemma LetterOfUnit(unit: nat)
    requires unit < 6
    ensures UnitOfLetter("KMGTPE"[unit]) == unit
  {
  }

  /** The four characters of a size show the value of which Accuracy and Monotone speak;
      blanks stand for leading zeros only. */
  lemma TextShows(s: Shown)
    requires s.Fits()
    ensures Reads(Text(s), s)
    ensures s.Bytes? || s.Whole? ==>
              var t := Text(s);
              && (t[0] == ' ' <==> s.n < 100) && (t[1] == ' ' <==> s.n < 10) && t[2] != ' '
              && forall k | 0 <= k < 3 :: t[k] == ' ' || '0' <= t[k] <= '9'
    ensures s.Tenths? ==> '0' <= Text(s)[0] <= '9' && '0' <= Text(s)[2] <= '9'
  {
    if s.Bytes? || s.Whole? {
      ThreeShow(s.n);
      hide Pad3, Figure;
    }
    if s.Tenths? || s.Whole? {
      LetterOfUnit(s.unit);
      hide UnitOfLetter;
    }
  }
}
