/**
 Bytes and the bit operations on them, as numbers.

 Everything the codings of apr_encode.c compute from a byte comes down to cutting
 it in two and joining two parts. Facts about bits alone are settled on bit
 vectors, those about quotients and remainders on numbers; the lemmas here are the only
 ones that speak of both.
 */
module BitOps {

  /** A byte as the bit operations see it. */
  function Narrow(x: nat): (b: bv8)
    requires x < 256
    ensures b as int == x
  {
    if x == 0 then 0 else
    var half := Narrow(x / 2);
    Doubled(half);
    if x % 2 == 0 then half << 1 else (half << 1) | 1
  }

  lemma Doubled(b: bv8)
    requires b as int < 128
    ensures (b << 1) as int == 2 * b as int && ((b << 1) | 1) as int == 2 * b as int + 1
  {
    Below(b);
    Join1(b, 0);
    Join1(b, 1);
  }

  /** Comparing bytes and comparing numbers. */
  lemma Below(b: bv8)
    ensures b as int < 128 ==> b < 128
    ensures b as int < 64 ==> b < 64
    ensures b as int < 32 ==> b < 32
  {
  }

  lemma DivMod(v: nat, q: nat, high: nat, low: nat)
    requires v == q * high + low && low < q
    ensures v / q == high && v % q == low
  {
    assert v / q == high by {
      if v / q < high { Multiple(q, v / q, high); } else if v / q > high { Multiple(q, high, v / q); }
    }
  }

  lemma Multiple(q: nat, m: nat, n: nat)
    requires m < n
    ensures q * m + q <= q * n
  {
    var d := n - m - 1;
    assert q * n == q * (m + 1 + d) == q * m + q + q * d;
  }

  // ---- Cutting a byte ----

  lemma Cut1(b: bv8)
    ensures (b >> 1) as int == b as int / 2 && (b & 1) as int == b as int % 2
  {
    assert b as int == 2 * (b >> 1) as int + (b & 1) as int && (b & 1) as int < 2;
    DivMod(b as int, 2, (b >> 1) as int, (b & 1) as int);
  }

  lemma Cut2(b: bv8)
    ensures (b >> 2) as int == b as int / 4 && (b & 3) as int == b as int % 4
  {
    assert b as int == 4 * (b >> 2) as int + (b & 3) as int && (b & 3) as int < 4;
    DivMod(b as int, 4, (b >> 2) as int, (b & 3) as int);
  }

  lemma Cut3(b: bv8)
    ensures (b >> 3) as int == b as int / 8 && (b & 7) as int == b as int % 8
  {
    assert b as int == 8 * (b >> 3) as int + (b & 7) as int && (b & 7) as int < 8;
    DivMod(b as int, 8, (b >> 3) as int, (b & 7) as int);
  }

  lemma Cut4(b: bv8)
    ensures (b >> 4) as int == b as int / 16 && (b & 15) as int == b as int % 16
  {
    assert b as int == 16 * (b >> 4) as int + (b & 15) as int && (b & 15) as int < 16;
    DivMod(b as int, 16, (b >> 4) as int, (b & 15) as int);
  }

  lemma Cut5(b: bv8)
    ensures (b >> 5) as int == b as int / 32 && (b & 31) as int == b as int % 32
  {
    assert b as int == 32 * (b >> 5) as int + (b & 31) as int && (b & 31) as int < 32;
    DivMod(b as int, 32, (b >> 5) as int, (b & 31) as int);
  }

  lemma Cut6(b: bv8)
    ensures (b >> 6) as int == b as int / 64 && (b & 63) as int == b as int % 64
  {
    assert b as int == 64 * (b >> 6) as int + (b & 63) as int && (b & 63) as int < 64;
    DivMod(b as int, 64, (b >> 6) as int, (b & 63) as int);
  }

  lemma Cut7(b: bv8)
    ensures (b >> 7) as int == b as int / 128 && (b & 127) as int == b as int % 128
  {
    assert b as int == 128 * (b >> 7) as int + (b & 127) as int && (b & 127) as int < 128;
    DivMod(b as int, 128, (b >> 7) as int, (b & 127) as int);
  }

  // ---- Joining two parts ----

  lemma Join1(high: bv8, low: bv8)
    requires high < 128 && low < 2
    ensures ((high << 1) | low) as int == 2 * high as int + low as int
  {
  }

  lemma Join2(high: bv8, low: bv8)
    requires high < 64 && low < 4
    ensures ((high << 2) | low) as int == 4 * high as int + low as int
  {
  }

  lemma Join3(high: bv8, low: bv8)
    requires high < 32 && low < 8
    ensures ((high << 3) | low) as int == 8 * high as int + low as int
  {
  }

  lemma Join4(high: bv8, low: bv8)
    requires high < 16 && low < 16
    ensures ((high << 4) | low) as int == 16 * high as int + low as int
  {
  }

  lemma Join5(high: bv8, low: bv8)
    requires high < 8 && low < 32
    ensures ((high << 5) | low) as int == 32 * high as int + low as int
  {
  }

  lemma Join6(high: bv8, low: bv8)
    requires high < 4 && low < 64
    ensures ((high << 6) | low) as int == 64 * high as int + low as int
  {
  }

  lemma Join7(high: bv8, low: bv8)
    requires high < 2 && low < 128
    ensures ((high << 7) | low) as int == 128 * high as int + low as int
  {
  }
}
