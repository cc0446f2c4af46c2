/**
 The bit operations of the base32 codings of encoding/apr_encode.c.

 Each function is one expression of the source, on bytes; its contract gives the
 number it makes as a quotient, a remainder or a sum of such. The functions with
 Alone in their names are those for the end of the text, where no byte follows. The
 tables are applied elsewhere.
 */
module Base32Ops {
  import opened BitOps

  // ---- Symbols from bytes ----

  function First(x: nat): (r: nat)
    requires x < 256
    ensures r == x / 8
  {
    var a := Narrow(x);
    assert (a >> 3) & 0x1F == a >> 3;
    Cut3(a);
    ((a >> 3) & 0x1F) as int
  }

  function Second(x: nat, y: nat): (r: nat)
    requires x < 256 && y < 256
    ensures r == (x % 8) * 4 + y / 64
  {
    SecondIs(Narrow(x), Narrow(y));
    (((Narrow(x) << 2) & 0x1C) | ((Narrow(y) >> 6) & 0x3)) as int
  }

  lemma SecondIs(a: bv8, b: bv8)
    ensures (((a << 2) & 0x1C) | ((b >> 6) & 0x3)) as int == (a as int % 8) * 4 + b as int / 64
  {
    assert (a << 2) & 0x1C == (a & 7) << 2 && (b >> 6) & 0x3 == b >> 6;
    Cut3(a);
    Cut6(b);
    Join2(a & 7, b >> 6);
  }

  function SecondAlone(x: nat): (r: nat)
    requires x < 256
    ensures r == (x % 8) * 4
  {
    var a := Narrow(x);
    assert (a << 2) & 0x1C == ((a & 7) << 2) | 0;
    Cut3(a);
    Join2(a & 7, 0);
    ((a << 2) & 0x1C) as int
  }

  function Third(y: nat): (r: nat)
    requires y < 256
    ensures r == (y / 2) % 32
  {
    var a := Narrow(y);
    Cut1(a);
    Cut5(a >> 1);
    ((a >> 1) & 0x1F) as int
  }

  function Fourth(y: nat, z: nat): (r: nat)
    requires y < 256 && z < 256
    ensures r == (y % 2) * 16 + z / 16
  {
    FourthIs(Narrow(y), Narrow(z));
    (((Narrow(y) << 4) & 0x10) | ((Narrow(z) >> 4) & 0xF)) as int
  }

  lemma FourthIs(a: bv8, b: bv8)
    ensures (((a << 4) & 0x10) | ((b >> 4) & 0xF)) as int == (a as int % 2) * 16 + b as int / 16
  {
    assert (a << 4) & 0x10 == (a & 1) << 4 && (b >> 4) & 0xF == b >> 4;
    Cut1(a);
    Cut4(b);
    Join4(a & 1, b >> 4);
  }

  function FourthAlone(y: nat): (r: nat)
    requires y < 256
    ensures r == (y % 2) * 16
  {
    var a := Narrow(y);
    assert (a << 4) & 0x10 == ((a & 1) << 4) | 0;
    Cut1(a);
    Join4(a & 1, 0);
    ((a << 4) & 0x10) as int
  }

  function Fifth(z: nat, u: nat): (r: nat)
    requires z < 256 && u < 256
    ensures r == (z % 16) * 2 + u / 128
  {
    FifthIs(Narrow(z), Narrow(u));
    (((Narrow(z) << 1) & 0x1E) | ((Narrow(u) >> 7) & 0x1)) as int
  }

  lemma FifthIs(a: bv8, b: bv8)
    ensures (((a << 1) & 0x1E) | ((b >> 7) & 0x1)) as int == (a as int % 16) * 2 + b as int / 128
  {
    assert (a << 1) & 0x1E == (a & 15) << 1 && (b >> 7) & 0x1 == b >> 7;
    Cut4(a);
    Cut7(b);
    Join1(a & 15, b >> 7);
  }

  function FifthAlone(z: nat): (r: nat)
    requires z < 256
    ensures r == (z % 16) * 2
  {
    var a := Narrow(z);
    assert (a << 1) & 0x1E == ((a & 15) << 1) | 0;
    Cut4(a);
    Join1(a & 15, 0);
    ((a << 1) & 0x1E) as int
  }

  function Sixth(u: nat): (r: nat)
    requires u < 256
    ensures r == (u / 4) % 32
  {
    var a := Narrow(u);
    Cut2(a);
    Cut5(a >> 2);
    ((a >> 2) & 0x1F) as int
  }

  function Seventh(u: nat, v: nat): (r: nat)
    requires u < 256 && v < 256
    ensures r == (u % 4) * 8 + v / 32
  {
    SeventhIs(Narrow(u), Narrow(v));
    (((Narrow(u) << 3) & 0x18) | ((Narrow(v) >> 5) & 0x7)) as int
  }

  lemma SeventhIs(a: bv8, b: bv8)
    ensures (((a << 3) & 0x18) | ((b >> 5) & 0x7)) as int == (a as int % 4) * 8 + b as int / 32
  {
    assert (a << 3) & 0x18 == (a & 3) << 3 && (b >> 5) & 0x7 == b >> 5;
    Cut2(a);
    Cut5(b);
    Join3(a & 3, b >> 5);
  }

  function SeventhAlone(u: nat): (r: nat)
    requires u < 256
    ensures r == (u % 4) * 8
  {
    var a := Narrow(u);
    assert (a << 3) & 0x18 == ((a & 3) << 3) | 0;
    Cut2(a);
    Join3(a & 3, 0);
    ((a << 3) & 0x18) as int
  }

  function Eighth(v: nat): (r: nat)
    requires v < 256
    ensures r == v % 32
  {
    Cut5(Narrow(v));
    (Narrow(v) & 0x1F) as int
  }

  // ---- Bytes from symbols ----

  function ByteOne(d: nat, e: nat): (r: nat)
    requires d < 32 && e < 32
    ensures r == d * 8 + e / 4
  {
    var a, b := Narrow(d), Narrow(e);
    Below(a);
    Below(b);
    Cut2(b);
    Join3(a, b >> 2);
    ((a << 3) | (b >> 2)) as int
  }

  function ByteTwo(d: nat, e: nat, g: nat): (r: nat)
    requires d < 32 && e < 32 && g < 32
    ensures r == (d % 4) * 64 + e * 2 + g / 16
  {
    ByteTwoIs(Narrow(d), Narrow(e), Narrow(g));
    ((Narrow(d) << 6) | (Narrow(e) << 1) | (Narrow(g) >> 4)) as int
  }

  lemma ByteTwoIs(a: bv8, b: bv8, c: bv8)
    requires b as int < 32 && c as int < 32
    ensures ((a << 6) | (b << 1) | (c >> 4)) as int == (a as int % 4) * 64 + b as int * 2 + c as int / 16
  {
    Below(b);
    Below(c);
    var low := (b << 1) | (c >> 4);
    assert (a << 6) | (b << 1) | (c >> 4) == ((a & 3) << 6) | low;
    Cut2(a);
    Cut4(c);
    Join1(b, c >> 4);
    Join6(a & 3, low);
  }

  function ByteThree(d: nat, e: nat): (r: nat)
    requires d < 32 && e < 32
    ensures r == (d % 16) * 16 + e / 2
  {
    var a, b := Narrow(d), Narrow(e);
    Below(b);
    assert a << 4 == (a & 15) << 4;
    Cut4(a);
    Cut1(b);
    Join4(a & 15, b >> 1);
    ((a << 4) | (b >> 1)) as int
  }

  function ByteFour(d: nat, e: nat, g: nat): (r: nat)
    requires d < 32 && e < 32 && g < 32
    ensures r == (d % 2) * 128 + e * 4 + g / 8
  {
    ByteFourIs(Narrow(d), Narrow(e), Narrow(g));
    ((Narrow(d) << 7) | (Narrow(e) << 2) | (Narrow(g) >> 3)) as int
  }

  lemma ByteFourIs(a: bv8, b: bv8, c: bv8)
    requires b as int < 32 && c as int < 32
    ensures ((a << 7) | (b << 2) | (c >> 3)) as int == (a as int % 2) * 128 + b as int * 4 + c as int / 8
  {
    Below(b);
    Below(c);
    var low := (b << 2) | (c >> 3);
    assert (a << 7) | (b << 2) | (c >> 3) == ((a & 1) << 7) | low;
    Cut1(a);
    Cut3(c);
    Join2(b, c >> 3);
    Join7(a & 1, low);
  }

  function ByteFive(d: nat, e: nat): (r: nat)
    requires d < 32 && e < 32
    ensures r == (d % 8) * 32 + e
  {
    var a, b := Narrow(d), Narrow(e);
    Below(b);
    assert a << 5 == (a & 7) << 5;
    Cut3(a);
    Join5(a & 7, b);
    ((a << 5) | b) as int
  }
}
