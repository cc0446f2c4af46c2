/**
 The bit operations of the base64 codings of encoding/apr_encode.c.

 Each function is one expression of the source, on bytes; its contract gives the
 number it makes as a quotient, a remainder or a sum of such. The two functions with
 Alone in their names are those for the end of the text, where no byte follows. The
 tables are applied elsewhere.
 */
module Base64Ops {
  import opened BitOps

  // ---- Symbols from bytes ----

  function First(x: nat): (r: nat)
    requires x < 256
    ensures r == x / 4
  {
    var a := Narrow(x);
    assert (a >> 2) & 0x3F == a >> 2;
    Cut2(a);
    ((a >> 2) & 0x3F) as int
  }

  function Second(x: nat, y: nat): (r: nat)
    requires x < 256 && y < 256
    ensures r == (x % 4) * 16 + y / 16
  {
    SecondIs(Narrow(x), Narrow(y));
    (((Narrow(x) & 0x3) << 4) | ((Narrow(y) & 0xF0) >> 4)) as int
  }

  lemma SecondIs(a: bv8, b: bv8)
    ensures (((a & 0x3) << 4) | ((b & 0xF0) >> 4)) as int == (a as int % 4) * 16 + b as int / 16
  {
    assert (b & 0xF0) >> 4 == b >> 4;
    Cut2(a);
    Cut4(b);
    Join4(a & 0x3, b >> 4);
  }

  function SecondAlone(x: nat): (r: nat)
    requires x < 256
    ensures r == (x % 4) * 16
  {
    var a := Narrow(x);
    assert (a & 0x3) << 4 == ((a & 0x3) << 4) | 0;
    Cut2(a);
    Join4(a & 0x3, 0);
    ((a & 0x3) << 4) as int
  }

  function Third(y: nat, z: nat): (r: nat)
    requires y < 256 && z < 256
    ensures r == (y % 16) * 4 + z / 64
  {
    ThirdIs(Narrow(y), Narrow(z));
    (((Narrow(y) & 0xF) << 2) | ((Narrow(z) & 0xC0) >> 6)) as int
  }

  lemma ThirdIs(a: bv8, b: bv8)
    ensures (((a & 0xF) << 2) | ((b & 0xC0) >> 6)) as int == (a as int % 16) * 4 + b as int / 64
  {
    assert (b & 0xC0) >> 6 == b >> 6;
    Cut4(a);
    Cut6(b);
    Join2(a & 0xF, b >> 6);
  }

  function ThirdAlone(y: nat): (r: nat)
    requires y < 256
    ensures r == (y % 16) * 4
  {
    var a := Narrow(y);
    assert (a & 0xF) << 2 == ((a & 0xF) << 2) | 0;
    Cut4(a);
    Join2(a & 0xF, 0);
    ((a & 0xF) << 2) as int
  }

  function Fourth(z: nat): (r: nat)
    requires z < 256
    ensures r == z % 64
  {
    Cut6(Narrow(z));
    (Narrow(z) & 0x3F) as int
  }

  // ---- Bytes from symbols ----

  function FirstByte(d: nat, e: nat): (r: nat)
    requires d < 64 && e < 64
    ensures r == d * 4 + e / 16
  {
    var a, b := Narrow(d), Narrow(e);
    Below(a);
    Below(b);
    Cut4(b);
    Join2(a, b >> 4);
    ((a << 2) | (b >> 4)) as int
  }

  function SecondByte(d: nat, e: nat): (r: nat)
    requires d < 64 && e < 64
    ensures r == (d % 16) * 16 + e / 4
  {
    var a, b := Narrow(d), Narrow(e);
    Below(b);
    assert a << 4 == (a & 0xF) << 4;
    Cut4(a);
    Cut2(b);
    Join4(a & 0xF, b >> 2);
    ((a << 4) | (b >> 2)) as int
  }

  function ThirdByte(d: nat, e: nat): (r: nat)
    requires d < 64 && e < 64
    ensures r == (d % 4) * 64 + e
  {
    var a, b := Narrow(d), Narrow(e);
    Below(b);
    assert a << 6 == (a & 0x3) << 6;
    Cut2(a);
    Join6(a & 0x3, b);
    ((a << 6) | b) as int
  }
}
