/**
 `apr_encode_base64_binary` and `apr_decode_base64_binary` (encoding/apr_encode.c).

 The loops take one group of three bytes or four symbols at a time. What is written
 so far has the bits of what was read so far; the group at the end is filled with
 zeros when it is written, and its unused bits are dropped when it is read.
 */
module Base64 {
  import opened Apr
  import opened Base64Ops
  import opened BitStrings
  import opened EncodeTables

  // ---- One group ----

  /** Three bytes and four symbols with the same bits. */
  lemma GroupBits(x: nat, y: nat, z: nat)
    requires x < 256 && y < 256 && z < 256
    ensures BitString([x, y, z], 8)
            == BitString([x / 4, (x % 4) * 16 + y / 16, (y % 16) * 4 + z / 64, z % 64], 6)
  {
    hide Bits, BitString, Pow2;
    Pow2Small();
    GlueBits(x / 4, x % 4, 6, 2, 4);
    GlueBits(x % 4, y / 16, 2, 4, 16);
    GlueBits(y / 16, y % 16, 4, 4, 16);
    GlueBits(y % 16, z / 64, 4, 2, 4);
    GlueBits(z / 64, z % 64, 2, 6, 64);
    Regroup(Bits(x / 4, 6), Bits(x % 4, 2), Bits(y / 16, 4), Bits(y % 16, 4), Bits(z / 64, 2), Bits(z % 64, 6));
    Four(x / 4, (x % 4) * 16 + y / 16, (y % 16) * 4 + z / 64, z % 64, 6);
    Three(x, y, z, 8);
  }

  lemma Regroup<T>(a: seq<T>, b: seq<T>, c: seq<T>, d: seq<T>, e: seq<T>, f: seq<T>)
    ensures (a + b) + (c + d) + (e + f) == a + (b + c) + (d + e) + f
  {
  }

  /** The two endings. */
  lemma OneByteLeft(x: nat)
    requires x < 256
    ensures Chunks(BitString([x], 8), 6) == [x / 4, (x % 4) * 16]
  {
    Pow2Small();
    GlueBits(x / 4, x % 4, 6, 2, 4);
    Three(x, 0, 0, 8);
    Three(x / 4, 0, 0, 6);
    ChunksAppend([x / 4], Bits(x % 4, 2), 6);
    LastChunk(x % 4, 2, 4, (x % 4) * 16);
  }

  lemma TwoBytesLeft(x: nat, y: nat)
    requires x < 256 && y < 256
    ensures Chunks(BitString([x, y], 8), 6) == [x / 4, (x % 4) * 16 + y / 16, (y % 16) * 4]
  {
    hide Bits, BitString, Chunks, Pow2;
    Pow2Small();
    GlueBits(x / 4, x % 4, 6, 2, 4);
    GlueBits(x % 4, y / 16, 2, 4, 16);
    GlueBits(y / 16, y % 16, 4, 4, 16);
    Three(x, y, 0, 8);
    Three(x / 4, (x % 4) * 16 + y / 16, 0, 6);
    Regroup([], Bits(x / 4, 6), Bits(x % 4, 2), Bits(y / 16, 4), Bits(y % 16, 4), []);
    assert BitString([x, y], 8) == BitString([x / 4, (x % 4) * 16 + y / 16], 6) + Bits(y % 16, 4);
    ChunksAppend([x / 4, (x % 4) * 16 + y / 16], Bits(y % 16, 4), 6);
    LastChunk(y % 16, 4, 2, (y % 16) * 4);
  }

  // ---- Encoding ----

  /** What the size query answers. */
  function EncodeSize(n: nat): nat {
    (n + 2) / 3 * 4 + 1
  }

  /** With `dest` null the call only asks for the size of the buffer. */
  method EncodeBase64Binary(dest: array?<char>, src: Option<seq<Byte>>, f: EncodeFlags)
    returns (status: Status, len: nat)
    requires dest != null && src.Some? ==> dest.Length >= EncodeSize(|src.value|)
    modifies dest
    ensures src.None? ==> status == NotFound && (dest != null ==> dest[..] == old(dest[..]))
    ensures src.Some? ==> status == Success
    ensures src.Some? && dest == null ==> len == (|src.value| + 2) / 3 * 4 + 1
    ensures src.Some? && dest != null ==>
              len < dest.Length && dest[..len] == Encoded(Alphabet64(f), src.value, f) && dest[len] == '\0'
    ensures src.Some? && dest != null && !f.noPadding ==> len == (|src.value| + 2) / 3 * 4
    ensures src.Some? && dest != null ==>
              Spells(dest[..len], ToSymbols(src.value, 6),
                     CAPITALS + SMALL + FIGURES + if f.noPadding || f.url then "-_" else "+/")
  {
    hide BitString, Pow2, Text, Encoded, Fit, Spells, ToSymbols;
    if src.None? { return NotFound, 0; }
    var s := src.value;
    if dest == null { return Success, EncodeSize(|s|); }
    var i, j, done := WriteGroups(dest, s, Alphabet64(f));
    if i < |s| {
      j := WriteTail(dest, j, s, i, f, done);
    } else {
      NoneLeftEncoded(Alphabet64(f), s, f, done);
    }
    len := j;
    dest[j] := '\0';
    status := Success;
    Spells64(s, f);
  }

  /** The loop over the full groups. */
  method WriteGroups(dest: array<char>, s: seq<Byte>, base: Alphabet) returns (i: nat, j: nat, ghost done: seq<nat>)
    requires base.Width() == 6 && dest.Length >= EncodeSize(|s|)
    modifies dest
    ensures i <= |s| < i + 3 && |done| == j && j % 4 == 0
    ensures j + (if i < |s| then 4 else 0) + 1 == EncodeSize(|s|)
    ensures Fit(done, 6) && BitString(done, 6) == BitString(s[..i], 8) && dest[..j] == Text(base, done)
  {
    hide Bits, BitString, Pow2, Letter, Sextets, Text, EncodeSize;
    i, j, done := 0, 0, [];
    ghost var groups := 0;
    NothingDone(s, base);
    GroupsFit(|s|, 0);
    while i < |s| - 2
      invariant 0 <= i <= |s| && i == 3 * groups && j == 4 * groups && |done| == j < dest.Length
      invariant Fit(done, 6) && BitString(done, 6) == BitString(s[..i], 8)
      invariant dest[..j] == Text(base, done)
    {
      ghost var four := Sextets(s[i], s[i + 1], s[i + 2]);
      GroupsFit(|s|, groups);
      WriteGroup(dest, j, s, i, base);
      GroupDone(s, i, done, four);
      TextAppend(base, done, four);
      done := done + four;
      i, j, groups := i + 3, j + 4, groups + 1;
      GroupsFit(|s|, groups);
    }
    GroupsFit(|s|, groups);
  }

  /** The buffer asked for has room for every group, and one more if something is left. */
  lemma GroupsFit(n: nat, groups: nat)
    requires 3 * groups <= n
    ensures (4 * groups) % 4 == 0 && 4 * groups < EncodeSize(n)
    ensures n - 3 * groups >= 3 ==> 4 * groups + 4 < EncodeSize(n)
    ensures n - 3 * groups < 3 ==> 4 * groups + (if 3 * groups < n then 4 else 0) + 1 == EncodeSize(n)
  {
  }

  /** The four symbols of a full group. */
  function Sextets(x: nat, y: nat, z: nat): (r: seq<nat>)
    requires x < 256 && y < 256 && z < 256
    ensures Fit(r, 6)
  {
    Pow2Small();
    [x / 4, (x % 4) * 16 + y / 16, (y % 16) * 4 + z / 64, z % 64]
  }

  method WriteGroup(dest: array<char>, j: nat, s: seq<Byte>, i: nat, base: Alphabet)
    requires j + 4 <= dest.Length && i + 3 <= |s| && base.Width() == 6
    modifies dest
    ensures dest[..j + 4] == old(dest[..j]) + Text(base, Sextets(s[i], s[i + 1], s[i + 2]))
  {
    hide First, Second, Third, Fourth, Letter, Text, Pow2;
    ghost var r := Text(base, Sextets(s[i], s[i + 1], s[i + 2]));
    GroupText(base, s[i], s[i + 1], s[i + 2]);
    hide Sextets;
    ghost var before := dest[..j];
    var next := Put(dest, j, Letter(base, First(s[i])));
    OneMore(before, r, 0);
    next := Put(dest, next, Letter(base, Second(s[i], s[i + 1])));
    OneMore(before, r, 1);
    next := Put(dest, next, Letter(base, Third(s[i + 1], s[i + 2])));
    OneMore(before, r, 2);
    next := Put(dest, next, Letter(base, Fourth(s[i + 2])));
    OneMore(before, r, 3);
  }

  /** The four characters of a group. */
  lemma {:induction false} GroupText(base: Alphabet, x: nat, y: nat, z: nat)
    requires base.Width() == 6 && x < 256 && y < 256 && z < 256
    ensures Pow2(6) == 64
    ensures var r := Text(base, Sextets(x, y, z));
            && |r| == 4 && r[..0] == "" && r[..4] == r
            && r[0] == Letter(base, First(x)) && r[1] == Letter(base, Second(x, y))
            && r[2] == Letter(base, Third(y, z)) && r[3] == Letter(base, Fourth(z))
  {
    hide Letter, First, Second, Third, Fourth;
    Pow2Small();
  }

  /** The last one or two bytes. */
  method WriteTail(dest: array<char>, j0: nat, s: seq<Byte>, i: nat, f: EncodeFlags, ghost done: seq<nat>)
    returns (j: nat)
    requires i < |s| < i + 3 && j0 + 4 <= dest.Length && j0 % 4 == 0
    requires |done| == j0 && Fit(done, 6) && dest[..j0] == Text(Alphabet64(f), done)
    requires BitString(done, 6) == BitString(s[..i], 8)
    modifies dest
    ensures j <= dest.Length && dest[..j] == Encoded(Alphabet64(f), s, f)
    ensures j <= j0 + 4 && (!f.noPadding ==> j == j0 + 4)
  {
    hide Bits, BitString, Pow2, Letter, Text, Encoded, First, Second, SecondAlone, ThirdAlone;
    var base := Alphabet64(f);
    j := j0;
    Pow2Small();
    dest[j] := Letter(base, First(s[i]));
    j := j + 1;
    if i == |s| - 1 {
      OneLeftEncoded(base, s, i, f, done);
      dest[j] := Letter(base, SecondAlone(s[i]));
      j := j + 1;
      if !f.noPadding {
        dest[j] := '=';
        j := j + 1;
      }
    } else {
      TwoLeftEncoded(base, s, i, f, done);
      dest[j] := Letter(base, Second(s[i], s[i + 1]));
      dest[j + 1] := Letter(base, ThirdAlone(s[i + 1]));
      j := j + 2;
    }
    if !f.noPadding {
      dest[j] := '=';
      j := j + 1;
    }
  }

  lemma {:induction false} OneLeftEncoded(base: Alphabet, s: seq<Byte>, i: nat, f: EncodeFlags, done: seq<nat>)
    requires base.Width() == 6 && i + 1 == |s| && |done| % 4 == 0
    requires Fit(done, 6) && BitString(done, 6) == BitString(s[..i], 8)
    ensures First(s[i]) < Pow2(6) && SecondAlone(s[i]) < Pow2(6)
    ensures Encoded(base, s, f) == Text(base, done) + [Letter(base, First(s[i])), Letter(base, SecondAlone(s[i]))]
                                   + (if f.noPadding then "" else "==")
  {
    hide Bits, BitString, Pow2, Letter, First, SecondAlone, ToSymbols, Text, Encoded, Padding;
    Pow2Small();
    var last := [First(s[i]), SecondAlone(s[i])];
    EndOfSymbols(s, i, done);
    EncodedParts(base, s, f, done, last);
    TextOfTwo(base, last);
  }

  lemma {:induction false} TwoLeftEncoded(base: Alphabet, s: seq<Byte>, i: nat, f: EncodeFlags, done: seq<nat>)
    requires base.Width() == 6 && i + 2 == |s| && |done| % 4 == 0
    requires Fit(done, 6) && BitString(done, 6) == BitString(s[..i], 8)
    ensures First(s[i]) < Pow2(6) && Second(s[i], s[i + 1]) < Pow2(6) && ThirdAlone(s[i + 1]) < Pow2(6)
    ensures Encoded(base, s, f) ==
            Text(base, done)
            + [Letter(base, First(s[i])), Letter(base, Second(s[i], s[i + 1])), Letter(base, ThirdAlone(s[i + 1]))]
            + (if f.noPadding then "" else "=")
  {
    hide Bits, BitString, Pow2, Letter, First, Second, ThirdAlone, ToSymbols, Text, Encoded, Padding;
    Pow2Small();
    var last := [First(s[i]), Second(s[i], s[i + 1]), ThirdAlone(s[i + 1])];
    EndOfSymbols(s, i, done);
    EncodedParts(base, s, f, done, last);
    TextOfThree(base, last);
  }

  lemma {:induction false} NoneLeftEncoded(base: Alphabet, s: seq<Byte>, f: EncodeFlags, done: seq<nat>)
    requires base.Width() == 6 && |done| % 4 == 0
    requires Fit(done, 6) && BitString(done, 6) == BitString(s[..|s|], 8)
    ensures Encoded(base, s, f) == Text(base, done)
  {
    hide Bits, BitString, Pow2, ToSymbols, Text, Encoded, Padding;
    EndOfSymbols(s, |s|, done);
    assert done + [] == done;
    EncodedParts(base, s, f, done, []);
    TextOfNone(base);
  }

  /** The expected text, part by part. */
  lemma EncodedParts(base: Alphabet, s: seq<Byte>, f: EncodeFlags, done: seq<nat>, last: seq<nat>)
    requires base.Width() == 6 && |done| % 4 == 0 && |last| < 4
    requires Fit(done, 6) && Fit(last, 6) && ToSymbols(s, 6) == done + last
    ensures Encoded(base, s, f) == Text(base, done) + Text(base, last)
                                   + (if f.noPadding || |last| == 0 then ""
                                      else if |last| == 1 then "===" else if |last| == 2 then "==" else "=")
  {
    hide ToSymbols, Text, Pow2;
    TextAppend(base, done, last);
    var n := |done| + |last|;
    assert n % 4 == |last|;
    assert f.noPadding || Padding(base, n, f) == seq((4 - n % 4) % 4, _ => '=');
  }

  lemma TextOfNone(base: Alphabet)
    ensures Text(base, []) == ""
  {
  }

  lemma TextOfTwo(base: Alphabet, v: seq<nat>)
    requires |v| == 2 && Fit(v, base.Width())
    ensures Text(base, v) == [Letter(base, v[0]), Letter(base, v[1])]
  {
  }

  lemma TextOfThree(base: Alphabet, v: seq<nat>)
    requires |v| == 3 && Fit(v, base.Width())
    ensures Text(base, v) == [Letter(base, v[0]), Letter(base, v[1]), Letter(base, v[2])]
  {
  }

  lemma NothingDone(s: seq<Byte>, base: Alphabet)
    ensures BitString([], 6) == BitString(s[..0], 8) && Fit([], 6) && Text(base, []) == ""
  {
  }

  /** One more group done. */
  lemma {:induction false} GroupDone(s: seq<Byte>, i: nat, done: seq<nat>, four: seq<nat>)
    requires i + 3 <= |s| && Fit(done, 6) && BitString(done, 6) == BitString(s[..i], 8)
    requires four == Sextets(s[i], s[i + 1], s[i + 2])
    ensures Fit(four, 6) && Fit(done + four, 6) && BitString(done + four, 6) == BitString(s[..i + 3], 8)
  {
    hide Bits, BitString, Pow2;
    Pow2Small();
    GroupBits(s[i], s[i + 1], s[i + 2]);
    BitStringAppend(done, four, 6);
    ThreeMore(s, i);
    BitStringAppend(s[..i], [s[i], s[i + 1], s[i + 2]], 8);
  }

  lemma ThreeMore(s: seq<Byte>, i: nat)
    requires i + 3 <= |s|
    ensures s[..i + 3] == s[..i] + [s[i], s[i + 1], s[i + 2]]
  {
  }

  /** What is left after the last full group. */
  lemma EndOfSymbols(s: seq<Byte>, i: nat, done: seq<nat>)
    requires i <= |s| < i + 3 && Fit(done, 6) && BitString(done, 6) == BitString(s[..i], 8)
    ensures var symbols := ToSymbols(s, 6);
            && (i == |s| ==> symbols == done)
            && (i + 1 == |s| ==> symbols == done + [s[i] / 4, (s[i] % 4) * 16])
            && (i + 2 == |s| ==> symbols == done + [s[i] / 4, (s[i] % 4) * 16 + s[i + 1] / 16,
                                                    (s[i + 1] % 16) * 4])
  {
    hide Bits, BitString, Chunks, Pow2, Fit;
    var rest := s[i..];
    assert s == s[..i] + s[i..];
    BitStringAppend(s[..i], rest, 8);
    ChunksAppend(done, BitString(rest, 8), 6);
    if i + 1 == |s| {
      assert rest == [s[i]];
      OneByteLeft(s[i]);
    } else if i + 2 == |s| {
      assert rest == [s[i], s[i + 1]];
      TwoBytesLeft(s[i], s[i + 1]);
    } else {
      assert rest == [];
      NothingLeft();
    }
  }

  lemma NothingLeft()
    ensures Chunks(BitString([], 8), 6) == []
  {
  }

  // ---- Decoding ----

  /** What the size query answers. */
  function DecodeSize(n: nat): nat {
    (n + 3) / 4 * 3
  }

  /** The three bytes of four symbols. */
  function Octets(d: nat, e: nat, g: nat, h: nat): (r: seq<nat>)
    requires d < 64 && e < 64 && g < 64 && h < 64
    ensures |r| == 3 && Fit(r, 8)
  {
    Pow2Small();
    [d * 4 + e / 16, (e % 16) * 16 + g / 4, (g % 4) * 64 + h]
  }

  /** Each byte falls apart into the two parts it was put together from. */
  lemma OctetParts(d: nat, e: nat, g: nat, h: nat)
    requires d < 64 && e < 64 && g < 64 && h < 64
    ensures var r := Octets(d, e, g, h);
            && r[0] / 4 == d && r[0] % 4 == e / 16 && r[1] / 16 == e % 16
            && r[1] % 16 == g / 4 && r[2] / 64 == g % 4 && r[2] % 64 == h
            && r[0] < 256 && r[1] < 256 && r[2] < 256
  {
  }

  lemma OctetBits(d: nat, e: nat, g: nat, h: nat)
    requires d < 64 && e < 64 && g < 64 && h < 64
    ensures BitString([d, e, g, h], 6) == BitString(Octets(d, e, g, h), 8)
  {
    hide BitString, Octets;
    var r := Octets(d, e, g, h);
    OctetParts(d, e, g, h);
    GroupBits(r[0], r[1], r[2]);
    assert (e / 16) * 16 + e % 16 == e && (g / 4) * 4 + g % 4 == g;
    assert r == [r[0], r[1], r[2]];
  }

  /** What two, three or four last symbols give. */
  lemma LastOctets(d: nat, e: nat, g: nat, h: nat)
    requires d < 64 && e < 64 && g < 64 && h < 64
    ensures var r := Octets(d, e, g, h);
            && WholeChunks(BitString([d], 6), 8) == []
            && WholeChunks(BitString([d, e], 6), 8) == [r[0]]
            && WholeChunks(BitString([d, e, g], 6), 8) == [r[0], r[1]]
            && WholeChunks(BitString([d, e, g, h], 6), 8) == r
  {
    hide Bits, BitString, WholeChunks, Pow2;
    Pow2Small();
    var r := Octets(d, e, g, h);
    OctetParts(d, e, g, h);
    Three(d, e, g, 6);
    Three(r[0], r[1], r[2], 8);
    GlueBits(d, e / 16, 6, 2, 4);
    GlueBits(e / 16, e % 16, 2, 4, 16);
    GlueBits(e % 16, g / 4, 4, 4, 16);
    GlueBits(g / 4, g % 4, 4, 2, 4);
    Regroup([], Bits(d, 6), Bits(e / 16, 2), Bits(e % 16, 4), Bits(g / 4, 4), Bits(g % 4, 2));
    assert Bits(d, 6) + (Bits(e / 16, 2) + Bits(e % 16, 4)) == (Bits(d, 6) + Bits(e / 16, 2)) + Bits(e % 16, 4);
    NoWholeChunk(Bits(d, 6));
    NoWholeChunk(Bits(e % 16, 4));
    NoWholeChunk(Bits(g % 4, 2));
    NoWholeChunk([]);
    WholeChunksAppend([r[0]], Bits(e % 16, 4), 8);
    WholeChunksAppend([r[0], r[1]], Bits(g % 4, 2), 8);
    assert BitString([d, e, g], 6) == BitString([r[0], r[1]], 8) + Bits(g % 4, 2);
    OctetBits(d, e, g, h);
    WholeChunksAppend(r, [], 8);
    assert BitString(r, 8) + [] == BitString(r, 8);
  }

  lemma NoWholeChunk(b: seq<bool>)
    requires |b| < 8
    ensures WholeChunks(b, 8) == []
  {
  }

  /** With `dest` null the call only asks for the size of the buffer. `after` is the
      character behind the text, the terminator for a string, and `beyond` the next. */
  method DecodeBase64Binary(dest: array?<Byte>, src: Option<string>, after: char, beyond: char, f: EncodeFlags)
    returns (status: Status, len: nat)
    requires dest != null && src.Some? ==> dest.Length >= DecodeSize(|src.value|)
    modifies dest
    ensures src.None? ==> status == NotFound && (dest != null ==> dest[..] == old(dest[..]))
    ensures src.Some? && dest == null ==> status == Success && len == (|src.value| + 3) / 4 * 3
    ensures src.Some? && dest != null ==>
              && len <= dest.Length && (forall k | len <= k < dest.Length :: dest[k] == old(dest[k]))
              && dest[..len] == ToBytes(LeadingDigits(Base64, src.value), 6)
              && status == (if SymbolRun(Base64, src.value) % 4 != 1
                               && (f.relaxed || ReadToEnd(Base64, src.value, after)) then Success else BadCh)
    ensures src.Some? && dest != null ==>
              ReadFrom64(src.value, LeadingDigits(Base64, src.value),
                         CAPITALS + SMALL + FIGURES + "+/", CAPITALS + SMALL + FIGURES + "-_")
  {
    hide Bits, BitString, Pow2, Digit, OctetsAt, SymbolRun, ReadToEnd, ToBytes, WholeChunks, LeadingDigits, ReadFrom64;
    if src.None? { return NotFound, 0; }
    var t := src.value;
    if dest == null { return Success, DecodeSize(|t|); }
    var nprbytes, count, last := Scan(Base64, t, after, beyond);
    status := if f.relaxed then Success else if count > 0 then BadCh else Success;
    ghost var digits := LeadingDigits(Base64, t);
    var bufin, bufout, done := DecodeGroups(dest, t, nprbytes, digits);
    OneLeft(bufin, nprbytes - bufin);
    nprbytes := nprbytes - bufin;
    if nprbytes == 1 {
      status := BadCh;
    }
    LastDecoded(digits, bufin, done);
    bufout := DecodeGroup(dest, bufout, t, bufin, nprbytes, digits);
    len := bufout;
    LeadingSpells64(t);
  }

  /** The loop over the full groups: it leaves up to four symbols. */
  method DecodeGroups(dest: array<Byte>, t: string, nprbytes0: nat, ghost digits: seq<nat>)
    returns (bufin: nat, bufout: nat, ghost done: seq<nat>)
    requires nprbytes0 == |digits| <= |t| && Fit(digits, 6) && dest.Length >= DecodeSize(|t|)
    requires forall k | 0 <= k < |digits| :: digits[k] == Digit(Base64, t[k])
    modifies dest
    ensures bufin <= nprbytes0 <= bufin + 4 && bufin % 4 == 0 && (nprbytes0 > 0 ==> bufin < nprbytes0)
    ensures bufout + (if nprbytes0 == bufin then 0 else nprbytes0 - bufin - 1) <= dest.Length
    ensures Fit(done, 8) && BitString(done, 8) == BitString(digits[..bufin], 6)
    ensures bufout <= dest.Length && dest[..bufout] == done
    ensures forall k | bufout <= k < dest.Length :: dest[k] == old(dest[k])
  {
    hide Bits, BitString, Pow2, Digit, OctetsAt, DecodeSize;
    var nprbytes := nprbytes0;
    ghost var groups := 0;
    bufin, bufout, done := 0, 0, [];
    Pow2Small();
    NothingDecoded(dest, digits);
    Room(|t|, 0, nprbytes);
    while nprbytes > 4
      invariant bufin == 4 * groups && bufout == 3 * groups && bufin + nprbytes == nprbytes0
      invariant nprbytes0 > 0 ==> nprbytes > 0
      invariant Fit(done, 8) && BitString(done, 8) == BitString(digits[..bufin], 6)
      invariant bufout <= dest.Length && dest[..bufout] == done
      invariant forall k | bufout <= k < dest.Length :: dest[k] == old(dest[k])
    {
      OctetsDone(digits, bufin, done);
      Room(|t|, groups, nprbytes);
      var next := DecodeGroup(dest, bufout, t, bufin, 4, digits);
      done := done + OctetsAt(digits, bufin);
      bufin, bufout, nprbytes, groups := bufin + 4, next, nprbytes - 4, groups + 1;
    }
    assert (4 * groups) % 4 == 0;
    Room(|t|, groups, nprbytes);
  }

  /** The buffer asked for has room for every group. */
  lemma Room(n: nat, groups: nat, rest: nat)
    requires 4 * groups + rest <= n
    ensures rest > 4 ==> 3 * groups + 3 <= DecodeSize(n)
    ensures rest <= 4 ==> 3 * groups + (if rest == 0 then 0 else rest - 1) <= DecodeSize(n)
  {
  }

  lemma OneLeft(read: nat, rest: nat)
    requires read % 4 == 0 && rest <= 4
    ensures (read + rest) % 4 == 1 <==> rest == 1
  {
  }

  lemma NothingDecoded(dest: array<Byte>, digits: seq<nat>)
    ensures dest[..0] == [] && BitString([], 8) == BitString(digits[..0], 6)
  {
  }

  /** The digit at `k`, 0 from `end` on. */
  function DigitAt(digits: seq<nat>, k: nat): (d: nat)
    ensures Fit(digits, 6) ==> d < 64
  {
    Pow2Small();
    if k < |digits| then digits[k] else 0
  }

  /** The bytes of the up to four symbols from `i` on. */
  function OctetsAt(digits: seq<nat>, i: nat): (r: seq<nat>)
    requires Fit(digits, 6)
    ensures |r| == 3 && Fit(r, 8)
  {
    Octets(DigitAt(digits, i), DigitAt(digits, i + 1), DigitAt(digits, i + 2), DigitAt(digits, i + 3))
  }

  lemma OctetsAtAre(digits: seq<nat>, i: nat)
    requires Fit(digits, 6)
    ensures Pow2(6) == 64
    ensures i + 1 < |digits| ==> OctetsAt(digits, i)[0] == digits[i] * 4 + digits[i + 1] / 16
    ensures i + 2 < |digits| ==> OctetsAt(digits, i)[1] == (digits[i + 1] % 16) * 16 + digits[i + 2] / 4
    ensures i + 3 < |digits| ==> OctetsAt(digits, i)[2] == (digits[i + 2] % 4) * 64 + digits[i + 3]
  {
    Pow2Small();
  }

  /** Writes the bytes of the up to four symbols left: one fewer than there are symbols. */
  method DecodeGroup(dest: array<Byte>, bufout0: nat, t: string, bufin: nat, nprbytes: nat, ghost digits: seq<nat>)
    returns (bufout: nat)
    requires nprbytes <= 4 && bufout0 + (if nprbytes == 0 then 0 else nprbytes - 1) <= dest.Length
    requires bufin + nprbytes <= |digits| <= |t| && Fit(digits, 6)
    requires forall k | 0 <= k < |digits| :: digits[k] == Digit(Base64, t[k])
    modifies dest
    ensures bufout == bufout0 + (if nprbytes == 0 then 0 else nprbytes - 1)
    ensures dest[..bufout] == old(dest[..bufout0]) + OctetsAt(digits, bufin)[..bufout - bufout0]
    ensures forall k | bufout <= k < dest.Length :: dest[k] == old(dest[k])
  {
    hide Digit, FirstByte, SecondByte, ThirdByte, OctetsAt, Pow2;
    OctetsAtAre(digits, bufin);
    bufout := bufout0;
    ghost var before, r := dest[..bufout], OctetsAt(digits, bufin);
    assert before + r[..0] == before;
    if nprbytes > 1 {
      bufout := Put(dest, bufout, FirstByte(Digit(Base64, t[bufin]), Digit(Base64, t[bufin + 1])));
      OneMore(before, r, 0);
    }
    if nprbytes > 2 {
      bufout := Put(dest, bufout, SecondByte(Digit(Base64, t[bufin + 1]), Digit(Base64, t[bufin + 2])));
      OneMore(before, r, 1);
    }
    if nprbytes > 3 {
      bufout := Put(dest, bufout, ThirdByte(Digit(Base64, t[bufin + 2]), Digit(Base64, t[bufin + 3])));
      OneMore(before, r, 2);
    }
  }

  /** One more group of four symbols read. */
  lemma OctetsDone(digits: seq<nat>, i: nat, done: seq<nat>)
    requires i + 4 <= |digits| && Fit(digits, 6) && Fit(done, 8) && BitString(done, 8) == BitString(digits[..i], 6)
    ensures var three := OctetsAt(digits, i);
            Fit(done + three, 8) && BitString(done + three, 8) == BitString(digits[..i + 4], 6)
  {
    hide Bits, BitString, Pow2, Octets;
    Pow2Small();
    var four := [digits[i], digits[i + 1], digits[i + 2], digits[i + 3]];
    OctetBits(digits[i], digits[i + 1], digits[i + 2], digits[i + 3]);
    BitStringAppend(done, OctetsAt(digits, i), 8);
    BitStringAppend(digits[..i], four, 6);
    assert digits[..i + 4] == digits[..i] + four;
  }

  /** The bytes of the last symbols. */
  lemma LastDecoded(digits: seq<nat>, i: nat, done: seq<nat>)
    requires i <= |digits| <= i + 4 && Fit(digits, 6) && Fit(done, 8) && BitString(done, 8) == BitString(digits[..i], 6)
    ensures ToBytes(digits, 6) == if |digits| == i then done else done + OctetsAt(digits, i)[..|digits| - i - 1]
  {
    hide Bits, BitString, Pow2, Octets, WholeChunks;
    Pow2Small();
    var m := |digits| - i;
    var rest := digits[i..];
    assert digits == digits[..i] + rest;
    BitStringAppend(digits[..i], rest, 6);
    WholeChunksAppend(done, BitString(rest, 6), 8);
    LastOctets(DigitAt(digits, i), DigitAt(digits, i + 1), DigitAt(digits, i + 2), DigitAt(digits, i + 3));
    if m == 0 { NoBits(6); NoWholeChunk([]); assert rest == []; }
    else if m == 1 { assert rest == [digits[i]]; }
    else if m == 2 { assert rest == [digits[i], digits[i + 1]]; }
    else if m == 3 { assert rest == [digits[i], digits[i + 1], digits[i + 2]]; }
    else { assert rest == [digits[i], digits[i + 1], digits[i + 2], digits[i + 3]]; }
  }
}
