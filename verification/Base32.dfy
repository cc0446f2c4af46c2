/**
 `apr_encode_base32_binary` and `apr_decode_base32_binary` (encoding/apr_encode.c).

 Five bytes make eight symbols. The loops over full groups are methods of their own,
 and so is each ending; all of them are tied to the bit string of the bytes, cut into
 pieces of five bits. The single bit operations are those of Base32Ops, the
 alphabets and tables those of EncodeTables.
 */
module Base32 {
  import opened Apr
  import opened Base32Ops
  import opened BitStrings
  import opened EncodeTables

  // ---- One group ----

  /** The eight symbols of five bytes. */
  function Quintets(x: nat, y: nat, z: nat, u: nat, v: nat): (r: seq<nat>)
    requires x < 256 && y < 256 && z < 256 && u < 256 && v < 256
    ensures |r| == 8 && Fit(r, 5)
  {
    Pow2Small();
    [x / 8, (x % 8) * 4 + y / 64, (y / 2) % 32, (y % 2) * 16 + z / 16,
     (z % 16) * 2 + u / 128, (u / 4) % 32, (u % 4) * 8 + v / 32, v % 32]
  }

  lemma {:induction false} CutSecond(y: nat)
    requires y < 256
    ensures Bits(y, 8) == Bits(y / 64, 2) + (Bits((y / 2) % 32, 5) + Bits(y % 2, 1))
  {
    hide Bits, Pow2;
    Pow2Small();
    GlueBits(y / 64, y % 64, 2, 6, 64);
    GlueBits((y / 2) % 32, y % 2, 5, 1, 2);
    assert ((y / 2) % 32) * 2 + y % 2 == y % 64;
  }

  lemma CutFourth(y: nat)
    requires y < 256
    ensures Bits(y, 8) == Bits(y / 128, 1) + (Bits((y / 4) % 32, 5) + Bits(y % 4, 2))
  {
    hide Bits, Pow2;
    Pow2Small();
    GlueBits(y / 128, y % 128, 1, 7, 128);
    GlueBits((y / 4) % 32, y % 4, 5, 2, 4);
    assert ((y / 4) % 32) * 4 + y % 4 == y % 128;
  }

  lemma EightSymbols(r: seq<nat>, w: nat)
    requires |r| == 8
    ensures BitString(r, w) == Bits(r[0], w) + Bits(r[1], w) + Bits(r[2], w) + Bits(r[3], w)
                               + (Bits(r[4], w) + Bits(r[5], w) + Bits(r[6], w) + Bits(r[7], w))
  {
    hide Bits, BitString;
    Four(r[0], r[1], r[2], r[3], w);
    Four(r[4], r[5], r[6], r[7], w);
    BitStringAppend([r[0], r[1], r[2], r[3]], [r[4], r[5], r[6], r[7]], w);
    assert r == [r[0], r[1], r[2], r[3]] + [r[4], r[5], r[6], r[7]];
  }

  lemma FiveBytes(x: nat, y: nat, z: nat, u: nat, v: nat, w: nat)
    ensures BitString([x, y, z, u, v], w) == Bits(x, w) + (Bits(y, w) + Bits(z, w) + Bits(u, w) + Bits(v, w))
  {
    hide Bits, BitString;
    Four(y, z, u, v, w);
    BitStringCons(x, [y, z, u, v], w);
    assert [x] + [y, z, u, v] == [x, y, z, u, v];
  }

  lemma Regroup<T>(a: seq<T>, b: seq<T>, c: seq<T>, d: seq<T>, e: seq<T>, f: seq<T>, g: seq<T>,
                   h: seq<T>, i: seq<T>, j: seq<T>, k: seq<T>, l: seq<T>)
    ensures (a + b) + ((c + (d + e)) + (f + g) + (h + (i + j)) + (k + l))
            == a + (b + c) + d + (e + f) + ((g + h) + i + (j + k) + l)
  {
  }

  lemma {:induction false} FirstSymbolBits(x: nat, y: nat, z: nat, u: nat, v: nat)
    requires x < 256 && y < 256 && z < 256 && u < 256 && v < 256
    ensures var r := Quintets(x, y, z, u, v);
            && Bits(r[0], 5) == Bits(x / 8, 5) && Bits(r[1], 5) == Bits(x % 8, 3) + Bits(y / 64, 2)
            && Bits(r[2], 5) == Bits((y / 2) % 32, 5) && Bits(r[3], 5) == Bits(y % 2, 1) + Bits(z / 16, 4)
  {
    hide Bits, Pow2;
    Pow2Small();
    GlueBits(x % 8, y / 64, 3, 2, 4);
    GlueBits(y % 2, z / 16, 1, 4, 16);
  }

  lemma {:induction false} LastSymbolBits(x: nat, y: nat, z: nat, u: nat, v: nat)
    requires x < 256 && y < 256 && z < 256 && u < 256 && v < 256
    ensures var r := Quintets(x, y, z, u, v);
            && Bits(r[4], 5) == Bits(z % 16, 4) + Bits(u / 128, 1) && Bits(r[5], 5) == Bits((u / 4) % 32, 5)
            && Bits(r[6], 5) == Bits(u % 4, 2) + Bits(v / 32, 3) && Bits(r[7], 5) == Bits(v % 32, 5)
  {
    hide Bits, Pow2;
    Pow2Small();
    GlueBits(z % 16, u / 128, 4, 1, 2);
    GlueBits(u % 4, v / 32, 2, 3, 8);
  }

  /** Five bytes and eight symbols with the same bits. */
  lemma GroupBits(x: nat, y: nat, z: nat, u: nat, v: nat)
    requires x < 256 && y < 256 && z < 256 && u < 256 && v < 256
    ensures BitString([x, y, z, u, v], 8) == BitString(Quintets(x, y, z, u, v), 5)
  {
    hide Bits, BitString, Pow2, Quintets;
    Pow2Small();
    GlueBits(x / 8, x % 8, 5, 3, 8);
    CutSecond(y);
    GlueBits(z / 16, z % 16, 4, 4, 16);
    CutFourth(u);
    GlueBits(v / 32, v % 32, 3, 5, 32);
    assert (x / 8) * 8 + x % 8 == x && (z / 16) * 16 + z % 16 == z && (v / 32) * 32 + v % 32 == v;
    var r := Quintets(x, y, z, u, v);
    FirstSymbolBits(x, y, z, u, v);
    LastSymbolBits(x, y, z, u, v);
    Regroup(Bits(x / 8, 5), Bits(x % 8, 3), Bits(y / 64, 2), Bits((y / 2) % 32, 5), Bits(y % 2, 1), Bits(z / 16, 4),
            Bits(z % 16, 4), Bits(u / 128, 1), Bits((u / 4) % 32, 5), Bits(u % 4, 2), Bits(v / 32, 3), Bits(v % 32, 5));
    EightSymbols(Quintets(x, y, z, u, v), 5);
    FiveBytes(x, y, z, u, v, 8);
  }

  // ---- Encoding ----

  /** The byte at `k`, 0 behind the end. */
  function ByteAt(s: seq<Byte>, k: nat): Byte {
    if k < |s| then s[k] else 0
  }

  /** The symbols of the up to five bytes from `i` on. */
  function QuintetsAt(s: seq<Byte>, i: nat): (r: seq<nat>)
    ensures |r| == 8 && Fit(r, 5)
  {
    Quintets(ByteAt(s, i), ByteAt(s, i + 1), ByteAt(s, i + 2), ByteAt(s, i + 3), ByteAt(s, i + 4))
  }

  /** How many symbols `n` bytes of a group fill. */
  function SymbolCount(n: nat): nat
    requires n <= 5
  {
    if n == 0 then 0 else if n == 1 then 2 else if n == 2 then 4 else if n == 3 then 5 else if n == 4 then 7 else 8
  }

  lemma {:induction false} ZeroBytes(k: nat)
    ensures BitString(seq(k, _ => 0), 8) == Zeros(8 * k)
    decreases k
  {
    if k > 0 {
      ZeroBytes(k - 1);
      BitsOfZero(8);
      assert seq(k, _ => 0)[1..] == seq(k - 1, _ => 0);
      assert Zeros(8) + Zeros(8 * (k - 1)) == Zeros(8 * k);
    }
  }

  /** The last bytes give the first symbols of a group filled up with zero bytes. */
  lemma {:induction false} LastChunks(rest: seq<Byte>)
    requires |rest| <= 5
    ensures Chunks(BitString(rest, 8), 5) == QuintetsAt(rest, 0)[..SymbolCount(|rest|)]
  {
    hide Bits, BitString, Chunks, Quintets;
    var k := 5 - |rest|;
    var full := rest + seq(k, _ => 0);
    var q := QuintetsAt(rest, 0);
    BitStringAppend(rest, seq(k, _ => 0), 8);
    ZeroBytes(k);
    GroupBits(ByteAt(rest, 0), ByteAt(rest, 1), ByteAt(rest, 2), ByteAt(rest, 3), ByteAt(rest, 4));
    assert full == [ByteAt(rest, 0), ByteAt(rest, 1), ByteAt(rest, 2), ByteAt(rest, 3), ByteAt(rest, 4)];
    ChunksOfBitString(q, 5);
    ChunksPrefix(BitString(rest, 8), 8 * k, 5);
    var c := Chunks(BitString(rest, 8), 5);
    var fill := BitsOfChunks(BitString(rest, 8), 5);
    BitStringLength(rest, 8);
    BitStringLength(c, 5);
    assert |c| == SymbolCount(|rest|);
  }

  /** What is left after the last full group. */
  lemma EndOfSymbols(s: seq<Byte>, i: nat, done: seq<nat>)
    requires i <= |s| <= i + 5 && Fit(done, 5) && BitString(done, 5) == BitString(s[..i], 8)
    ensures ToSymbols(s, 5) == done + QuintetsAt(s, i)[..SymbolCount(|s| - i)]
  {
    hide Bits, BitString, Chunks, Quintets;
    var rest := s[i..];
    assert s == s[..i] + rest;
    BitStringAppend(s[..i], rest, 8);
    ChunksAppend(done, BitString(rest, 8), 5);
    LastChunks(rest);
    assert ByteAt(rest, 0) == ByteAt(s, i) && ByteAt(rest, 1) == ByteAt(s, i + 1) && ByteAt(rest, 2) == ByteAt(s, i + 2)
           && ByteAt(rest, 3) == ByteAt(s, i + 3) && ByteAt(rest, 4) == ByteAt(s, i + 4);
  }

  /** One more full group done. */
  lemma GroupDone(s: seq<Byte>, i: nat, done: seq<nat>)
    requires i + 5 <= |s| && Fit(done, 5) && BitString(done, 5) == BitString(s[..i], 8)
    ensures Fit(done + QuintetsAt(s, i), 5)
    ensures BitString(done + QuintetsAt(s, i), 5) == BitString(s[..i + 5], 8)
  {
    hide Bits, BitString, Quintets;
    GroupBits(s[i], s[i + 1], s[i + 2], s[i + 3], s[i + 4]);
    BitStringAppend(done, QuintetsAt(s, i), 5);
    BitStringAppend(s[..i], [s[i], s[i + 1], s[i + 2], s[i + 3], s[i + 4]], 8);
    assert s[..i + 5] == s[..i] + [s[i], s[i + 1], s[i + 2], s[i + 3], s[i + 4]];
  }

  lemma LastFits(s: seq<Byte>, i: nat, done: seq<nat>)
    requires i <= |s| < i + 5 && Fit(done, 5)
    ensures var n := SymbolCount(|s| - i);
            var last := QuintetsAt(s, i)[..n];
            n < 8 && |last| == n && (n == 0 <==> i == |s|) && Fit(last, 5) && Fit(done + last, 5)
  {
    hide Pow2, QuintetsAt;
  }

  /** The expected text, part by part. */
  lemma {:induction false} EncodedParts(base: Alphabet, s: seq<Byte>, i: nat, f: EncodeFlags, done: seq<nat>)
    requires base.Width() == 5 && |done| % 8 == 0 && i <= |s| < i + 5
    requires Fit(done, 5) && BitString(done, 5) == BitString(s[..i], 8)
    ensures var n := SymbolCount(|s| - i);
            var last := QuintetsAt(s, i)[..n];
            && Fit(last, 5) && (n == 0 <==> i == |s|)
            && Encoded(base, s, f) == Text(base, done) + Text(base, last)
                                      + (if f.noPadding || n == 0 then "" else Pads(8 - n))
  {
    var n := SymbolCount(|s| - i);
    var last := QuintetsAt(s, i)[..n];
    hide *;
    LastFits(s, i, done);
    EndOfSymbols(s, i, done);
    TextAppend(base, done, last);
    EncodedIs(base, s, f, done + last);
    PaddingIs(base, |done|, n, f);
  }

  lemma EncodedIs(base: Alphabet, s: seq<Byte>, f: EncodeFlags, all: seq<nat>)
    requires base.Width() == 5 && ToSymbols(s, 5) == all && Fit(all, 5)
    ensures Encoded(base, s, f) == Text(base, all) + Padding(base, |all|, f)
  {
    hide ToSymbols, Text, Pow2, Padding;
  }

  function Pads(k: nat): string {
    seq(k, _ => '=')
  }

  lemma PaddingIs(base: Alphabet, m: nat, n: nat, f: EncodeFlags)
    requires base.Width() == 5 && m % 8 == 0 && n < 8
    ensures Padding(base, m + n, f) == if f.noPadding || n == 0 then "" else Pads(8 - n)
  {
    assert (m + n) % 8 == n;
  }

  lemma NothingDone(s: seq<Byte>, base: Alphabet)
    ensures BitString([], 5) == BitString(s[..0], 8) && Fit([], 5) && Text(base, []) == ""
  {
  }

  /** What the size query answers. */
  function EncodeSize(n: nat): nat {
    (n + 4) / 5 * 8 + 1
  }

  /** With `dest` null the call only asks for the size of the buffer. */
  method EncodeBase32Binary(dest: array?<char>, src: Option<seq<Byte>>, f: EncodeFlags)
    returns (status: Status, len: nat)
    requires dest != null && src.Some? ==> dest.Length >= EncodeSize(|src.value|)
    modifies dest
    ensures src.None? ==> status == NotFound && (dest != null ==> dest[..] == old(dest[..]))
    ensures src.Some? ==> status == Success
    ensures src.Some? && dest == null ==> len == (|src.value| + 4) / 5 * 8 + 1
    ensures src.Some? && dest != null ==>
              len < dest.Length && dest[..len] == Encoded(Alphabet32(f), src.value, f) && dest[len] == '\0'
    ensures src.Some? && dest != null && !f.noPadding ==> len == (|src.value| + 4) / 5 * 8
    ensures src.Some? && dest != null ==>
              Spells(dest[..len], ToSymbols(src.value, 5),
                     if f.base32Hex then FIGURES + "ABCDEFGHIJKLMNOPQRSTUV" else CAPITALS + "234567")
  {
    hide BitString, Pow2, QuintetsAt, Text, Encoded, SymbolCount, Fit, Spells, ToSymbols;
    if src.None? { return NotFound, 0; }
    var s := src.value;
    if dest == null { return Success, EncodeSize(|s|); }
    var i, j, done := WriteGroups(dest, s, Alphabet32(f));
    EncodedParts(Alphabet32(f), s, i, f, done);
    if i < |s| {
      j := WriteTail(dest, j, s, i, f);
    } else {
      NoTail(s, i, Alphabet32(f));
    }
    len := j;
    dest[j] := '\0';
    status := Success;
    Spells32(s, f);
  }

  lemma NoTail(s: seq<Byte>, i: nat, base: Alphabet)
    requires i == |s|
    ensures SymbolCount(0) == 0 && QuintetsAt(s, i)[..0] == [] && Fit([], 5) && Text(base, []) == ""
  {
  }

  /** The loop over the full groups. */
  method WriteGroups(dest: array<char>, s: seq<Byte>, base: Alphabet) returns (i: nat, j: nat, ghost done: seq<nat>)
    requires base.Width() == 5 && dest.Length >= EncodeSize(|s|)
    modifies dest
    ensures i <= |s| < i + 5 && |done| == j && j % 8 == 0
    ensures j + (if i < |s| then 8 else 0) + 1 == EncodeSize(|s|)
    ensures Fit(done, 5) && BitString(done, 5) == BitString(s[..i], 8) && dest[..j] == Text(base, done)
  {
    hide Bits, BitString, Pow2, Letter, QuintetsAt, Text, EncodeSize;
    i, j, done := 0, 0, [];
    ghost var groups := 0;
    NothingDone(s, base);
    GroupsFit(|s|, 0);
    while i < |s| - 4
      invariant 0 <= i <= |s| && i == 5 * groups && j == 8 * groups && |done| == j < dest.Length
      invariant Fit(done, 5) && BitString(done, 5) == BitString(s[..i], 8)
      invariant dest[..j] == Text(base, done)
    {
      GroupsFit(|s|, groups);
      WriteGroup(dest, j, s, i, base);
      GroupDone(s, i, done);
      TextAppend(base, done, QuintetsAt(s, i));
      done := done + QuintetsAt(s, i);
      i, j, groups := i + 5, j + 8, groups + 1;
      GroupsFit(|s|, groups);
    }
    GroupsFit(|s|, groups);
  }

  /** The buffer asked for has room for every group, and one more if something is left. */
  lemma GroupsFit(n: nat, groups: nat)
    requires 5 * groups <= n
    ensures (8 * groups) % 8 == 0 && 8 * groups < EncodeSize(n)
    ensures n - 5 * groups >= 5 ==> 8 * groups + 8 < EncodeSize(n)
    ensures n - 5 * groups < 5 ==> 8 * groups + (if 5 * groups < n then 8 else 0) + 1 == EncodeSize(n)
  {
  }

  /** The symbols the statements write are those of the group. */
  lemma QuintetsAtAre(s: seq<Byte>, i: nat)
    requires i < |s|
    ensures var q := QuintetsAt(s, i);
            && q[0] == First(s[i])
            && (i + 1 == |s| ==> q[1] == SecondAlone(s[i]))
            && (i + 1 < |s| ==> q[1] == Second(s[i], s[i + 1]) && q[2] == Third(s[i + 1]))
            && (i + 2 == |s| ==> q[3] == FourthAlone(s[i + 1]))
            && (i + 2 < |s| ==> q[3] == Fourth(s[i + 1], s[i + 2]))
            && (i + 3 == |s| ==> q[4] == FifthAlone(s[i + 2]))
            && (i + 3 < |s| ==> q[4] == Fifth(s[i + 2], s[i + 3]) && q[5] == Sixth(s[i + 3]))
            && (i + 4 == |s| ==> q[6] == SeventhAlone(s[i + 3]))
            && (i + 4 < |s| ==> q[6] == Seventh(s[i + 3], s[i + 4]) && q[7] == Eighth(s[i + 4]))
  {
    hide Quintets, First, Second, Third, Fourth, Fifth, Sixth, Seventh, Eighth;
    hide SecondAlone, FourthAlone, FifthAlone, SeventhAlone;
    var y, z, u, v := ByteAt(s, i + 1), ByteAt(s, i + 2), ByteAt(s, i + 3), ByteAt(s, i + 4);
    QuintetsAre(s[i], y, z, u, v);
    AloneIs(s[i], y, z, u);
  }

  lemma QuintetsAre(x: nat, y: nat, z: nat, u: nat, v: nat)
    requires x < 256 && y < 256 && z < 256 && u < 256 && v < 256
    ensures Quintets(x, y, z, u, v)
            == [First(x), Second(x, y), Third(y), Fourth(y, z), Fifth(z, u), Sixth(u), Seventh(u, v), Eighth(v)]
  {
    hide First, Second, Third, Fourth, Fifth, Sixth, Seventh, Eighth;
  }

  /** A symbol without a byte behind it is as if that byte were 0. */
  lemma AloneIs(x: nat, y: nat, z: nat, u: nat)
    requires x < 256 && y < 256 && z < 256 && u < 256
    ensures SecondAlone(x) == Second(x, 0) && FourthAlone(y) == Fourth(y, 0)
    ensures FifthAlone(z) == Fifth(z, 0) && SeventhAlone(u) == Seventh(u, 0)
  {
    hide Second, Fourth, Fifth, Seventh, SecondAlone, FourthAlone, FifthAlone, SeventhAlone;
  }

  method WriteGroup(dest: array<char>, j: nat, s: seq<Byte>, i: nat, base: Alphabet)
    requires j + 8 <= dest.Length && i + 5 <= |s| && base.Width() == 5
    modifies dest
    ensures dest[..j + 8] == old(dest[..j]) + Text(base, QuintetsAt(s, i))
  {
    hide First, Second, Third, Fourth, Fifth, Sixth, Seventh, Eighth, Letter, Text, QuintetsAt, Pow2;
    ghost var r := Text(base, QuintetsAt(s, i));
    GroupText(base, s, i);
    ghost var before := dest[..j];
    PutFour(dest, j, Letter(base, First(s[i])), Letter(base, Second(s[i], s[i + 1])),
            Letter(base, Third(s[i + 1])), Letter(base, Fourth(s[i + 1], s[i + 2])));
    PutFour(dest, j + 4, Letter(base, Fifth(s[i + 2], s[i + 3])), Letter(base, Sixth(s[i + 3])),
            Letter(base, Seventh(s[i + 3], s[i + 4])), Letter(base, Eighth(s[i + 4])));
    assert r == [r[0], r[1], r[2], r[3]] + [r[4], r[5], r[6], r[7]];
  }

  /** Four characters, one after the other. */
  method PutFour(dest: array<char>, j: nat, a: char, b: char, c: char, d: char)
    requires j + 4 <= dest.Length
    modifies dest
    ensures dest[..j + 4] == old(dest[..j]) + [a, b, c, d]
  {
    var next := Put(dest, j, a);
    next := Put(dest, next, b);
    next := Put(dest, next, c);
    next := Put(dest, next, d);
  }

  /** The eight characters of a group. */
  lemma GroupText(base: Alphabet, s: seq<Byte>, i: nat)
    requires i + 5 <= |s| && base.Width() == 5
    ensures Pow2(5) == 32
    ensures var r := Text(base, QuintetsAt(s, i));
            && |r| == 8 && r[..0] == "" && r[..8] == r
            && r[0] == Letter(base, First(s[i])) && r[1] == Letter(base, Second(s[i], s[i + 1]))
            && r[2] == Letter(base, Third(s[i + 1])) && r[3] == Letter(base, Fourth(s[i + 1], s[i + 2]))
            && r[4] == Letter(base, Fifth(s[i + 2], s[i + 3])) && r[5] == Letter(base, Sixth(s[i + 3]))
            && r[6] == Letter(base, Seventh(s[i + 3], s[i + 4])) && r[7] == Letter(base, Eighth(s[i + 4]))
  {
    hide Letter, First, Second, Third, Fourth, Fifth, Sixth, Seventh, Eighth, Quintets;
    Pow2Small();
    QuintetsAre(s[i], s[i + 1], s[i + 2], s[i + 3], s[i + 4]);
  }

  /** `n` times `=`. */
  method WritePadding(dest: array<char>, j0: nat, n: nat) returns (j: nat)
    requires j0 + n <= dest.Length
    modifies dest
    ensures j == j0 + n && dest[..j] == old(dest[..j0]) + seq(n, _ => '=')
  {
    for k := 0 to n
      invariant dest[..j0] == old(dest[..j0]) && forall m | j0 <= m < j0 + k :: dest[m] == '='
    {
      dest[j0 + k] := '=';
    }
    j := j0 + n;
  }

  /** The symbols of the last one to four bytes. */
  method WriteLast(dest: array<char>, j0: nat, s: seq<Byte>, i: nat, base: Alphabet) returns (j: nat)
    requires i < |s| < i + 5 && j0 + 8 <= dest.Length && base.Width() == 5
    modifies dest
    ensures j == j0 + SymbolCount(|s| - i) && dest[..j0] == old(dest[..j0]) && Pow2(5) == 32
    ensures forall k | 0 <= k < SymbolCount(|s| - i) :: dest[j0 + k] == Letter(base, QuintetsAt(s, i)[k])
  {
    hide Letter, First, Second, Third, Fourth, Fifth, Sixth, QuintetsAt;
    hide SecondAlone, FourthAlone, FifthAlone, SeventhAlone;
    Pow2Small();
    QuintetsAtAre(s, i);
    dest[j0] := Letter(base, First(s[i]));
    if i == |s| - 1 {
      dest[j0 + 1] := Letter(base, SecondAlone(s[i]));
      return j0 + 2;
    }
    dest[j0 + 1] := Letter(base, Second(s[i], s[i + 1]));
    dest[j0 + 2] := Letter(base, Third(s[i + 1]));
    if i == |s| - 2 {
      dest[j0 + 3] := Letter(base, FourthAlone(s[i + 1]));
      return j0 + 4;
    }
    dest[j0 + 3] := Letter(base, Fourth(s[i + 1], s[i + 2]));
    if i == |s| - 3 {
      dest[j0 + 4] := Letter(base, FifthAlone(s[i + 2]));
      return j0 + 5;
    }
    dest[j0 + 4] := Letter(base, Fifth(s[i + 2], s[i + 3]));
    dest[j0 + 5] := Letter(base, Sixth(s[i + 3]));
    dest[j0 + 6] := Letter(base, SeventhAlone(s[i + 3]));
    return j0 + 7;
  }

  /** The last one to four bytes, and the padding. */
  method WriteTail(dest: array<char>, j0: nat, s: seq<Byte>, i: nat, f: EncodeFlags) returns (j: nat)
    requires i < |s| < i + 5 && j0 + 8 <= dest.Length
    modifies dest
    ensures var n := SymbolCount(|s| - i);
            && Fit(QuintetsAt(s, i)[..n], 5) && j <= j0 + 8 && j == j0 + (if f.noPadding then n else 8)
            && dest[..j] == old(dest[..j0]) + Text(Alphabet32(f), QuintetsAt(s, i)[..n])
                            + (if f.noPadding then "" else Pads(8 - n))
  {
    hide Letter, QuintetsAt, Pow2;
    j := WriteLast(dest, j0, s, i, Alphabet32(f));
    assert dest[..j] == old(dest[..j0]) + Text(Alphabet32(f), QuintetsAt(s, i)[..SymbolCount(|s| - i)]);
    if !f.noPadding {
      j := WritePadding(dest, j, j0 + 8 - j);
    }
  }

  // ---- Decoding ----

  /** What the size query answers. */
  function DecodeSize(n: nat): nat {
    (n + 7) / 8 * 5
  }

  /** The five bytes of eight symbols. */
  function Octets(d: nat, e: nat, g: nat, h: nat, k: nat, l: nat, m: nat, n: nat): (r: seq<nat>)
    requires d < 32 && e < 32 && g < 32 && h < 32 && k < 32 && l < 32 && m < 32 && n < 32
    ensures |r| == 5 && Fit(r, 8)
  {
    Pow2Small();
    [d * 8 + e / 4, (e % 4) * 64 + g * 2 + h / 16, (h % 16) * 16 + k / 2, (k % 2) * 128 + l * 4 + m / 8,
     (m % 8) * 32 + n]
  }

  /** Each byte falls apart into the parts it was put together from. */
  lemma OctetParts(d: nat, e: nat, g: nat, h: nat, k: nat, l: nat, m: nat, n: nat)
    requires d < 32 && e < 32 && g < 32 && h < 32 && k < 32 && l < 32 && m < 32 && n < 32
    ensures var r := Octets(d, e, g, h, k, l, m, n);
            && r[0] < 256 && r[1] < 256 && r[2] < 256 && r[3] < 256 && r[4] < 256
            && Quintets(r[0], r[1], r[2], r[3], r[4]) == [d, e, g, h, k, l, m, n]
  {
    hide Quintets, Octets;
    var r := Octets(d, e, g, h, k, l, m, n);
    OctetsSpelled(d, e, g, h, k, l, m, n);
    FirstParts(d, e, r[0]);
    SecondParts(e, g, h, r[1]);
    ThirdParts(h, k, r[2]);
    FourthParts(k, l, m, r[3]);
    FifthParts(m, n, r[4]);
    QuintetsSpelled(r[0], r[1], r[2], r[3], r[4]);
    assert (e / 4) * 4 + e % 4 == e && (h / 16) * 16 + h % 16 == h;
    assert (k / 2) * 2 + k % 2 == k && (m / 8) * 8 + m % 8 == m;
  }

  lemma OctetsSpelled(d: nat, e: nat, g: nat, h: nat, k: nat, l: nat, m: nat, n: nat)
    requires d < 32 && e < 32 && g < 32 && h < 32 && k < 32 && l < 32 && m < 32 && n < 32
    ensures var r := Octets(d, e, g, h, k, l, m, n);
            && r[0] == d * 8 + e / 4 && r[1] == (e % 4) * 64 + g * 2 + h / 16 && r[2] == (h % 16) * 16 + k / 2
            && r[3] == (k % 2) * 128 + l * 4 + m / 8 && r[4] == (m % 8) * 32 + n
  {
  }

  lemma QuintetsSpelled(x: nat, y: nat, z: nat, u: nat, v: nat)
    requires x < 256 && y < 256 && z < 256 && u < 256 && v < 256
    ensures Quintets(x, y, z, u, v)
            == [x / 8, (x % 8) * 4 + y / 64, (y / 2) % 32, (y % 2) * 16 + z / 16,
                (z % 16) * 2 + u / 128, (u / 4) % 32, (u % 4) * 8 + v / 32, v % 32]
  {
  }

  lemma FirstParts(d: nat, e: nat, a: nat)
    requires d < 32 && e < 32 && a == d * 8 + e / 4
    ensures a / 8 == d && a % 8 == e / 4 && a < 256
  {
  }

  lemma SecondParts(e: nat, g: nat, h: nat, b: nat)
    requires e < 32 && g < 32 && h < 32 && b == (e % 4) * 64 + g * 2 + h / 16
    ensures b / 64 == e % 4 && (b / 2) % 32 == g && b % 2 == h / 16 && b < 256
  {
    var t := h / 16;
    assert t < 2;
    assert b / 2 == (e % 4) * 32 + g;
  }

  lemma ThirdParts(h: nat, k: nat, c: nat)
    requires h < 32 && k < 32 && c == (h % 16) * 16 + k / 2
    ensures c / 16 == h % 16 && c % 16 == k / 2 && c < 256
  {
  }

  lemma FourthParts(k: nat, l: nat, m: nat, a: nat)
    requires k < 32 && l < 32 && m < 32 && a == (k % 2) * 128 + l * 4 + m / 8
    ensures a / 128 == k % 2 && (a / 4) % 32 == l && a % 4 == m / 8 && a < 256
  {
    assert a / 4 == (k % 2) * 32 + l;
  }

  lemma FifthParts(m: nat, n: nat, b: nat)
    requires m < 32 && n < 32 && b == (m % 8) * 32 + n
    ensures b / 32 == m % 8 && b % 32 == n && b < 256
  {
  }

  function DigitAt(digits: seq<nat>, k: nat): (d: nat)
    ensures Fit(digits, 5) ==> d < 32
  {
    Pow2Small();
    if k < |digits| then digits[k] else 0
  }

  /** The bytes of the up to eight symbols from `i` on. */
  function OctetsAt(digits: seq<nat>, i: nat): (r: seq<nat>)
    requires Fit(digits, 5)
    ensures |r| == 5 && Fit(r, 8)
  {
    Octets(DigitAt(digits, i), DigitAt(digits, i + 1), DigitAt(digits, i + 2), DigitAt(digits, i + 3),
           DigitAt(digits, i + 4), DigitAt(digits, i + 5), DigitAt(digits, i + 6), DigitAt(digits, i + 7))
  }

  function EightAt(digits: seq<nat>, i: nat): seq<nat> {
    [DigitAt(digits, i), DigitAt(digits, i + 1), DigitAt(digits, i + 2), DigitAt(digits, i + 3),
     DigitAt(digits, i + 4), DigitAt(digits, i + 5), DigitAt(digits, i + 6), DigitAt(digits, i + 7)]
  }

  lemma OctetBits(digits: seq<nat>, i: nat)
    requires Fit(digits, 5)
    ensures BitString(EightAt(digits, i), 5) == BitString(OctetsAt(digits, i), 8)
  {
    hide BitString, Quintets, Octets;
    var r := OctetsAt(digits, i);
    OctetParts(DigitAt(digits, i), DigitAt(digits, i + 1), DigitAt(digits, i + 2), DigitAt(digits, i + 3),
               DigitAt(digits, i + 4), DigitAt(digits, i + 5), DigitAt(digits, i + 6), DigitAt(digits, i + 7));
    GroupBits(r[0], r[1], r[2], r[3], r[4]);
    assert r == [r[0], r[1], r[2], r[3], r[4]];
  }

  /** How many bytes `n` symbols of a group make. */
  function ByteCount(n: nat): nat
    requires n <= 8
  {
    if n < 2 then 0 else if n < 4 then 1 else if n < 5 then 2 else if n < 7 then 3 else if n < 8 then 4 else 5
  }

  /** The last symbols give the first bytes of a group filled up with zeros. */
  lemma {:induction false} LastOctets(rest: seq<nat>)
    requires |rest| <= 8 && Fit(rest, 5)
    ensures WholeChunks(BitString(rest, 5), 8) == OctetsAt(rest, 0)[..ByteCount(|rest|)]
  {
    hide Bits, BitString, WholeChunks, Octets, OctetsAt, EightAt;
    var more := seq(8 - |rest|, _ => 0);
    var r := OctetsAt(rest, 0);
    BitStringAppend(rest, more, 5);
    OctetBits(rest, 0);
    FilledUp(rest);
    WholeChunksOfBitString(r, 8, []);
    assert BitString(r, 8) + [] == BitString(r, 8);
    WholeChunksPrefix(BitString(rest, 5), BitString(more, 5), 8);
    var c := WholeChunks(BitString(rest, 5), 8);
    BitsOfWholeChunks(BitString(rest, 5), 8);
    BitStringLength(rest, 5);
    BitStringLength(c, 8);
    assert |c| == ByteCount(|rest|);
  }

  lemma FilledUp(rest: seq<nat>)
    requires |rest| <= 8
    ensures rest + seq(8 - |rest|, _ => 0) == EightAt(rest, 0)
  {
  }

  lemma LastDecoded(digits: seq<nat>, i: nat, done: seq<nat>)
    requires i <= |digits| <= i + 8 && Fit(digits, 5) && Fit(done, 8) && BitString(done, 8) == BitString(digits[..i], 5)
    ensures ToBytes(digits, 5) == done + OctetsAt(digits, i)[..ByteCount(|digits| - i)]
  {
    hide Bits, BitString, WholeChunks, Octets;
    var rest := digits[i..];
    assert digits == digits[..i] + rest;
    BitStringAppend(digits[..i], rest, 5);
    WholeChunksAppend(done, BitString(rest, 5), 8);
    LastOctets(rest);
    assert EightAt(rest, 0) == EightAt(digits, i);
    assert OctetsAt(rest, 0) == OctetsAt(digits, i) by { SameOctets(rest, digits, i); }
  }

  lemma SameOctets(rest: seq<nat>, digits: seq<nat>, i: nat)
    requires Fit(digits, 5) && Fit(rest, 5) && EightAt(rest, 0) == EightAt(digits, i)
    ensures OctetsAt(rest, 0) == OctetsAt(digits, i)
  {
    hide Octets, DigitAt;
    var a, b := EightAt(rest, 0), EightAt(digits, i);
    assert a[0] == b[0] && a[1] == b[1] && a[2] == b[2] && a[3] == b[3];
    assert a[4] == b[4] && a[5] == b[5] && a[6] == b[6] && a[7] == b[7];
  }

  lemma OctetsDone(digits: seq<nat>, i: nat, done: seq<nat>)
    requires i + 8 <= |digits| && Fit(digits, 5) && Fit(done, 8) && BitString(done, 8) == BitString(digits[..i], 5)
    ensures var five := OctetsAt(digits, i);
            Fit(done + five, 8) && BitString(done + five, 8) == BitString(digits[..i + 8], 5)
  {
    hide Bits, BitString, Octets;
    OctetBits(digits, i);
    BitStringAppend(done, OctetsAt(digits, i), 8);
    BitStringAppend(digits[..i], EightAt(digits, i), 5);
    assert digits[..i + 8] == digits[..i] + EightAt(digits, i);
  }

  /** The bytes the statements write are those of the group. */
  lemma OctetsAtAre(digits: seq<nat>, i: nat)
    requires Fit(digits, 5)
    ensures forall k | 0 <= k < |digits| :: digits[k] < 32
    ensures var r := OctetsAt(digits, i);
            && (i + 1 < |digits| ==> r[0] == ByteOne(digits[i], digits[i + 1]))
            && (i + 3 < |digits| ==> r[1] == ByteTwo(digits[i + 1], digits[i + 2], digits[i + 3]))
            && (i + 4 < |digits| ==> r[2] == ByteThree(digits[i + 3], digits[i + 4]))
            && (i + 6 < |digits| ==> r[3] == ByteFour(digits[i + 4], digits[i + 5], digits[i + 6]))
            && (i + 7 < |digits| ==> r[4] == ByteFive(digits[i + 6], digits[i + 7]))
  {
    hide ByteOne, ByteTwo, ByteThree, ByteFour, ByteFive, Octets, Pow2;
    Pow2Small();
    OctetsAre(DigitAt(digits, i), DigitAt(digits, i + 1), DigitAt(digits, i + 2), DigitAt(digits, i + 3),
              DigitAt(digits, i + 4), DigitAt(digits, i + 5), DigitAt(digits, i + 6), DigitAt(digits, i + 7));
  }

  lemma OctetsAre(d: nat, e: nat, g: nat, h: nat, k: nat, l: nat, m: nat, n: nat)
    requires d < 32 && e < 32 && g < 32 && h < 32 && k < 32 && l < 32 && m < 32 && n < 32
    ensures var r := Octets(d, e, g, h, k, l, m, n);
            && r[0] == ByteOne(d, e) && r[1] == ByteTwo(e, g, h)
            && r[2] == ByteThree(h, k) && r[3] == ByteFour(k, l, m)
            && r[4] == ByteFive(m, n)
  {
    hide ByteOne, ByteTwo, ByteThree, ByteFour, ByteFive, Octets;
    OctetsSpelled(d, e, g, h, k, l, m, n);
  }

  /** Writes the bytes of the up to eight symbols left. */
  method DecodeGroup(dest: array<Byte>, bufout0: nat, t: string, bufin: nat, nprbytes: nat, a: Alphabet,
                     ghost digits: seq<nat>)
    returns (bufout: nat)
    requires nprbytes <= 8 && bufout0 + ByteCount(nprbytes) <= dest.Length
    requires bufin + nprbytes <= |digits| <= |t| && Fit(digits, 5)
    requires forall k | 0 <= k < |digits| :: digits[k] == Digit(a, t[k])
    modifies dest
    ensures bufout == bufout0 + ByteCount(nprbytes)
    ensures dest[..bufout] == old(dest[..bufout0]) + OctetsAt(digits, bufin)[..bufout - bufout0]
    ensures forall k | bufout <= k < dest.Length :: dest[k] == old(dest[k])
  {
    hide Digit, ByteOne, ByteTwo, ByteThree, ByteFour, ByteFive, OctetsAt, Fit;
    OctetsAtAre(digits, bufin);
    bufout := bufout0;
    ghost var before, r := dest[..bufout], OctetsAt(digits, bufin);
    assert before + r[..0] == before;
    if nprbytes >= 2 {
      bufout := Put(dest, bufout, ByteOne(Digit(a, t[bufin]), Digit(a, t[bufin + 1])));
      OneMore(before, r, 0);
    }
    if nprbytes >= 4 {
      bufout := Put(dest, bufout, ByteTwo(Digit(a, t[bufin + 1]), Digit(a, t[bufin + 2]), Digit(a, t[bufin + 3])));
      OneMore(before, r, 1);
    }
    if nprbytes >= 5 {
      bufout := Put(dest, bufout, ByteThree(Digit(a, t[bufin + 3]), Digit(a, t[bufin + 4])));
      OneMore(before, r, 2);
    }
    if nprbytes >= 7 {
      bufout := Put(dest, bufout, ByteFour(Digit(a, t[bufin + 4]), Digit(a, t[bufin + 5]), Digit(a, t[bufin + 6])));
      OneMore(before, r, 3);
    }
    if nprbytes == 8 {
      bufout := Put(dest, bufout, ByteFive(Digit(a, t[bufin + 6]), Digit(a, t[bufin + 7])));
      OneMore(before, r, 4);
    }
  }

  /** Symbol counts that cannot come from whole bytes. */
  predicate OddLength(n: nat) {
    n % 8 == 1 || n % 8 == 3 || n % 8 == 6
  }

  /** With `dest` null the call only asks for the size of the buffer. `after` is the
      character behind the text, the terminator for a string, and `beyond` the next. */
  method DecodeBase32Binary(dest: array?<Byte>, src: Option<string>, after: char, beyond: char, f: EncodeFlags)
    returns (status: Status, len: nat)
    requires dest != null && src.Some? ==> dest.Length >= DecodeSize(|src.value|)
    modifies dest
    ensures src.None? ==> status == NotFound && (dest != null ==> dest[..] == old(dest[..]))
    ensures src.Some? && dest == null ==> status == Success && len == (|src.value| + 7) / 8 * 5
    ensures src.Some? && dest != null ==>
              && len <= dest.Length && (forall k | len <= k < dest.Length :: dest[k] == old(dest[k]))
              && dest[..len] == ToBytes(LeadingDigits(Alphabet32(f), src.value), 5)
              && var n := SymbolRun(Alphabet32(f), src.value);
                 status == (if n % 8 != 1 && n % 8 != 3 && n % 8 != 6
                               && (f.relaxed || ReadToEnd(Alphabet32(f), src.value, after)) then Success else BadCh)
    ensures src.Some? && dest != null ==>
              ReadFrom32(src.value, LeadingDigits(Alphabet32(f), src.value),
                         if f.base32Hex then FIGURES + "ABCDEFGHIJKLMNOPQRSTUV" else CAPITALS + "234567")
  {
    hide Bits, BitString, Pow2, Digit, OctetsAt, SymbolRun, ReadToEnd, ToBytes, LeadingDigits, ReadFrom32;
    if src.None? { return NotFound, 0; }
    var t := src.value;
    if dest == null { return Success, DecodeSize(|t|); }
    var a := Alphabet32(f);
    var nprbytes, count, last := Scan(a, t, after, beyond);
    status := if f.relaxed then Success else if count > 0 then BadCh else Success;
    ghost var digits := LeadingDigits(a, t);
    var bufin, bufout, done := DecodeGroups(dest, t, nprbytes, a, digits);
    WholeGroupsDoNotMatter(bufin, nprbytes - bufin);
    nprbytes := nprbytes - bufin;
    if nprbytes == 1 || nprbytes == 3 || nprbytes == 6 {
      status := BadCh;
    }
    LastDecoded(digits, bufin, done);
    bufout := DecodeGroup(dest, bufout, t, bufin, nprbytes, a, digits);
    len := bufout;
    LeadingSpells32(t, f);
  }

  /** The loop over the full groups: it leaves up to eight symbols. */
  method DecodeGroups(dest: array<Byte>, t: string, nprbytes0: nat, a: Alphabet, ghost digits: seq<nat>)
    returns (bufin: nat, bufout: nat, ghost done: seq<nat>)
    requires nprbytes0 == |digits| <= |t| && Fit(digits, 5) && dest.Length >= DecodeSize(|t|)
    requires forall k | 0 <= k < |digits| :: digits[k] == Digit(a, t[k])
    modifies dest
    ensures bufin <= nprbytes0 <= bufin + 8 && bufin % 8 == 0
    ensures bufout + ByteCount(nprbytes0 - bufin) <= dest.Length
    ensures Fit(done, 8) && BitString(done, 8) == BitString(digits[..bufin], 5)
    ensures dest[..bufout] == done
    ensures forall k | bufout <= k < dest.Length :: dest[k] == old(dest[k])
  {
    hide Bits, BitString, Pow2, Digit, OctetsAt, DecodeSize, ByteCount;
    var nprbytes := nprbytes0;
    ghost var groups := 0;
    bufin, bufout, done := 0, 0, [];
    NothingDecoded(dest, digits);
    while nprbytes > 8
      invariant bufin == 8 * groups && bufout == 5 * groups && bufin + nprbytes == nprbytes0
      invariant Fit(done, 8) && BitString(done, 8) == BitString(digits[..bufin], 5)
      invariant bufout <= dest.Length && dest[..bufout] == done
      invariant forall k | bufout <= k < dest.Length :: dest[k] == old(dest[k])
    {
      OctetsDone(digits, bufin, done);
      Room(|t|, groups, nprbytes);
      var next := DecodeGroup(dest, bufout, t, bufin, 8, a, digits);
      done := done + OctetsAt(digits, bufin);
      bufin, bufout, nprbytes, groups := bufin + 8, next, nprbytes - 8, groups + 1;
    }
    assert (8 * groups) % 8 == 0;
    Room(|t|, groups, nprbytes);
  }

  /** The buffer asked for has room for every group. */
  lemma Room(n: nat, groups: nat, rest: nat)
    requires 8 * groups + rest <= n
    ensures rest > 8 ==> 5 * groups + ByteCount(8) <= DecodeSize(n) && ByteCount(8) == 5
    ensures rest <= 8 ==> 5 * groups + ByteCount(rest) <= DecodeSize(n)
  {
  }

  /** Whole groups do not matter for what length is odd. */
  lemma WholeGroupsDoNotMatter(read: nat, rest: nat)
    requires read % 8 == 0 && rest <= 8
    ensures OddLength(read + rest) <==> rest == 1 || rest == 3 || rest == 6
  {
  }

  lemma NothingDecoded(dest: array<Byte>, digits: seq<nat>)
    ensures dest[..0] == [] && BitString([], 8) == BitString(digits[..0], 5)
  {
  }
}
