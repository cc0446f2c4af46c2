/**
 What the encoders and decoders of apr_encode.c are to each other, for texts.
 */
module CodecLaws {
  import opened Apr
  import Base32
  import Base64
  import BitOps
  import opened BitStrings
  import opened EncodeTables

  /** The table a text in alphabet `a` is read with. */
  function Reader(a: Alphabet): Alphabet {
    if a.Base64Url? then Base64 else a
  }

  /** Symbols, and then nothing or `=`. */
  lemma {:induction false} DigitsOfText(a: Alphabet, symbols: seq<nat>, pad: string)
    requires Fit(symbols, a.Width()) && forall k | 0 <= k < |pad| :: pad[k] == '='
    ensures SymbolRun(Reader(a), Text(a, symbols) + pad) == |symbols|
    ensures LeadingDigits(Reader(a), Text(a, symbols) + pad) == symbols
  {
    hide SymbolRun, Letter, Pow2;
    Pow2Small();
    var r, t := Reader(a), Text(a, symbols) + pad;
    forall k | 0 <= k < |symbols| ensures Digit(r, t[k]) == symbols[k] && IsSymbol(r, t[k]) {
      DigitOfLetter(a, symbols[k]);
    }
    if pad != "" { assert t[|symbols|] == pad[0] == '='; }
    SymbolRunIs(r, t, |symbols|);
  }

  /** Decoding what was encoded gives back exactly the bytes, whatever the flags. */
  lemma {:induction false} EncodedReadsBack(a: Alphabet, src: seq<Byte>, f: EncodeFlags)
    ensures ToBytes(LeadingDigits(Reader(a), Encoded(a, src, f)), a.Width()) == src
    ensures SymbolRun(Reader(a), Encoded(a, src, f)) == |ToSymbols(src, a.Width())|
  {
    var symbols := ToSymbolsFit(src, a.Width());
    DigitsOfText(a, symbols, Padding(a, |symbols|, f));
    BytesFit(src);
    BytesSurvive(src, a.Width());
  }

  /** The length of an encoding is never one a decoder turns down. */
  lemma EncodedLengthIsLegal(src: seq<Byte>, w: nat)
    requires w == 5 || w == 6
    ensures var n := |ToSymbols(src, w)|;
            if w == 6 then n % 4 != 1 else n % 8 != 1 && n % 8 != 3 && n % 8 != 6
  {
    hide ToSymbols, Bits, BitString, Chunks;
    var symbols := ToSymbols(src, w);
    assert symbols == Chunks(BitString(src, 8), w) by { SymbolsAreChunks(src, w); }
    var fill := BitsOfChunks(BitString(src, 8), w);
    BitStringLength(src, 8);
    BitStringLength(symbols, w);
    if w == 6 {
      SixCount(|src|, |symbols|, fill);
      Remainder(|symbols|, 4, |src| / 3, |symbols| - 4 * (|src| / 3));
    } else {
      FiveCount(|src|, |symbols|, fill);
      Remainder(|symbols|, 8, |src| / 5, |symbols| - 8 * (|src| / 5));
    }
  }

  lemma SymbolsAreChunks(src: seq<nat>, w: nat)
    requires w > 0
    ensures ToSymbols(src, w) == Chunks(BitString(src, 8), w)
  {
  }

  /** Three bytes make four symbols, one byte two, two bytes three. */
  lemma SixCount(bytes: nat, n: nat, fill: nat)
    requires fill < 6 && 8 * bytes + fill == 6 * n
    ensures var q, r := bytes / 3, bytes % 3;
            n == 4 * q + (if r == 0 then 0 else r + 1)
  {
    var q, r := bytes / 3, bytes % 3;
    assert bytes == 3 * q + r;
    if r == 0 { assert 6 * (n - 4 * q) == fill; }
    else if r == 1 { assert 6 * (n - 4 * q - 2) == fill - 4; }
    else { assert 6 * (n - 4 * q - 3) == fill - 2; }
  }

  /** Five bytes make eight symbols; one to four make two, four, five and seven. */
  lemma FiveCount(bytes: nat, n: nat, fill: nat)
    requires fill < 5 && 8 * bytes + fill == 5 * n
    ensures var q, r := bytes / 5, bytes % 5;
            n == 8 * q + (if r == 0 then 0 else if r <= 2 then 2 * r else if r == 3 then 5 else 7)
  {
    var q, r := bytes / 5, bytes % 5;
    assert bytes == 5 * q + r;
    if r == 0 { assert 5 * (n - 8 * q) == fill; }
    else if r == 1 { assert 5 * (n - 8 * q - 2) == fill - 2; }
    else if r == 2 { assert 5 * (n - 8 * q - 4) == fill - 4; }
    else if r == 3 { assert 5 * (n - 8 * q - 5) == fill - 1; }
    else { assert 5 * (n - 8 * q - 7) == fill - 3; }
  }

  /** What is left of a length after whole blocks. */
  lemma Remainder(n: nat, block: nat, q: nat, r: nat)
    requires n == block * q + r && r < block
    ensures n % block == r
  {
    BitOps.DivMod(n, block, q, r);
  }

  /** Bytes that fill whole blocks. */
  predicate FillsBlocks(a: Alphabet, n: nat) {
    n % (if a.Width() == 6 then 3 else 5) == 0
  }

  lemma WholeBlocks(a: Alphabet, src: seq<Byte>)
    ensures |ToSymbols(src, a.Width())| % a.Block() == 0 <==> FillsBlocks(a, |src|)
  {
    hide ToSymbols, Bits, BitString, Chunks;
    var w := a.Width();
    var symbols := ToSymbols(src, w);
    SymbolsAreChunks(src, w);
    var fill := BitsOfChunks(BitString(src, 8), w);
    BitStringLength(src, 8);
    BitStringLength(symbols, w);
    if w == 6 {
      SixCount(|src|, |symbols|, fill);
      Remainder(|symbols|, 4, |src| / 3, |symbols| - 4 * (|src| / 3));
    } else {
      FiveCount(|src|, |symbols|, fill);
      Remainder(|symbols|, 8, |src| / 5, |symbols| - 8 * (|src| / 5));
    }
  }

  /** A decoder that is not relaxed reads an encoded string to its end exactly when
      it carries no padding, or more of it follows. */
  lemma StrictNeedsNoPadding(a: Alphabet, src: seq<Byte>, f: EncodeFlags, after: char)
    ensures ReadToEnd(Reader(a), Encoded(a, src, f), after) <==>
            f.noPadding || FillsBlocks(a, |src|) || after == '='
  {
    WholeBlocks(a, src);
    hide SymbolRun, Letter, Digit, ToSymbols, Pow2, Text, FillsBlocks;
    var symbols := ToSymbolsFit(src, a.Width());
    var pad := Padding(a, |symbols|, f);
    DigitsOfText(a, symbols, pad);
    NeedsPadding(a, |symbols|, f);
    assert Encoded(a, src, f) == Text(a, symbols) + pad;
  }

  lemma NeedsPadding(a: Alphabet, n: nat, f: EncodeFlags)
    ensures Padding(a, n, f) == "" <==> f.noPadding || n % a.Block() == 0
  {
  }

  /** So base64 of one byte, `QQ==`, is not read to its end, though its byte is. */
  lemma PaddedTextIsRefused()
    ensures Encoded(Base64, [65], EncodeFlags(false, false, false, false)) == "QQ=="
    ensures !ReadToEnd(Base64, "QQ==", '\0')
  {
    hide Bits, BitString, Chunks, Pow2, ToSymbols;
    var f := EncodeFlags(false, false, false, false);
    SymbolsOfOneByte();
    assert Fit([16, 16], 6) by { Pow2Small(); }
    assert Text(Base64, [16, 16]) == "QQ";
    assert Padding(Base64, 2, f) == "==";
    StrictNeedsNoPadding(Base64, [65], f, '\0');
  }

  /** The two bytes of `fo`, a vector of section 10 of RFC 4648. */
  lemma TwoBytesOfVector()
    ensures var f := EncodeFlags(false, false, false, false);
            && Encoded(Base64, [102, 111], f) == "Zm8="
            && Encoded(Base32, [102, 111], f) == "MZXQ===="
            && Encoded(Base32Hex, [102, 111], f) == "CPNG===="
  {
    var f, src := EncodeFlags(false, false, false, false), [102, 111];
    VectorSymbols(src);
    VectorTexts();
    hide *;
    VectorEncoded(Base64, src, f, [25, 38, 60]);
    VectorEncoded(Base32, src, f, [12, 25, 23, 16]);
    VectorEncoded(Base32Hex, src, f, [12, 25, 23, 16]);
    assert "Zm8" + "=" == "Zm8=" && "MZXQ" + "====" == "MZXQ====" && "CPNG" + "====" == "CPNG====";
  }

  lemma VectorEncoded(a: Alphabet, src: seq<Byte>, f: EncodeFlags, symbols: seq<nat>)
    requires ToSymbols(src, a.Width()) == symbols && Fit(symbols, a.Width())
    ensures Encoded(a, src, f) == Text(a, symbols) + Padding(a, |symbols|, f)
  {
    hide ToSymbols, Text, Padding;
  }

  lemma VectorTexts()
    ensures Fit([25, 38, 60], 6) && Fit([12, 25, 23, 16], 5)
    ensures Alphabet.Base64.Width() == 6 && Alphabet.Base32.Width() == 5 && Base32Hex.Width() == 5
    ensures Text(Base64, [25, 38, 60]) == "Zm8"
    ensures Text(Base32, [12, 25, 23, 16]) == "MZXQ" && Text(Base32Hex, [12, 25, 23, 16]) == "CPNG"
    ensures var f := EncodeFlags(false, false, false, false);
            Padding(Base64, 3, f) == "=" && Padding(Base32, 4, f) == "====" && Padding(Base32Hex, 4, f) == "===="
  {
    Pow2Small();
    hide Pow2;
  }

  lemma VectorSymbols(src: seq<Byte>)
    requires src == [102, 111]
    ensures ToSymbols(src, 6) == [25, 38, 60] && ToSymbols(src, 5) == [12, 25, 23, 16]
  {
    hide *;
    VectorSextets(src);
    VectorQuintets(src);
  }

  lemma VectorSextets(src: seq<Byte>)
    requires src == [102, 111]
    ensures ToSymbols(src, 6) == [25, 38, 60]
  {
    NothingBefore(src);
    hide *;
    Base64.EndOfSymbols(src, 0, []);
    assert [] + [src[0] / 4, (src[0] % 4) * 16 + src[1] / 16, (src[1] % 16) * 4] == [25, 38, 60];
  }

  lemma VectorQuintets(src: seq<Byte>)
    requires src == [102, 111]
    ensures ToSymbols(src, 5) == [12, 25, 23, 16]
  {
    NothingBefore(src);
    QuintetsOfVector(src);
    hide *;
    Base32.EndOfSymbols(src, 0, []);
  }

  lemma NothingBefore(src: seq<Byte>)
    ensures Fit([], 6) && Fit([], 5)
    ensures BitString([], 6) == BitString(src[..0], 8) == BitString([], 5)
  {
  }

  lemma QuintetsOfVector(src: seq<Byte>)
    requires src == [102, 111]
    ensures Base32.SymbolCount(2) == 4 && Base32.QuintetsAt(src, 0)[..4] == [12, 25, 23, 16]
  {
    TwoAndZeros(src);
    assert Base32.SymbolCount(2) == 4;
    hide *;
    EightOfVector(src[0], src[1], 0);
    FirstFour(Base32.QuintetsAt(src, 0));
  }

  lemma TwoAndZeros(src: seq<Byte>)
    requires |src| == 2
    ensures Base32.QuintetsAt(src, 0) == Base32.Quintets(src[0], src[1], 0, 0, 0)
  {
    hide Base32.Quintets;
  }

  lemma FirstFour(r: seq<nat>)
    requires r == [12, 25, 23, 16, 0, 0, 0, 0]
    ensures r[..4] == [12, 25, 23, 16]
  {
  }

  lemma EightOfVector(x: nat, y: nat, z: nat)
    requires x == 102 && y == 111 && z == 0
    ensures Base32.Quintets(x, y, z, z, z) == [12, 25, 23, 16, 0, 0, 0, 0]
  {
    Base32.QuintetsSpelled(x, y, z, z, z);
    hide *;
    assert x / 8 == 12 && x % 8 == 6 && y / 64 == 1 && y / 2 == 55 && y % 2 == 1 && z / 16 == 0;
  }

  /** Leaving out the padding takes the url alphabet with it. */
  lemma NoPaddingSelectsUrl()
    ensures var f := EncodeFlags(false, true, false, false);
            !f.url && Encoded(Alphabet64(f), [248], f) == "-A"
  {
    hide Bits, BitString, Chunks, Pow2, ToSymbols;
    var f := EncodeFlags(false, true, false, false);
    Base64.OneByteLeft(248);
    SymbolsAreChunks([248], 6);
    assert Fit([62, 0], 6) by { Pow2Small(); }
    assert Text(Base64Url, [62, 0]) == "-A";
    assert Padding(Base64Url, 2, f) == "";
  }

  /** Otherwise APR_ENCODE_NOPADDING only leaves out the padding: exactly when no symbol
      is one of the two that the alphabets write differently. */
  lemma WhenNoPaddingIsAll(src: seq<Byte>, f: EncodeFlags)
    requires f.noPadding && !f.url
    ensures Encoded(Alphabet64(f), src, f) == Encoded(Base64, src, f) <==>
            forall k | 0 <= k < |ToSymbols(src, 6)| :: ToSymbols(src, 6)[k] < 62
  {
    hide ToSymbols, Pow2, Letter;
    var symbols := ToSymbolsFit(src, 6);
    var there, here := Text(Base64, symbols), Text(Base64Url, symbols);
    assert Padding(Base64, |symbols|, f) == "" == Padding(Base64Url, |symbols|, f);
    assert Encoded(Alphabet64(f), src, f) == here && Encoded(Base64, src, f) == there;
    forall k | 0 <= k < |symbols| ensures here[k] == there[k] <==> symbols[k] < 62 {
      WhereAlphabetsDiffer(symbols[k]);
    }
  }

  lemma WhereAlphabetsDiffer(v: nat)
    requires v < Pow2(6)
    ensures Letter(Base64, v) == Letter(Base64Url, v) <==> v < 62
  {
    Pow2Small();
  }

  lemma SymbolsOfOneByte()
    ensures ToSymbols([65], 6) == [16, 16]
  {
    hide Bits, BitString, Chunks, Pow2;
    Pow2Small();
    GlueBits(16, 1, 6, 2, 4);
    Three(65, 0, 0, 8);
    Three(16, 0, 0, 6);
    ChunksAppend([16], Bits(1, 2), 6);
    LastChunk(1, 2, 4, 16);
  }

  function AsBytes(xs: seq<nat>): (r: seq<Byte>)
    requires Fit(xs, 8)
    ensures r == xs
  {
    Pow2Small();
    seq(|xs|, k requires 0 <= k < |xs| => xs[k])
  }

  /** A text of symbols is written again by decoding and encoding it without padding
      exactly when fewer bits than one symbol carries are left over and all are zero. */
  lemma DecodedWritesAgain(a: Alphabet, t: string, f: EncodeFlags)
    requires !a.Base64? && f.noPadding
    requires forall k | 0 <= k < |t| :: IsSymbol(a, t[k]) && (a.Base64Url? ==> t[k] != '+' && t[k] != '/')
    ensures LeadingDigits(a, t) == Digits(a, t)
    ensures var digits := Digits(a, t);
            var bytes := ToBytes(digits, a.Width());
            && Fit(bytes, 8)
            && (Encoded(a, AsBytes(bytes), f) == t <==>
                && |Unused(digits, a.Width())| < a.Width()
                && Unused(digits, a.Width()) == Zeros(|Unused(digits, a.Width())|))
  {
    hide SymbolRun, Letter, Pow2, ToSymbols, ToBytes, Unused, Digit;
    SymbolRunIs(a, t, |t|);
    assert t[..|t|] == t;
    var digits, w := Digits(a, t), a.Width();
    var bytes := ToBytes(digits, w);
    BytesAndUnused(digits, w);
    SymbolsSurvive(digits, w);
    var again := ToSymbolsFit(bytes, w);
    forall k | 0 <= k < |t| ensures Letter(a, digits[k]) == t[k] {
      LetterOfDigit(a, t[k]);
    }
    assert Text(a, digits) == t;
    if Text(a, again) == t {
      SameText(a, again, digits);
    }
    assert Padding(a, |again|, f) == "";
    assert Text(a, again) + "" == Text(a, again);
  }

  /** A text determines its symbols. */
  lemma SameText(a: Alphabet, xs: seq<nat>, ys: seq<nat>)
    requires Fit(xs, a.Width()) && Fit(ys, a.Width()) && Text(a, xs) == Text(a, ys)
    ensures xs == ys
  {
    hide Letter, Digit, Pow2;
    forall k | 0 <= k < |xs| ensures xs[k] == ys[k] {
      DigitOfLetter(a, xs[k]);
      DigitOfLetter(a, ys[k]);
      assert Text(a, xs)[k] == Text(a, ys)[k];
    }
  }

  // ---- Encoding and decoding again ----

  /** The bytes come back whatever the flags; a strict decoder complains exactly when
      there is padding. */
  method Base64RoundTrip(src: seq<Byte>, f: EncodeFlags, g: EncodeFlags, beyond: char)
    returns (out: seq<Byte>, status: Status)
    ensures out == src
    ensures status == if g.relaxed || f.noPadding || |src| % 3 == 0 then Success else BadCh
  {
    hide ToSymbols, ToBytes, LeadingDigits, SymbolRun, ReadToEnd, Encoded;
    var text := new char[Base64.EncodeSize(|src|)];
    var _, n := Base64.EncodeBase64Binary(text, Some(src), f);
    var t := text[..n];
    var bytes := new Byte[Base64.DecodeSize(|t|)];
    var len;
    status, len := Base64.DecodeBase64Binary(bytes, Some(t), '\0', beyond, g);
    out := bytes[..len];
    var a := Alphabet64(f);
    EncodedReadsBack(a, src, f);
    EncodedLengthIsLegal(src, 6);
    StrictNeedsNoPadding(a, src, f, '\0');
  }

  /** The same, read in the alphabet it was written in. */
  method Base32RoundTrip(src: seq<Byte>, f: EncodeFlags, g: EncodeFlags, beyond: char)
    returns (out: seq<Byte>, status: Status)
    requires f.base32Hex == g.base32Hex
    ensures out == src
    ensures status == if g.relaxed || f.noPadding || |src| % 5 == 0 then Success else BadCh
  {
    hide ToSymbols, ToBytes, LeadingDigits, SymbolRun, ReadToEnd, Encoded;
    var text := new char[Base32.EncodeSize(|src|)];
    var _, n := Base32.EncodeBase32Binary(text, Some(src), f);
    var t := text[..n];
    var bytes := new Byte[Base32.DecodeSize(|t|)];
    var len;
    status, len := Base32.DecodeBase32Binary(bytes, Some(t), '\0', beyond, g);
    out := bytes[..len];
    var a := Alphabet32(f);
    EncodedReadsBack(a, src, f);
    EncodedLengthIsLegal(src, 5);
    StrictNeedsNoPadding(a, src, f, '\0');
  }
}
