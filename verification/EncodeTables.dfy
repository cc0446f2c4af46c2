/**
 Alphabets, lookup tables and flags of apr_encode.c, and the texts its encoders
 are to produce.
 */
module EncodeTables {
  import opened Apr
  import opened BitStrings

  type Byte = b: int | 0 <= b < 256

  /** The APR_ENCODE_* flags the codings here look at. */
  datatype EncodeFlags = EncodeFlags(relaxed: bool, noPadding: bool, url: bool, base32Hex: bool)

  datatype Alphabet = Base64 | Base64Url | Base32 | Base32Hex
  {
    /** Bits a symbol carries. */
    function Width(): nat { if Base64? || Base64Url? then 6 else 5 }

    /** Symbols in a padded block. */
    function Block(): nat { if Base64? || Base64Url? then 4 else 8 }
  }

  /** APR_ENCODE_BASE64URL is the union of two flags, so either of them selects the
      url alphabet. */
  function Alphabet64(f: EncodeFlags): Alphabet {
    if f.noPadding || f.url then Base64Url else Base64
  }

  function Alphabet32(f: EncodeFlags): Alphabet {
    if f.base32Hex then Base32Hex else Base32
  }

  /** The strings base64, base64url, base32 and base32hex. */
  function Letter(a: Alphabet, v: nat): char
    requires v < Pow2(a.Width())
  {
    Pow2Small();
    match a
    case Base32 => if v < 26 then (v + 'A' as int) as char else (v - 26 + '2' as int) as char
    case Base32Hex => if v < 10 then (v + '0' as int) as char else (v - 10 + 'A' as int) as char
    case _ =>
      if v < 26 then (v + 'A' as int) as char
      else if v < 52 then (v - 26 + 'a' as int) as char
      else if v < 62 then (v - 52 + '0' as int) as char
      else if a.Base64? then (if v == 62 then '+' else '/')
      else (if v == 62 then '-' else '_')
  }

  /** The tables pr2six, pr2five and pr2fivehex: 128 marks `=`, 64 or 32 everything
      else that is no symbol. The table for base64 reads both alphabets. */
  function Digit(a: Alphabet, c: char): (d: nat)
    ensures d < 256
  {
    if c == '=' then 128 else
    match a
    case Base32 =>
      if 'A' <= c <= 'Z' then c as int - 'A' as int
      else if '2' <= c <= '7' then c as int - '2' as int + 26
      else 32
    case Base32Hex =>
      if '0' <= c <= '9' then c as int - '0' as int
      else if 'A' <= c <= 'V' then c as int - 'A' as int + 10
      else 32
    case _ =>
      if 'A' <= c <= 'Z' then c as int - 'A' as int
      else if 'a' <= c <= 'z' then c as int - 'a' as int + 26
      else if '0' <= c <= '9' then c as int - '0' as int + 52
      else if c == '+' || c == '-' then 62
      else if c == '/' || c == '_' then 63
      else 64
  }

  lemma Pow2Small()
    ensures Pow2(0) == 1 && Pow2(1) == 2 && Pow2(2) == 4 && Pow2(3) == 8 && Pow2(4) == 16
    ensures Pow2(5) == 32 && Pow2(6) == 64 && Pow2(7) == 128 && Pow2(8) == 256
  {
    assert Pow2(4) == 2 * Pow2(3) && Pow2(6) == 2 * Pow2(5);
  }

  predicate IsSymbol(a: Alphabet, c: char) {
    Digit(a, c) < Pow2(a.Width())
  }

  /** The tables undo the alphabets. */
  lemma DigitOfLetter(a: Alphabet, v: nat)
    requires v < Pow2(a.Width())
    ensures Digit(a, Letter(a, v)) == v
    ensures a.Base64? || a.Base64Url? ==> Digit(Base64, Letter(a, v)) == v
  {
    Pow2Small();
  }

  /** A symbol of the alphabet is the letter of its digit. The base64 table also
      reads the other alphabet's last two symbols. */
  lemma LetterOfDigit(a: Alphabet, c: char)
    requires IsSymbol(a, c)
    requires a.Base64? ==> c != '-' && c != '_'
    requires a.Base64Url? ==> c != '+' && c != '/'
    ensures Letter(a, Digit(a, c)) == c
  {
    Pow2Small();
  }

  function Text(a: Alphabet, symbols: seq<nat>): (t: string)
    requires Fit(symbols, a.Width())
    ensures |t| == |symbols|
  {
    seq(|symbols|, k requires 0 <= k < |symbols| => Letter(a, symbols[k]))
  }

  function Digits(a: Alphabet, t: string): (r: seq<nat>)
    ensures |r| == |t|
  {
    seq(|t|, k requires 0 <= k < |t| => Digit(a, t[k]))
  }

  lemma TextAppend(a: Alphabet, xs: seq<nat>, ys: seq<nat>)
    requires Fit(xs, a.Width()) && Fit(ys, a.Width())
    ensures Fit(xs + ys, a.Width()) && Text(a, xs + ys) == Text(a, xs) + Text(a, ys)
  {
  }

  /** As many `=` as fill up the last block. */
  function Padding(a: Alphabet, n: nat, f: EncodeFlags): string {
    if f.noPadding then "" else seq((a.Block() - n % a.Block()) % a.Block(), _ => '=')
  }

  /** The text begins with the letters at these places of an alphabet. */
  predicate Spells(t: string, symbols: seq<nat>, letters: string) {
    |symbols| <= |t| && forall k | 0 <= k < |symbols| :: symbols[k] < |letters| && t[k] == letters[symbols[k]]
  }

  /** The text an encoder is to produce: the bit string of the bytes regrouped into
      symbols, zero filled, and padded unless the flags say otherwise. */
  ghost function Encoded(a: Alphabet, src: seq<Byte>, f: EncodeFlags): string {
    var fill := ToSymbolsFit(src, a.Width());
    Text(a, fill) + Padding(a, |fill|, f)
  }

  /** Behind the symbols stand as many `=` as make whole blocks of four or eight, or none
      under APR_ENCODE_NOPADDING. */
  lemma PaddedToBlocks(a: Alphabet, src: seq<Byte>, f: EncodeFlags)
    ensures var n, t, block := |ToSymbols(src, a.Width())|, Encoded(a, src, f), if a.Width() == 6 then 4 else 8;
            && n <= |t| && (forall k | n <= k < |t| :: t[k] == '=')
            && (if f.noPadding then |t| == n else |t| < n + block && |t| % block == 0)
  {
    var symbols := ToSymbolsFit(src, a.Width());
    var pad := Padding(a, |symbols|, f);
    assert Encoded(a, src, f) == Text(a, symbols) + pad;
    PaddingFills(a, |symbols|, f);
    hide ToSymbols, Text, Padding, Encoded;
    assert forall k | 0 <= k < |pad| :: (Text(a, symbols) + pad)[|symbols| + k] == pad[k];
  }

  lemma PaddingFills(a: Alphabet, n: nat, f: EncodeFlags)
    ensures var pad, block := Padding(a, n, f), if a.Width() == 6 then 4 else 8;
            && (forall k | 0 <= k < |pad| :: pad[k] == '=')
            && (if f.noPadding then |pad| == 0 else |pad| < block && (n + |pad|) % block == 0)
  {
    FillsBlock(n, 4);
    FillsBlock(n, 8);
  }

  lemma FillsBlock(n: nat, block: nat)
    requires block == 4 || block == 8
    ensures var k := (block - n % block) % block; k < block && (n + k) % block == 0
  {
    assert n == n / block * block + n % block;
  }

  /** The letters of an alphabet in order. */
  predicate InOrder(a: Alphabet, letters: string) {
    |letters| == Pow2(a.Width()) && forall v | 0 <= v < |letters| :: Letter(a, v) == letters[v]
  }

  lemma AlphabetsInOrder()
    ensures InOrder(Base64, CAPITALS + SMALL + FIGURES + "+/")
    ensures InOrder(Base64Url, CAPITALS + SMALL + FIGURES + "-_")
    ensures InOrder(Base32, CAPITALS + "234567")
    ensures InOrder(Base32Hex, FIGURES + "ABCDEFGHIJKLMNOPQRSTUV")
  {
    hide Letter, Pow2;
    Pow2Small();
    forall v: nat | v < 64 { Letter64(v); }
    forall v: nat | v < 32 { Letter32(v); }
  }

  /** The text with the alphabets written out. */
  lemma Spells64(src: seq<Byte>, f: EncodeFlags)
    ensures Spells(Encoded(Alphabet64(f), src, f), ToSymbols(src, 6),
                   CAPITALS + SMALL + FIGURES + if f.noPadding || f.url then "-_" else "+/")
  {
    hide Encoded, InOrder, Spells, ToSymbols;
    AlphabetsInOrder();
    forall letters | InOrder(Alphabet64(f), letters) { InLetters(Alphabet64(f), src, f, letters); }
  }

  lemma Spells32(src: seq<Byte>, f: EncodeFlags)
    ensures Spells(Encoded(Alphabet32(f), src, f), ToSymbols(src, 5),
                   if f.base32Hex then FIGURES + "ABCDEFGHIJKLMNOPQRSTUV" else CAPITALS + "234567")
  {
    hide Encoded, InOrder, Spells, ToSymbols;
    AlphabetsInOrder();
    forall letters | InOrder(Alphabet32(f), letters) { InLetters(Alphabet32(f), src, f, letters); }
  }

  lemma InLetters(a: Alphabet, src: seq<Byte>, f: EncodeFlags, letters: string)
    requires InOrder(a, letters)
    ensures Spells(Encoded(a, src, f), ToSymbols(src, a.Width()), letters)
  {
    hide Letter, ToSymbols, Pow2;
    var symbols := ToSymbolsFit(src, a.Width());
    assert Encoded(a, src, f) == Text(a, symbols) + Padding(a, |symbols|, f);
    forall k | 0 <= k < |symbols| ensures symbols[k] < |letters| && Encoded(a, src, f)[k] == letters[symbols[k]] {
      assert symbols[k] < Pow2(a.Width());
    }
  }

  lemma Letter64(v: nat)
    requires v < 64
    ensures Pow2(6) == 64
    ensures Letter(Base64, v) == (CAPITALS + SMALL + FIGURES + "+/")[v]
    ensures Letter(Base64Url, v) == (CAPITALS + SMALL + FIGURES + "-_")[v]
  {
    Pow2Small();
    if v < 26 { CapitalAt(v); } else if v < 52 { SmallAt(v - 26); } else if v < 62 { FigureAt(v - 52); }
  }

  lemma Letter32(v: nat)
    requires v < 32
    ensures Pow2(5) == 32
    ensures Letter(Base32, v) == (CAPITALS + "234567")[v]
    ensures Letter(Base32Hex, v) == (FIGURES + "ABCDEFGHIJKLMNOPQRSTUV")[v]
  {
    Pow2Small();
    assert CAPITALS[..22] == "ABCDEFGHIJKLMNOPQRSTUV";
    if v < 26 { CapitalAt(v); }
    if v < 10 { FigureAt(v); } else { CapitalAt(v - 10); }
  }

  function ToSymbolsFit(bytes: seq<nat>, w: nat): (r: seq<nat>)
    requires w > 0
    ensures r == ToSymbols(bytes, w) && Fit(r, w)
  {
    ChunksFit(BitString(bytes, 8), w);
    ToSymbols(bytes, w)
  }

  lemma ChunksFit(b: seq<bool>, w: nat)
    requires w > 0
    ensures Fit(Chunks(b, w), w)
  {
    var _ := BitsOfChunks(b, w);
  }

  /** The bits of short lists, spelled out. */
  lemma BitStringCons(x: nat, xs: seq<nat>, w: nat)
    ensures BitString([x] + xs, w) == Bits(x, w) + BitString(xs, w)
  {
    assert ([x] + xs)[1..] == xs;
  }

  lemma {:induction false} Three(x: nat, y: nat, z: nat, w: nat)
    ensures BitString([x], w) == Bits(x, w)
    ensures BitString([x, y], w) == Bits(x, w) + Bits(y, w)
    ensures BitString([x, y, z], w) == Bits(x, w) + Bits(y, w) + Bits(z, w)
  {
    hide Bits, BitString;
    NoBits(w);
    BitStringCons(x, [], w);
    BitStringCons(y, [], w);
    BitStringCons(z, [], w);
    BitStringCons(x, [y], w);
    BitStringCons(y, [z], w);
    BitStringCons(x, [y, z], w);
    assert [x] + [] == [x] && [y] + [] == [y] && [z] + [] == [z];
    assert [x] + [y] == [x, y] && [y] + [z] == [y, z] && [x] + [y, z] == [x, y, z];
  }

  lemma NoBits(w: nat)
    ensures BitString([], w) == []
  {
  }

  lemma Four(s: nat, t: nat, u: nat, v: nat, w: nat)
    ensures BitString([s, t, u, v], w) == Bits(s, w) + Bits(t, w) + Bits(u, w) + Bits(v, w)
  {
    hide Bits, BitString;
    Three(t, u, v, w);
    BitStringCons(s, [t, u, v], w);
    assert [s] + [t, u, v] == [s, t, u, v];
  }

  lemma BytesFit(b: seq<Byte>)
    ensures Fit(b, 8)
  {
    Pow2Small();
  }

  // ---- Pieces of numbers ----

  lemma GlueBits(a: nat, c: nat, n: nat, m: nat, q: nat)
    requires q == Pow2(m) && c < q
    ensures Bits(a * q + c, n + m) == Bits(a, n) + Bits(c, m)
  {
    JoinBits(a, c, n, m, a * q);
  }

  lemma {:induction false} BitsOfZero(m: nat)
    ensures Bits(0, m) == Zeros(m)
    decreases m
  {
    if m > 0 {
      BitsOfZero(m - 1);
      assert Zeros(m) == Zeros(m - 1) + [false];
    }
  }

  /** A number of `n` bits alone in the last symbol. */
  lemma LastChunk(v: nat, n: nat, m: nat, scaled: nat)
    requires 0 < n && v < Pow2(n) && scaled == v * Pow2(m) && scaled < Pow2(n + m)
    ensures Chunks(Bits(v, n), n + m) == [scaled]
  {
    hide Bits, Value, Pow2;
    Pow2Small();
    JoinBits(v, 0, n, m, scaled);
    BitsOfZero(m);
    ValueOfBits(scaled, n + m);
    LoneChunk(Bits(v, n), n + m);
  }

  lemma LoneChunk(b: seq<bool>, w: nat)
    requires 0 < |b| <= w
    ensures Chunks(b, w) == [Value(b + Zeros(w - |b|))]
  {
  }

  /** `*bufout++ = b` */
  method Put<T>(dest: array<T>, bufout: nat, b: T) returns (next: nat)
    requires bufout < dest.Length
    modifies dest
    ensures next == bufout + 1
    ensures dest[..next] == old(dest[..bufout]) + [b]
    ensures forall k | next <= k < dest.Length :: dest[k] == old(dest[k])
  {
    dest[bufout] := b;
    next := bufout + 1;
  }

  lemma OneMore<T>(before: seq<T>, r: seq<T>, k: nat)
    requires k < |r|
    ensures before + r[..k + 1] == before + r[..k] + [r[k]]
  {
  }

  // ---- The scans of the decoders ----

  /** How many symbols a text begins with. */
  function SymbolRun(a: Alphabet, t: string): (n: nat)
    ensures n <= |t|
    ensures forall k | 0 <= k < n :: IsSymbol(a, t[k])
    ensures n < |t| ==> !IsSymbol(a, t[n])
  {
    if t == "" || !IsSymbol(a, t[0]) then 0
    else
      assert forall k | 0 < k < |t| :: t[k] == t[1..][k - 1];
      1 + SymbolRun(a, t[1..])
  }

  lemma {:induction false} SymbolRunIs(a: Alphabet, t: string, n: nat)
    requires n <= |t| && (forall k | 0 <= k < n :: IsSymbol(a, t[k]))
    requires n < |t| ==> !IsSymbol(a, t[n])
    ensures SymbolRun(a, t) == n
    decreases t
  {
    if n > 0 {
      assert forall k | 0 <= k < |t[1..]| :: t[1..][k] == t[k + 1];
      SymbolRunIs(a, t[1..], n - 1);
    }
  }

  /** The text is read to its end: nothing but symbols; or, since the second scan
      starts one behind the first other character, whatever stands there and then
      `=` up to and including the character `after` the text. */
  predicate ReadToEnd(a: Alphabet, t: string, after: char) {
    var n := SymbolRun(a, t);
    n == |t| || (after == '=' && forall k | n < k < |t| :: t[k] == '=')
  }

  /** The first two loops of a decoder: `n` symbols, and `count` characters of the text
      not accounted for. Each reads the table before it tests `count`, so they may look at
      the character `after` the text, and at the one `beyond` that; `last` is the furthest
      place read. It is one past the character behind the text exactly when the text is
      read to its end. */
  method Scan(a: Alphabet, t: string, after: char, beyond: char) returns (n: nat, count: nat, last: nat)
    ensures n == SymbolRun(a, t)
    ensures count == 0 <==> ReadToEnd(a, t, after)
    ensures last <= |t| + 1 && (last == |t| + 1 <==> ReadToEnd(a, t, after))
  {
    hide Digit;
    Pow2Small();
    DigitLimits(a);
    var limit := if a.Width() == 6 then 64 else 32;
    var mem := t + [after, beyond];
    var bufin: nat := 0;
    count := |t|;
    while Digit(a, mem[bufin]) < limit && count > 0
      invariant bufin + count == |t|
      invariant forall k | 0 <= k < bufin :: IsSymbol(a, t[k])
      decreases count
    {
      bufin, count := bufin + 1, count - 1;
    }
    bufin := bufin + 1;
    n := bufin - 1;
    SymbolRunIs(a, t, n);
    while Digit(a, mem[bufin]) > limit && count > 0
      invariant n < bufin <= |t| + 1
      invariant if n == |t| then count == 0 else bufin + count == |t| + 1
      invariant bufin == |t| + 1 ==> n == |t| || after == '='
      invariant forall k | n < k < bufin && k < |t| :: t[k] == '='
      decreases count
    {
      assert mem[bufin] == if bufin < |t| then t[bufin] else after;
      bufin, count := bufin + 1, count - 1;
    }
    assert n < |t| && bufin <= |t| ==> mem[bufin] == if bufin < |t| then t[bufin] else after;
    last := bufin;
  }

  lemma DigitLimits(a: Alphabet)
    ensures var limit := if a.Width() == 6 then 64 else 32;
            forall c :: (Digit(a, c) < limit <==> IsSymbol(a, c)) && (Digit(a, c) > limit <==> c == '=')
  {
    Pow2Small();
  }

  /** The three bytes of `QUJD` are read from a string of four characters, the place behind
      its terminator included. */
  method ReadsBehindTerminator() returns (last: nat)
    ensures last == |"QUJD"| + 1
  {
    var t := "QUJD";
    forall k | 0 <= k < |t| ensures IsSymbol(Base64, t[k]) {
      Pow2Small();
    }
    SymbolRunIs(Base64, t, 4);
    hide *;
    var n, count;
    n, count, last := Scan(Base64, t, '\0', 'x');
  }

  /** The digits of the symbols a text begins with. */
  function LeadingDigits(a: Alphabet, t: string): (r: seq<nat>)
    ensures |r| == SymbolRun(a, t) && Fit(r, a.Width())
    ensures forall k | 0 <= k < |r| :: r[k] == Digit(a, t[k])
  {
    var r := Digits(a, t[..SymbolRun(a, t)]);
    assert forall k | 0 <= k < |r| :: IsSymbol(a, t[k]);
    r
  }

  /** The digits are the places of the leading characters in one of two alphabets, and the
      next character is in neither. */
  predicate ReadFrom64(t: string, digits: seq<nat>, letters: string, others: string)
    requires |letters| == |others| == 64
  {
    && |digits| <= |t|
    && (forall k | 0 <= k < |digits| ::
          digits[k] < 64 && (t[k] == letters[digits[k]] || t[k] == others[digits[k]]))
    && (|digits| < |t| ==> t[|digits|] !in letters && t[|digits|] !in others)
  }

  predicate ReadFrom32(t: string, digits: seq<nat>, letters: string) {
    Spells(t, digits, letters) && (|digits| < |t| ==> t[|digits|] !in letters)
  }

  /** The leading symbols with the alphabets written out: base64 reads both. */
  lemma LeadingSpells64(t: string)
    ensures ReadFrom64(t, LeadingDigits(Base64, t),
                       CAPITALS + SMALL + FIGURES + "+/", CAPITALS + SMALL + FIGURES + "-_")
  {
    var digits := LeadingDigits(Base64, t);
    hide Digit, Letter, LeadingDigits;
    forall k | 0 <= k < |digits|
      ensures digits[k] < 64
      ensures || t[k] == (CAPITALS + SMALL + FIGURES + "+/")[digits[k]]
              || t[k] == (CAPITALS + SMALL + FIGURES + "-_")[digits[k]]
    {
      var c := t[k];
      assert IsSymbol(Base64, c);
      SymbolIsLetter(c);
      Letter64(Digit(Base64, c));
    }
    if |digits| < |t| {
      var c := t[|digits|];
      Symbol64(c);
      InSum(c, CAPITALS + SMALL + FIGURES, "+/-_");
      InSum(c, CAPITALS + SMALL + FIGURES, "+/");
      InSum(c, CAPITALS + SMALL + FIGURES, "-_");
      assert c !in "+/-_" ==> c !in "+/" && c !in "-_";
    }
  }

  /** Each symbol stands where its digit says. */
  lemma SymbolIsLetter(c: char)
    requires IsSymbol(Base64, c)
    ensures Pow2(6) == 64 && Digit(Base64, c) < 64
    ensures c == Letter(Base64, Digit(Base64, c)) || c == Letter(Base64Url, Digit(Base64, c))
  {
    Pow2Small();
  }

  lemma Symbol64(c: char)
    ensures IsSymbol(Base64, c) <==> c in CAPITALS + SMALL + FIGURES + "+/-_"
  {
    Pow2Small();
    Among(c);
    InSum(c, CAPITALS + SMALL + FIGURES, "+/-_");
    InSum(c, CAPITALS + SMALL, FIGURES);
    InSum(c, CAPITALS, SMALL);
    assert c in "+/-_" <==> c == '+' || c == '/' || c == '-' || c == '_';
    hide CAPITALS, SMALL, FIGURES, Pow2;
  }

  lemma LeadingSpells32(t: string, f: EncodeFlags)
    ensures ReadFrom32(t, LeadingDigits(Alphabet32(f), t),
                       if f.base32Hex then FIGURES + "ABCDEFGHIJKLMNOPQRSTUV" else CAPITALS + "234567")
  {
    var a := Alphabet32(f);
    var digits := LeadingDigits(a, t);
    Pow2Small();
    hide Digit, Letter, LeadingDigits;
    forall k | 0 <= k < |digits| ensures digits[k] < 32 && digits[k] < Pow2(5) && t[k] == Letter(a, digits[k]) {
      LetterOfDigit(a, t[k]);
      Letter32(digits[k]);
    }
    if |digits| < |t| { Symbol32(t[|digits|]); }
    forall v: nat | v < 32 { Letter32(v); }
  }

  lemma Symbol32(c: char)
    ensures IsSymbol(Base32, c) <==> c in CAPITALS + "234567"
    ensures IsSymbol(Base32Hex, c) <==> c in FIGURES + "ABCDEFGHIJKLMNOPQRSTUV"
  {
    Pow2Small();
    Among(c);
  }
}
