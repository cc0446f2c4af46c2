/**
 Numbers as bit strings, most significant bit first, and regrouping them (encoding/apr_encode.c).
 */
module BitStrings {
  import BitOps

  function Pow2(n: nat): (r: nat)
    ensures r > 0
  {
    if n == 0 then 1 else 2 * Pow2(n - 1)
  }

  /** The `w` low bits of `v`. */
  function Bits(v: nat, w: nat): (r: seq<bool>)
    ensures |r| == w
  {
    if w == 0 then [] else Bits(v / 2, w - 1) + [v % 2 == 1]
  }

  /** The number a bit string stands for. */
  function Value(b: seq<bool>): nat {
    if b == [] then 0 else 2 * Value(b[..|b| - 1]) + (if b[|b| - 1] then 1 else 0)
  }

  function Zeros(n: nat): (r: seq<bool>)
    ensures |r| == n
  {
    seq(n, _ => false)
  }

  /** Numbers of `w` bits written one after the other. */
  function BitString(xs: seq<nat>, w: nat): seq<bool> {
    if xs == [] then [] else Bits(xs[0], w) + BitString(xs[1..], w)
  }

  /** A bit string cut into numbers of `w` bits, the last one filled up with zeros. */
  function Chunks(b: seq<bool>, w: nat): seq<nat>
    requires w > 0
    decreases |b|
  {
    if b == [] then []
    else if |b| <= w then [Value(b + Zeros(w - |b|))]
    else [Value(b[..w])] + Chunks(b[w..], w)
  }

  /** A bit string cut into numbers of `w` bits; what is left over is dropped. */
  function WholeChunks(b: seq<bool>, w: nat): seq<nat>
    requires w > 0
    decreases |b|
  {
    if |b| < w then [] else [Value(b[..w])] + WholeChunks(b[w..], w)
  }

  predicate Fit(xs: seq<nat>, w: nat) {
    forall k | 0 <= k < |xs| :: xs[k] < Pow2(w)
  }

  // ---- One number ----

  lemma {:induction false} ValueOfBits(v: nat, w: nat)
    requires v < Pow2(w)
    ensures Value(Bits(v, w)) == v
    decreases w
  {
    if w > 0 {
      ValueOfBits(v / 2, w - 1);
      assert Bits(v, w)[..w - 1] == Bits(v / 2, w - 1);
    }
  }

  lemma {:induction false} BitsOfValue(b: seq<bool>)
    ensures Value(b) < Pow2(|b|) && Bits(Value(b), |b|) == b
    decreases |b|
  {
    if b != [] {
      BitsOfValue(b[..|b| - 1]);
      assert b == b[..|b| - 1] + [b[|b| - 1]];
    }
  }

  /** The upper and the lower part of a number lie side by side in its bits. */
  lemma {:induction false} JoinBits(a: nat, c: nat, n: nat, m: nat, scaled: nat)
    requires scaled == a * Pow2(m) && c < Pow2(m)
    ensures Bits(scaled + c, n + m) == Bits(a, n) + Bits(c, m)
    decreases m
  {
    if m > 0 {
      var half := Halved(a, m, scaled);
      HalfSum(half, c);
      hide Pow2;
      JoinBits(a, c / 2, n, m - 1, half);
      Last(scaled + c, n + m);
      Last(c, m);
      assert Bits(a, n) + (Bits(c / 2, m - 1) + [c % 2 == 1]) == Bits(a, n) + Bits(c / 2, m - 1) + [c % 2 == 1];
    }
  }

  lemma Last(v: nat, w: nat)
    requires w > 0
    ensures Bits(v, w) == Bits(v / 2, w - 1) + [v % 2 == 1]
  {
  }

  lemma Halved(a: nat, m: nat, scaled: nat) returns (half: nat)
    requires m > 0 && scaled == a * Pow2(m)
    ensures half == a * Pow2(m - 1) && scaled == 2 * half
    ensures forall c: nat | c < Pow2(m) :: c / 2 < Pow2(m - 1)
  {
    half := a * Pow2(m - 1);
    assert a * (2 * Pow2(m - 1)) == 2 * half;
  }

  lemma HalfSum(half: nat, c: nat)
    ensures (2 * half + c) / 2 == half + c / 2 && (2 * half + c) % 2 == c % 2
  {
  }

  // ---- Lists of numbers ----

  /** A sequence cut where its first part ends. */
  lemma CutAgain<T>(a: seq<T>, b: seq<T>)
    ensures (a + b)[..|a|] == a && (a + b)[|a|..] == b
  {
  }

  lemma {:induction false} BitStringLength(xs: seq<nat>, w: nat)
    ensures |BitString(xs, w)| == w * |xs|
    decreases |xs|
  {
    if xs != [] {
      BitStringLength(xs[1..], w);
      assert w * |xs| == w * (|xs| - 1) + w;
    }
  }

  lemma {:induction false} BitStringAppend(xs: seq<nat>, ys: seq<nat>, w: nat)
    ensures BitString(xs + ys, w) == BitString(xs, w) + BitString(ys, w)
    decreases |xs|
  {
    if xs == [] {
      assert xs + ys == ys;
    } else {
      BitStringAppend(xs[1..], ys, w);
      assert (xs + ys)[1..] == xs[1..] + ys;
    }
  }

  lemma {:induction false} ChunksAppend(xs: seq<nat>, c: seq<bool>, w: nat)
    requires w > 0 && Fit(xs, w)
    ensures Chunks(BitString(xs, w) + c, w) == xs + Chunks(c, w)
    decreases |xs|
  {
    hide Value, Bits, Zeros, Pow2;
    var b := BitString(xs, w) + c;
    if xs == [] {
      assert b == c;
    } else {
      ValueOfBits(xs[0], w);
      ChunksAppend(xs[1..], c, w);
      hide Chunks;
      BitStringFront(xs, c, w);
      CutAgain(Bits(xs[0], w), BitString(xs[1..], w) + c);
      ChunksStep(b, w);
      hide *;
      Reattach(xs, Chunks(c, w));
    }
  }

  lemma BitStringFront(xs: seq<nat>, c: seq<bool>, w: nat)
    requires xs != []
    ensures BitString(xs, w) + c == Bits(xs[0], w) + (BitString(xs[1..], w) + c)
  {
    hide Bits;
  }

  lemma Reattach(xs: seq<nat>, ys: seq<nat>)
    requires xs != []
    ensures [xs[0]] + (xs[1..] + ys) == xs + ys
  {
  }

  lemma {:induction false} ChunksStep(b: seq<bool>, w: nat)
    requires 0 < w <= |b|
    ensures Chunks(b, w) == [Value(b[..w])] + Chunks(b[w..], w)
  {
    if |b| == w { assert b + Zeros(0) == b[..w]; }
  }

  lemma {:induction false} WholeChunksAppend(xs: seq<nat>, c: seq<bool>, w: nat)
    requires w > 0 && Fit(xs, w)
    ensures WholeChunks(BitString(xs, w) + c, w) == xs + WholeChunks(c, w)
    decreases |xs|
  {
    hide Value, Bits, Zeros, Pow2;
    var b := BitString(xs, w) + c;
    if xs == [] {
      assert b == c;
    } else {
      ValueOfBits(xs[0], w);
      WholeChunksAppend(xs[1..], c, w);
      hide WholeChunks;
      BitStringFront(xs, c, w);
      CutAgain(Bits(xs[0], w), BitString(xs[1..], w) + c);
      WholeChunksStep(b, w);
      hide *;
      Reattach(xs, WholeChunks(c, w));
    }
  }

  lemma WholeChunksStep(b: seq<bool>, w: nat)
    requires 0 < w <= |b|
    ensures WholeChunks(b, w) == [Value(b[..w])] + WholeChunks(b[w..], w)
  {
  }

  lemma ChunksOfBitString(xs: seq<nat>, w: nat)
    requires w > 0 && Fit(xs, w)
    ensures Chunks(BitString(xs, w), w) == xs
  {
    ChunksAppend(xs, [], w);
    assert BitString(xs, w) + [] == BitString(xs, w);
  }

  /** Whole numbers come back, whatever shorter rest follows. */
  lemma {:induction false} WholeChunksOfBitString(xs: seq<nat>, w: nat, rest: seq<bool>)
    requires w > 0 && Fit(xs, w) && |rest| < w
    ensures WholeChunks(BitString(xs, w) + rest, w) == xs
  {
    WholeChunksAppend(xs, rest, w);
  }

  /** Cutting loses nothing and adds fewer than `w` zeros. */
  lemma {:induction false} BitsOfChunks(b: seq<bool>, w: nat) returns (fill: nat)
    requires w > 0
    ensures fill < w && BitString(Chunks(b, w), w) == b + Zeros(fill) && Fit(Chunks(b, w), w)
    decreases |b|
  {
    if b == [] {
      fill := 0;
    } else if |b| <= w {
      fill := w - |b|;
      BitsOfValue(b + Zeros(fill));
      assert Chunks(b, w)[1..] == [];
    } else {
      fill := BitsOfChunks(b[w..], w);
      BitsOfValue(b[..w]);
      assert Chunks(b, w)[1..] == Chunks(b[w..], w);
      assert b == b[..w] + b[w..];
    }
  }

  lemma {:induction false} BitsOfWholeChunks(b: seq<bool>, w: nat)
    requires w > 0
    ensures BitString(WholeChunks(b, w), w) <= b && |b| - |BitString(WholeChunks(b, w), w)| < w
    ensures Fit(WholeChunks(b, w), w)
    decreases |b|
  {
    if |b| >= w {
      BitsOfWholeChunks(b[w..], w);
      BitsOfValue(b[..w]);
      assert WholeChunks(b, w)[1..] == WholeChunks(b[w..], w);
      assert b == b[..w] + b[w..];
    }
  }

  /** More zeros behind a bit string change none of its chunks. */
  lemma {:induction false} ChunksPrefix(b: seq<bool>, m: nat, w: nat)
    requires w > 0
    ensures Chunks(b, w) <= Chunks(b + Zeros(m), w)
    decreases |b|
  {
    var c := b + Zeros(m);
    if |b| > w {
      ChunksPrefix(b[w..], m, w);
      assert c[..w] == b[..w] && c[w..] == b[w..] + Zeros(m);
    } else if b != [] {
      if |c| <= w {
        assert c + Zeros(w - |c|) == b + Zeros(w - |b|);
      } else {
        assert c[..w] == b + Zeros(w - |b|);
      }
    }
  }

  /** What follows a bit string changes none of its whole chunks. */
  lemma {:induction false} WholeChunksPrefix(b: seq<bool>, c: seq<bool>, w: nat)
    requires w > 0
    ensures WholeChunks(b, w) <= WholeChunks(b + c, w)
    decreases |b|
  {
    if |b| >= w {
      WholeChunksPrefix(b[w..], c, w);
      assert (b + c)[..w] == b[..w] && (b + c)[w..] == b[w..] + c;
    }
  }

  // ---- The laws of regrouping ----

  /** Bytes written in symbols of `w` bits, and back. */
  function ToSymbols(bytes: seq<nat>, w: nat): seq<nat>
    requires w > 0
  {
    Chunks(BitString(bytes, 8), w)
  }

  function ToBytes(symbols: seq<nat>, w: nat): seq<nat> {
    WholeChunks(BitString(symbols, w), 8)
  }

  /** Reading back what was written gives the bytes. */
  lemma BytesSurvive(bytes: seq<nat>, w: nat)
    requires 0 < w <= 8 && Fit(bytes, 8)
    ensures ToBytes(ToSymbols(bytes, w), w) == bytes
  {
    var fill := BitsOfChunks(BitString(bytes, 8), w);
    WholeChunksOfBitString(bytes, 8, Zeros(fill));
  }

  /** The bits of the symbols that belong to no whole byte. */
  function Unused(symbols: seq<nat>, w: nat): seq<bool> {
    var b := BitString(symbols, w);
    b[|b| - |b| % 8..]
  }

  /** A length has one division by `w`. */
  lemma SameFill(w: nat, m: nat, x: nat, n: nat, y: nat)
    requires x < w && y < w && w * m + x == w * n + y
    ensures x == y && m == n
  {
    if m < n { BitOps.Multiple(w, m, n); }
    if n < m { BitOps.Multiple(w, n, m); }
  }

  /** The whole bytes of a list of symbols, and the bits left over. */
  lemma BytesAndUnused(symbols: seq<nat>, w: nat)
    ensures BitString(symbols, w) == BitString(ToBytes(symbols, w), 8) + Unused(symbols, w)
    ensures |Unused(symbols, w)| < 8 && Fit(ToBytes(symbols, w), 8)
  {
    var b, bytes := BitString(symbols, w), ToBytes(symbols, w);
    var whole := BitString(bytes, 8);
    BitsOfWholeChunks(b, 8);
    BitStringLength(bytes, 8);
    SameFill(8, |bytes|, |b| - |whole|, |b| / 8, |b| % 8);
  }

  /** Writing again what was read gives the same symbols exactly when fewer than one
      symbol's bits are unused and all of them are zero. */
  lemma SymbolsSurvive(symbols: seq<nat>, w: nat)
    requires 0 < w <= 8 && Fit(symbols, w)
    ensures ToSymbols(ToBytes(symbols, w), w) == symbols <==>
            |Unused(symbols, w)| < w && Unused(symbols, w) == Zeros(|Unused(symbols, w)|)
  {
    hide BitString, Chunks, WholeChunks;
    var b, unused := BitString(symbols, w), Unused(symbols, w);
    var again := ToSymbols(ToBytes(symbols, w), w);
    BytesAndUnused(symbols, w);
    var whole := BitString(ToBytes(symbols, w), 8);
    var fill := BitsOfChunks(whole, w);
    if again == symbols {
      assert whole + Zeros(fill) == whole + unused;
      assert Zeros(fill) == (whole + Zeros(fill))[|whole|..] && unused == (whole + unused)[|whole|..];
    }
    if |unused| < w && unused == Zeros(|unused|) {
      BitStringLength(symbols, w);
      BitStringLength(again, w);
      SameSum(w, |again|, fill, |symbols|, |unused|, |whole|);
      ChunksOfBitString(again, w);
      ChunksOfBitString(symbols, w);
    }
  }

  /** Two fillings of the same string up to a multiple of `w` are the same. */
  lemma SameSum(w: nat, m: nat, x: nat, n: nat, y: nat, len: nat)
    requires x < w && y < w && len + x == w * m && len + y == w * n
    ensures x == y
  {
    if m < n { BitOps.Multiple(w, m, n); }
    if n < m { BitOps.Multiple(w, n, m); }
  }
}
