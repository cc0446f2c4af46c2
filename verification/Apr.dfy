/**
 What the models share: optional values, status codes and C strings. A C string is
 the sequence of its characters without the terminator.
 */
module Apr {

  datatype Option<+T> = None | Some(value: T)

  /** APR_SUCCESS, APR_NOTFOUND, APR_BADCH and APR_EINVAL. */
  datatype Status = Success | NotFound | BadCh | Einval

  predicate IsCString(s: string) {
    forall k | 0 <= k < |s| :: s[k] != '\0'
  }

  predicate IsBytes(s: string) {
    forall k | 0 <= k < |s| :: s[k] as int < 256
  }

  /** A C string of bytes. */
  predicate IsByteString(s: string) {
    forall k | 0 <= k < |s| :: 0 < s[k] as int < 256
  }

  /** The character at `i`, the terminator once `i` reaches the end. */
  function At(s: string, i: nat): char {
    if i < |s| then s[i] else '\0'
  }

  /** apr_isspace */
  predicate IsSpace(c: char) {
    c == ' ' || c == '\t' || c == '\n' || c == '\r' || c == 11 as char || c == 12 as char
  }

  // ---- Parts of strings ----

  /** The characters up to the terminator, or up to the length if that comes first; a
      negative length is none. */
  function Taken(s: string, slen: int): (t: string)
    ensures |t| == (if slen < 0 || |s| <= slen then |s| else slen) && forall k | 0 <= k < |t| :: t[k] == s[k]
  {
    if 0 <= slen < |s| then s[..slen] else s
  }

  /** The text from `i` on is `piece` and then `rest`. */
  predicate StandsAt(t: string, i: nat, piece: string, rest: string) {
    i <= |t| && t[i..] == piece + rest
  }

  lemma TailOf(t: string, i: nat, piece: string, rest: string)
    requires StandsAt(t, i, piece, rest)
    ensures i + |piece| <= |t| && t[i + |piece|..] == rest
    ensures forall k | 0 <= k < |piece| :: t[i + k] == piece[k]
  {
    assert |t[i..]| == |piece| + |rest|;
    assert t[i..][|piece|..] == t[i + |piece|..] && (piece + rest)[|piece|..] == rest;
    assert forall k | 0 <= k < |piece| :: t[i + k] == t[i..][k] == piece[k];
  }

  /** What is written so far, continued by one more piece. */
  lemma OneMorePiece(all: string, done: string, piece: string, rest: string)
    requires all == done + (piece + rest)
    ensures all == (done + piece) + rest && |done| + |piece| <= |all|
  {
  }

  /** Two parts, each no longer than the part it is compared with. */
  lemma SamePart(a: string, b: string, c: string, d: string)
    requires |a| <= |c| && |b| <= |d|
    ensures a + b == c + d <==> a == c && b == d
  {
    if a + b == c + d {
      assert |a| == |c|;
      assert a == (a + b)[..|a|] && b == (a + b)[|a|..];
    }
  }

  // ---- Letters and figures in order ----

  const CAPITALS := "ABCDEFGHIJKLMNOPQRSTUVWXYZ"

  const SMALL := "abcdefghijklmnopqrstuvwxyz"

  const FIGURES := "0123456789"

  lemma Sizes()
    ensures |CAPITALS| == |SMALL| == 26 && |FIGURES| == 10
  {
  }

  lemma CapitalAt(v: nat)
    requires v < 26
    ensures CAPITALS[v] as int == 'A' as int + v
  {
  }

  lemma SmallAt(v: nat)
    requires v < 26
    ensures SMALL[v] as int == 'a' as int + v
  {
  }

  lemma FigureAt(v: nat)
    requires v < 10
    ensures FIGURES[v] as int == '0' as int + v
  {
  }

  lemma InSum(c: char, a: string, b: string)
    ensures c in a + b <==> c in a || c in b
  {
  }

  lemma Among(c: char)
    ensures c in CAPITALS <==> 'A' <= c <= 'Z'
    ensures c in SMALL <==> 'a' <= c <= 'z'
    ensures c in FIGURES <==> '0' <= c <= '9'
  {
  }
}
