/**
 The pattern language of `fnmatch_ch` and `apr_fnmatch`
 (strings/apr_fnmatch.c): flags, characters, and how a pattern is cut into
 items. Reading at the end of a string reads the terminator.
 */
module GlobSyntax {
  import opened Apr

  /** The four APR_FNM_* flags. */
  datatype Flags = Flags(noEscape: bool, pathname: bool, period: bool, caseBlind: bool)
  {
    predicate Escape() { !noEscape }
  }

  /** The characters from `lo` to `hi`, both included; empty when `hi < lo`. */
  datatype Range = Range(lo: char, hi: char)

  /** The ranges of a bracket expression and the place behind it, if it is well formed. */
  type RangeList = Option<(seq<Range>, nat)>

  /** What one piece of a pattern stands for. */
  datatype Item =
    | Star                                       // any run of characters of one segment
    | Sep                                        // a segment separator
    | Any                                        // one character
    | Lit(c: char)                               // this character
    | Set(negated: bool, ranges: seq<Range>)     // a bracket expression
  {
    predicate Single() { !Star? && !Sep? }
  }

  predicate IsUpper(c: char) { 'A' <= c <= 'Z' }

  function ToLower(c: char): char {
    if IsUpper(c) then (c as int + 32) as char else c
  }

  predicate SameChar(a: char, b: char, f: Flags) {
    a == b || (f.caseBlind && ToLower(a) == ToLower(b))
  }

  predicate InRange(c: char, r: Range, f: Flags) {
    || r.lo <= c <= r.hi
    || (f.caseBlind && ToLower(r.lo) <= ToLower(c) <= ToLower(r.hi))
  }

  predicate InUnion(c: char, rs: seq<Range>, f: Flags) {
    exists k | 0 <= k < |rs| :: InRange(c, rs[k], f)
  }

  /** Whether a one-character item stands for `c`. */
  predicate Accepts(it: Item, c: char, f: Flags)
    requires it.Single()
  {
    match it
    case Any => true
    case Lit(d) => SameChar(c, d, f)
    case Set(negated, rs) => InUnion(c, rs, f) != negated
  }

  /** Whether a segment separator, `/` or an escaped `/`, stands at `i`. */
  predicate SepAt(p: string, i: nat, f: Flags) {
    f.pathname && i < |p| && (p[i] == '/' || (f.Escape() && p[i] == '\\' && At(p, i + 1) == '/'))
  }

  // ---- Bracket expressions ----

  /** A character or range of a bracket expression whose first character is the
      unescaped one at `a`; None when it runs into the end or a separator. */
  function RangeAt(p: string, a: nat, f: Flags): (r: Option<(Range, nat)>)
    requires a < |p|
    ensures r.Some? ==> a < r.value.1 <= |p|
  {
    if At(p, a + 1) == '-' && At(p, a + 2) != ']' then
      var b := if f.Escape() && At(p, a + 2) == '\\' then a + 3 else a + 2;
      if b >= |p| || (f.pathname && p[b] == '/') then None
      else Some((Range(p[a], p[b]), b + 1))
    else Some((Range(p[a], p[a]), a + 1))
  }

  /** The ranges of a bracket expression from `i` up to its `]`, and the place
      after that `]`; None when the expression is not well formed. */
  function Elements(p: string, i: nat, f: Flags): (r: RangeList)
    requires i <= |p|
    ensures r.Some? ==> i < r.value.1 <= |p|
    decreases |p| - i, 0
  {
    if i == |p| then None
    else if p[i] == ']' then Some(([], i + 1))
    else
      var a := if f.Escape() && p[i] == '\\' then i + 1 else i;
      if a == |p| || (f.pathname && p[a] == '/') then None
      else Prepend(p, RangeAt(p, a, f), f)
  }

  /** `first` followed by the elements after it. */
  function Prepend(p: string, first: Option<(Range, nat)>, f: Flags): (r: RangeList)
    requires first.Some? ==> first.value.1 <= |p|
    ensures r.Some? ==> first.Some? && first.value.1 < r.value.1 <= |p|
    decreases if first.Some? then |p| - first.value.1 else 0, 1
  {
    if first.None? then None
    else
      var rest := Elements(p, first.value.1, f);
      if rest.None? then None
      else Some(([first.value.0] + rest.value.0, rest.value.1))
  }

  /** The place after `[` and an optional `!` or `^`. */
  function BodyStart(p: string, i: nat): nat {
    if At(p, i + 1) == '!' || At(p, i + 1) == '^' then i + 2 else i + 1
  }

  /** The bracket expression opening at `i`, and the place after it. A `]` right
      after the opening is an ordinary character. */
  function BracketAt(p: string, i: nat, f: Flags): (r: RangeList)
    requires i < |p|
    ensures r.Some? ==> BodyStart(p, i) < r.value.1 <= |p|
  {
    var k := BodyStart(p, i);
    if At(p, k) == ']' then Prepend(p, RangeAt(p, k, f), f) else Elements(p, k, f)
  }

  // ---- Items ----

  /** The item at `i` and the place after it. */
  function ItemAt(p: string, i: nat, f: Flags): (r: (Item, nat))
    requires i < |p|
    ensures i < r.1 <= |p|
    ensures r.0.Star? <==> p[i] == '*'
    ensures r.0.Sep? <==> SepAt(p, i, f)
  {
    if p[i] == '*' then (Star, i + 1)
    else if SepAt(p, i, f) then (Sep, if p[i] == '/' then i + 1 else i + 2)
    else if p[i] == '?' then (Any, i + 1)
    else if p[i] == '[' then
      var b := BracketAt(p, i, f);
      if b.Some? then (Set(BodyStart(p, i) == i + 2, b.value.0), b.value.1) else (Lit('['), i + 1)
    else if f.Escape() && p[i] == '\\' && i + 1 < |p| then (Lit(p[i + 1]), i + 2)
    else (Lit(p[i]), i + 1)
  }

  /** The items of the pattern from `i` on. */
  function Parse(p: string, i: nat, f: Flags): seq<Item>
    requires i <= |p|
    decreases |p| - i
  {
    if i == |p| then [] else
    var (it, n) := ItemAt(p, i, f);
    [it] + Parse(p, n, f)
  }
}
