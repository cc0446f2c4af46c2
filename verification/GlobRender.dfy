/**
 Every list of items can be written as a pattern, each character behind a backslash.
 */
module GlobRender {
  import opened Apr
  import opened GlobSyntax

  /** Items that can be written: escaping is on, brackets are not empty, and under
      APR_FNM_PATHNAME a slash stands only for a separator. */
  predicate Writable(it: Item, f: Flags) {
    match it
    case Sep => f.pathname
    case Lit(c) => f.pathname ==> c != '/'
    case Set(_, rs) => rs != [] && AllWritable(rs, f)
    case _ => true
  }

  predicate WritableRange(r: Range, f: Flags) {
    f.pathname ==> r.lo != '/' && r.hi != '/'
  }

  predicate AllWritable(rs: seq<Range>, f: Flags) {
    rs != [] ==> WritableRange(rs[0], f) && AllWritable(rs[1..], f)
  }

  function RenderRanges(rs: seq<Range>): string {
    if rs == [] then "]" else ['\\', rs[0].lo, '-', '\\', rs[0].hi] + RenderRanges(rs[1..])
  }

  function RenderItem(it: Item): (r: string)
    ensures r != ""
  {
    match it
    case Star => "*"
    case Sep => "/"
    case Any => "?"
    case Lit(c) => ['\\', c]
    case Set(negated, rs) => (if negated then "[!" else "[") + RenderRanges(rs)
  }

  function Render(items: seq<Item>): string {
    if items == [] then "" else RenderItem(items[0]) + Render(items[1..])
  }

  /** `w` stands at `i` in `p`. */
  predicate Holds(p: string, i: nat, w: string) {
    i + |w| <= |p| && p[i..i + |w|] == w
  }

  lemma WholeHolds(p: string, i: nat, w: string)
    requires i <= |p| && p[i..] == w
    ensures Holds(p, i, w)
  {
    assert p[i..i + |w|] == p[i..];
  }

  lemma HoldsToEnd(p: string, i: nat, w: string)
    requires Holds(p, i, w) && i + |w| == |p|
    ensures p[i..] == w
  {
    assert p[i..i + |w|] == p[i..];
  }

  lemma HoldsParts(p: string, i: nat, v: string, w: string)
    requires Holds(p, i, v + w)
    ensures Holds(p, i, v) && Holds(p, i + |v|, w)
    ensures forall k | 0 <= k < |v| :: p[i + k] == v[k]
  {
    var all := p[i..i + |v + w|];
    assert p[i..i + |v|] == all[..|v|] == (v + w)[..|v|] == v;
    assert p[i + |v|..i + |v + w|] == all[|v|..] == (v + w)[|v|..] == w;
    assert forall k | 0 <= k < |v| :: p[i + k] == all[k];
  }

  /** One range is read back. */
  lemma RangeReadsBack(p: string, i: nat, r: Range, f: Flags)
    requires f.Escape() && Holds(p, i, ['\\', r.lo, '-', '\\', r.hi]) && WritableRange(r, f)
    ensures i + 5 <= |p| && Elements(p, i, f) == Prepend(p, Some((r, i + 5)), f)
  {
    var head := ['\\', r.lo, '-', '\\', r.hi];
    assert forall k | 0 <= k < 5 :: p[i + k] == p[i..i + 5][k] == head[k];
    assert p[i + 0] == head[0] && p[i + 1] == head[1] && p[i + 2] == head[2];
    assert p[i + 3] == head[3] && p[i + 4] == head[4];
    hide Prepend;
    assert RangeAt(p, i + 1, f) == Some((r, i + 5));
  }

  lemma {:induction false} RangesReadBack(p: string, i: nat, rs: seq<Range>, f: Flags)
    requires f.Escape() && Holds(p, i, RenderRanges(rs))
    requires AllWritable(rs, f)
    ensures i <= |p| && Elements(p, i, f) == Some((rs, i + |RenderRanges(rs)|))
    decreases rs
  {
    hide Elements, WritableRange, Holds, RangeAt;
    if rs == [] {
      NoRanges(p, i, f);
    } else {
      HoldsParts(p, i, ['\\', rs[0].lo, '-', '\\', rs[0].hi], RenderRanges(rs[1..]));
      var e := i + |RenderRanges(rs)|;
      assert e == i + 5 + |RenderRanges(rs[1..])|;
      hide *;
      RangeReadsBack(p, i, rs[0], f);
      RangesReadBack(p, i + 5, rs[1..], f);
      OneInFront(p, rs[0], i + 5, rs[1..], e, f);
      assert rs == [rs[0]] + rs[1..];
    }
  }

  lemma NoRanges(p: string, i: nat, f: Flags)
    requires Holds(p, i, "]")
    ensures i < |p| && Elements(p, i, f) == Some(([], i + 1))
  {
    assert p[i..i + 1][0] == ']';
  }

  lemma OneInFront(p: string, r: Range, n: nat, rest: seq<Range>, e: nat, f: Flags)
    requires n <= |p| && Elements(p, n, f) == Some((rest, e))
    ensures Prepend(p, Some((r, n)), f) == Some(([r] + rest, e))
  {
    hide Elements;
  }

  lemma ItemReadsBack(p: string, i: nat, it: Item, f: Flags)
    requires f.Escape() && Writable(it, f) && Holds(p, i, RenderItem(it))
    ensures i < |p| && ItemAt(p, i, f) == (it, i + |RenderItem(it)|)
  {
    var w := RenderItem(it);
    assert forall k | 0 <= k < |w| :: p[i + k] == p[i..i + |w|][k] == w[k];
    assert p[i + 0] == w[0];
    hide BracketAt, BodyStart, RenderRanges, AllWritable;
    if it.Set? {
      SetReadsBack(p, i, it.negated, it.ranges, f);
    } else if it.Lit? {
      assert p[i + 1] == w[1];
    }
  }

  lemma SetReadsBack(p: string, i: nat, negated: bool, rs: seq<Range>, f: Flags)
    requires f.Escape() && rs != [] && AllWritable(rs, f)
    requires Holds(p, i, (if negated then "[!" else "[") + RenderRanges(rs))
    ensures i < |p| && p[i] == '[' && (BodyStart(p, i) == i + 2 <==> negated)
    ensures BracketAt(p, i, f) == Some((rs, i + (if negated then 2 else 1) + |RenderRanges(rs)|))
  {
    hide WritableRange, Elements, Prepend, Holds;
    var open := if negated then "[!" else "[";
    HoldsParts(p, i, open, RenderRanges(rs));
    RangesReadBack(p, i + |open|, rs, f);
    FirstBackslash(p, i + |open|, rs);
    assert p[i + 0] == open[0];
    if negated { assert p[i + 1] == open[1]; }
  }

  lemma FirstBackslash(p: string, i: nat, rs: seq<Range>)
    requires rs != [] && Holds(p, i, RenderRanges(rs))
    ensures i < |p| && p[i] == '\\'
  {
    assert p[i] == p[i..i + |RenderRanges(rs)|][0] == RenderRanges(rs)[0];
  }

  /** The first item is read back, and the others stand behind it. */
  lemma FirstReadsBack(p: string, i: nat, items: seq<Item>, f: Flags)
    requires f.Escape() && items != [] && Writable(items[0], f)
    requires i + |Render(items)| == |p| && p[i..] == Render(items)
    ensures var n := i + |RenderItem(items[0])|;
            && n + |Render(items[1..])| == |p| && p[n..] == Render(items[1..])
            && Parse(p, i, f) == [items[0]] + Parse(p, n, f)
  {
    hide ItemAt, RenderItem, Writable, Holds;
    var w, rest := RenderItem(items[0]), Render(items[1..]);
    assert Render(items) == w + rest;
    hide Render, Parse;
    WholeHolds(p, i, w + rest);
    HoldsParts(p, i, w, rest);
    ItemReadsBack(p, i, items[0], f);
    HoldsToEnd(p, i + |w|, rest);
    FirstItem(p, i, f);
  }

  lemma {:induction false} RenderReadsBackAt(p: string, i: nat, items: seq<Item>, f: Flags)
    requires f.Escape() && (forall k | 0 <= k < |items| :: Writable(items[k], f))
    requires i + |Render(items)| == |p| && p[i..] == Render(items)
    ensures Parse(p, i, f) == items
    decreases items
  {
    hide RenderItem, Writable;
    if items != [] {
      FirstReadsBack(p, i, items, f);
      hide *;
      assert forall k | 0 <= k < |items[1..]| :: items[1..][k] == items[k + 1];
      RenderReadsBackAt(p, i + |RenderItem(items[0])|, items[1..], f);
      assert items == [items[0]] + items[1..];
    }
  }

  lemma FirstItem(p: string, i: nat, f: Flags)
    requires i < |p|
    ensures Parse(p, i, f) == [ItemAt(p, i, f).0] + Parse(p, ItemAt(p, i, f).1, f)
  {
    hide ItemAt;
  }

  /** Writing a list of items and reading the pattern gives the list back. */
  lemma {:induction false} RenderReadsBack(items: seq<Item>, f: Flags)
    requires f.Escape() && (forall k | 0 <= k < |items| :: Writable(items[k], f))
    ensures Parse(Render(items), 0, f) == items
  {
    assert Render(items)[0..] == Render(items);
    RenderReadsBackAt(Render(items), 0, items, f);
  }
}
