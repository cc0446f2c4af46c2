/**
 The rings of apr_ring.h: circular doubly linked lists whose head takes the
 place of an element, the sentinel.

 The macros assign `next` and `prev` in place; here the sentinel is a node like any
 other, which is what the pointer arithmetic of APR_RING_SENTINEL arranges.
 */
module Ring {

  /** An element with its APR_RING_ENTRY, or the sentinel of a ring. */
  class Node {
    var next: Node?
    var prev: Node?

    constructor () {
      next, prev := null, null;
    }
  }

  predicate Distinct(c: seq<Node>) {
    forall i, j | 0 <= i < j < |c| :: c[i] != c[j]
  }

  predicate Apart(c: seq<Node>, d: seq<Node>) {
    forall x | x in c :: x !in d
  }

  lemma ApartPlaces(c: seq<Node>, d: seq<Node>)
    requires Apart(c, d)
    ensures forall i, j | 0 <= i < |c| && 0 <= j < |d| :: c[i] != d[j]
  {
    forall i, j | 0 <= i < |c| && 0 <= j < |d| ensures c[i] != d[j] {
      assert c[i] in c && d[j] in d;
    }
  }

  /** The member after place `i`, going round. */
  function After(c: seq<Node>, i: nat): Node
    requires i < |c|
  {
    if i + 1 == |c| then c[0] else c[i + 1]
  }

  /** `a` and `b` are neighbours in both directions. */
  predicate Joined(a: Node, b: Node)
    reads a, b
  {
    a.next == b && b.prev == a
  }

  /** The members of `c`, in this order, form one cycle. */
  ghost predicate IsCycle(c: seq<Node>)
    reads c
  {
    c != [] && Distinct(c) && forall i | 0 <= i < |c| :: Joined(c[i], After(c, i))
  }

  /** The members of `c` hang together; the two ends may dangle. */
  ghost predicate IsChain(c: seq<Node>)
    reads c
  {
    c != [] && Distinct(c) && forall i | 0 <= i < |c| - 1 :: Joined(c[i], c[i + 1])
  }

  /** The ring with sentinel `h` holds the elements `xs`. */
  ghost predicate IsRing(h: Node, xs: seq<Node>)
    reads [h] + xs
  {
    IsCycle([h] + xs)
  }

  /** Every link of a ring: from the head through the elements, none of which is there
      twice, and back to the head, in both directions. */
  lemma RingLinks(h: Node, xs: seq<Node>)
    requires IsRing(h, xs)
    ensures h !in xs && forall i, j | 0 <= i < j < |xs| :: xs[i] != xs[j]
    ensures h.next == if xs == [] then h else xs[0]
    ensures h.prev == if xs == [] then h else xs[|xs| - 1]
    ensures forall i | 0 <= i < |xs| :: xs[i].next == if i == |xs| - 1 then h else xs[i + 1]
    ensures forall i | 0 <= i < |xs| :: xs[i].prev == if i == 0 then h else xs[i - 1]
  {
    hide IsRing;
    EndLinks(h, xs);
    forall i | 0 <= i < |xs|
      ensures xs[i].next == if i == |xs| - 1 then h else xs[i + 1]
      ensures xs[i].prev == if i == 0 then h else xs[i - 1]
    {
      LinksAt(h, xs, i);
    }
  }

  lemma EndLinks(h: Node, xs: seq<Node>)
    requires IsRing(h, xs)
    ensures h !in xs && forall i, j | 0 <= i < j < |xs| :: xs[i] != xs[j]
    ensures h.next == if xs == [] then h else xs[0]
    ensures h.prev == if xs == [] then h else xs[|xs| - 1]
  {
    var c := [h] + xs;
    assert forall i | 0 <= i < |xs| :: c[i + 1] == xs[i];
    assert Joined(c[0], After(c, 0)) && Joined(c[|xs|], After(c, |xs|));
  }

  lemma LinksAt(h: Node, xs: seq<Node>, i: nat)
    requires IsRing(h, xs) && i < |xs|
    ensures xs[i].next == if i == |xs| - 1 then h else xs[i + 1]
    ensures xs[i].prev == if i == 0 then h else xs[i - 1]
  {
    var c := [h] + xs;
    assert Joined(c[i + 1], After(c, i + 1)) && Joined(c[i], After(c, i));
  }

  /** And nothing more is needed for a ring. */
  lemma LinksMakeRing(h: Node, xs: seq<Node>)
    requires h !in xs && forall i, j | 0 <= i < j < |xs| :: xs[i] != xs[j]
    requires xs == [] ==> h.next == h.prev == h
    requires xs != [] ==> h.next == xs[0] && xs[|xs| - 1].next == h
    requires xs != [] ==> h.prev == xs[|xs| - 1] && xs[0].prev == h
    requires forall i | 0 <= i < |xs| - 1 :: xs[i].next == xs[i + 1] && xs[i + 1].prev == xs[i]
    ensures IsRing(h, xs)
  {
    var c := [h] + xs;
    forall i | 0 <= i < |c| ensures Joined(c[i], After(c, i)) {
      if 0 < i < |xs| {
        assert c[i] == xs[i - 1] && c[i + 1] == xs[i - 1 + 1];
      }
    }
  }

  /** Every link within a chain. */
  lemma ChainLinks(c: seq<Node>)
    ensures IsChain(c) <==>
              && c != [] && (forall i, j | 0 <= i < j < |c| :: c[i] != c[j])
              && (forall i | 0 <= i < |c| - 1 :: c[i].next == c[i + 1] && c[i + 1].prev == c[i])
  {
    if IsChain(c) {
      forall i | 0 <= i < |c| - 1 ensures c[i].next == c[i + 1] && c[i + 1].prev == c[i] {
        assert Joined(c[i], c[i + 1]);
      }
    }
  }

  /** `ys` put into `c` in front of place `m`. */
  function Spliced(c: seq<Node>, m: nat, ys: seq<Node>): seq<Node>
    requires m <= |c|
  {
    c[..m] + ys + c[m..]
  }

  // ---- The macros ----

  /** APR_RING_INIT */
  method Init(h: Node)
    modifies h
    ensures IsRing(h, [])
  {
    h.next := h;
    h.prev := h;
  }

  /** APR_RING_ELEM_INIT */
  method ElemInit(ep: Node)
    modifies ep
    ensures IsChain([ep]) && ep.next == ep.prev == ep
  {
    ep.next := ep;
    ep.prev := ep;
  }

  /** APR_RING_EMPTY */
  method Empty(h: Node, ghost xs: seq<Node>) returns (empty: bool)
    requires IsRing(h, xs)
    ensures empty <==> xs == []
  {
    assert Joined(([h] + xs)[0], After([h] + xs, 0));
    empty := h.next == h;
  }

  /** The neighbours of place `m` of a cycle. */
  lemma Neighbours(c: seq<Node>, m: nat)
    requires IsCycle(c) && 0 < m <= |c|
    ensures Joined(c[m - 1], After(c, m - 1))
    ensures m < |c| ==> c[m - 1] != c[m]
  {
  }

  /** APR_RING_SPLICE_BEFORE: the place in front of the sentinel is the end of the ring. */
  method SpliceBefore(lep: Node, ep1: Node, epN: Node, ghost c: seq<Node>, ghost m: nat, ghost ys: seq<Node>)
    requires IsCycle(c) && 0 < m <= |c| && lep == After(c, m - 1)
    requires IsChain(ys) && ys[0] == ep1 && ys[|ys| - 1] == epN && Apart(c, ys)
    modifies lep, lep.prev, ep1, epN
    ensures IsCycle(Spliced(c, m, ys))
  {
    Neighbours(c, m);
    ApartPlaces(c, ys);
    epN.next := lep;
    ep1.prev := lep.prev;
    lep.prev.next := ep1;
    lep.prev := epN;
    SplicedIsCycle(c, m, ys);
  }

  /** APR_RING_SPLICE_AFTER */
  method SpliceAfter(lep: Node, ep1: Node, epN: Node, ghost c: seq<Node>, ghost m: nat, ghost ys: seq<Node>)
    requires IsCycle(c) && 0 < m <= |c| && lep == c[m - 1]
    requires IsChain(ys) && ys[0] == ep1 && ys[|ys| - 1] == epN && Apart(c, ys)
    modifies lep, lep.next, ep1, epN
    ensures IsCycle(Spliced(c, m, ys))
  {
    Neighbours(c, m);
    ApartPlaces(c, ys);
    ep1.prev := lep;
    epN.next := lep.next;
    lep.next.prev := epN;
    lep.next := ep1;
    SplicedIsCycle(c, m, ys);
  }

  /** Links all in place but for the gap that was opened: the whole is a cycle again. */
  lemma {:induction false} SplicedIsCycle(c: seq<Node>, m: nat, ys: seq<Node>)
    requires 0 < m <= |c| && ys != [] && Distinct(c) && Distinct(ys) && Apart(c, ys)
    requires forall i | 0 <= i < |c| && i != m - 1 :: Joined(c[i], After(c, i))
    requires forall i | 0 <= i < |ys| - 1 :: Joined(ys[i], ys[i + 1])
    requires Joined(c[m - 1], ys[0]) && Joined(ys[|ys| - 1], After(c, m - 1))
    ensures IsCycle(Spliced(c, m, ys))
  {
    ApartPlaces(c, ys);
    var d := Spliced(c, m, ys);
    forall i | 0 <= i < |d| ensures Joined(d[i], After(d, i)) {
      if i < m {
        assert d[i] == c[i];
      } else if i < m + |ys| {
        assert d[i] == ys[i - m];
      } else {
        assert d[i] == c[i - |ys|] && After(d, i) == After(c, i - |ys|);
      }
    }
  }

  /** APR_RING_UNSPLICE: the sequence keeps its links, the ring closes over the gap. */
  method Unsplice(ep1: Node, epN: Node, ghost c: seq<Node>, ghost a: nat, ghost b: nat)
    requires IsCycle(c) && 0 < a < b <= |c| && ep1 == c[a] && epN == c[b - 1]
    modifies ep1.prev, epN.next
    ensures IsCycle(c[..a] + c[b..]) && IsChain(c[a..b])
    ensures ep1.prev == old(ep1.prev) && epN.next == old(epN.next)
  {
    Neighbours(c, a);
    Neighbours(c, b);
    assert Joined(c[a - 1], c[a]) && Joined(c[b - 1], After(c, b - 1));
    assert forall i | 0 <= i < |c| && i != a - 1 && i != b - 1 :: Joined(c[i], After(c, i));
    ep1.prev.next := epN.next;
    epN.next.prev := ep1.prev;
    UnsplicedIsCycle(c, a, b);
  }

  lemma UnsplicedIsCycle(c: seq<Node>, a: nat, b: nat)
    requires 0 < a < b <= |c| && Distinct(c)
    requires forall i | 0 <= i < |c| && i != a - 1 && i != b - 1 :: Joined(c[i], After(c, i))
    requires Joined(c[a - 1], After(c, b - 1))
    ensures IsCycle(c[..a] + c[b..]) && IsChain(c[a..b])
  {
    var d, ys := c[..a] + c[b..], c[a..b];
    forall i | 0 <= i < |d| ensures Joined(d[i], After(d, i)) {
      if i < a {
        assert d[i] == c[i];
      } else {
        assert d[i] == c[i + b - a];
      }
    }
    forall i | 0 <= i < |ys| - 1 ensures Joined(ys[i], ys[i + 1]) {
      assert Joined(c[i + a], After(c, i + a));
    }
  }

  /** The elements of a ring are a chain. */
  lemma RingIsChain(h: Node, xs: seq<Node>)
    requires IsRing(h, xs) && xs != []
    ensures IsChain(xs) && h.next == xs[0] && h.prev == xs[|xs| - 1]
  {
    var c := [h] + xs;
    assert Joined(c[0], After(c, 0)) && Joined(c[|xs|], After(c, |xs|));
    forall i, j | 0 <= i < j < |xs| ensures xs[i] != xs[j] {
      assert c[i + 1] != c[j + 1];
    }
    forall i | 0 <= i < |xs| - 1 ensures Joined(xs[i], xs[i + 1]) {
      assert Joined(c[i + 1], After(c, i + 1));
    }
  }

  // ---- Macros built from these ----

  /** APR_RING_INSERT_TAIL, and APR_RING_SPLICE_TAIL for longer sequences. */
  method SpliceTail(h: Node, ep1: Node, epN: Node, ghost xs: seq<Node>, ghost ys: seq<Node>)
    requires IsRing(h, xs) && IsChain(ys) && ys[0] == ep1 && ys[|ys| - 1] == epN && Apart([h] + xs, ys)
    modifies h, h.prev, ep1, epN
    ensures IsRing(h, xs + ys)
  {
    SpliceBefore(h, ep1, epN, [h] + xs, |xs| + 1, ys);
    assert Spliced([h] + xs, |xs| + 1, ys) == [h] + (xs + ys);
  }

  /** APR_RING_INSERT_HEAD, and APR_RING_SPLICE_HEAD for longer sequences. */
  method SpliceHead(h: Node, ep1: Node, epN: Node, ghost xs: seq<Node>, ghost ys: seq<Node>)
    requires IsRing(h, xs) && IsChain(ys) && ys[0] == ep1 && ys[|ys| - 1] == epN && Apart([h] + xs, ys)
    modifies h, h.next, ep1, epN
    ensures IsRing(h, ys + xs)
  {
    SpliceAfter(h, ep1, epN, [h] + xs, 1, ys);
    assert Spliced([h] + xs, 1, ys) == [h] + (ys + xs);
  }

  /** APR_RING_REMOVE */
  method Remove(ep: Node, h: Node, ghost xs: seq<Node>, ghost k: nat)
    requires IsRing(h, xs) && k < |xs| && ep == xs[k]
    modifies ep.prev, ep.next
    ensures IsRing(h, xs[..k] + xs[k + 1..])
  {
    Unsplice(ep, ep, [h] + xs, k + 1, k + 2);
    assert ([h] + xs)[..k + 1] + ([h] + xs)[k + 2..] == [h] + (xs[..k] + xs[k + 1..]);
  }

  /** APR_RING_CONCAT */
  method Concat(h1: Node, h2: Node, ghost xs: seq<Node>, ghost ys: seq<Node>)
    requires IsRing(h1, xs) && IsRing(h2, ys) && Apart([h1] + xs, [h2] + ys)
    modifies h1, h1.prev, h2, h2.next, h2.prev
    ensures IsRing(h1, xs + ys) && IsRing(h2, [])
  {
    var empty := Empty(h2, ys);
    if empty {
      assert xs + ys == xs;
    } else {
      RingIsChain(h2, ys);
      assert Apart([h1] + xs, ys) by { TailApart([h1] + xs, h2, ys); }
      SpliceTail(h1, h2.next, h2.prev, xs, ys);
      assert h2 !in [h1] + (xs + ys) by { HeadApart([h1] + xs, h2, ys); }
      Init(h2);
    }
  }

  /** APR_RING_PREPEND */
  method Prepend(h1: Node, h2: Node, ghost xs: seq<Node>, ghost ys: seq<Node>)
    requires IsRing(h1, xs) && IsRing(h2, ys) && Apart([h1] + xs, [h2] + ys)
    modifies h1, h1.next, h2, h2.next, h2.prev
    ensures IsRing(h1, ys + xs) && IsRing(h2, [])
  {
    var empty := Empty(h2, ys);
    if empty {
      assert ys + xs == xs;
    } else {
      RingIsChain(h2, ys);
      assert Apart([h1] + xs, ys) by { TailApart([h1] + xs, h2, ys); }
      SpliceHead(h1, h2.next, h2.prev, xs, ys);
      assert h2 !in [h1] + (ys + xs) by { HeadApart([h1] + xs, h2, ys); }
      Init(h2);
    }
  }

  lemma TailApart(c: seq<Node>, h: Node, ys: seq<Node>)
    requires Apart(c, [h] + ys)
    ensures Apart(c, ys)
  {
    assert forall x | x in ys :: x in [h] + ys;
  }

  lemma HeadApart(c: seq<Node>, h: Node, ys: seq<Node>)
    requires Apart(c, [h] + ys) && Distinct([h] + ys)
    ensures h !in c && h !in ys
  {
    assert h in [h] + ys;
    forall x | x in ys ensures x != h {
      var i :| 0 <= i < |ys| && ys[i] == x;
      assert ([h] + ys)[0] != ([h] + ys)[i + 1];
    }
  }

  // ---- What a caller may rely on ----

  /** Taking out a sequence that was just spliced in leaves every link of the ring
      as it was. */
  method SpliceThenUnsplice(lep: Node, ep1: Node, epN: Node, ghost c: seq<Node>, ghost m: nat, ghost ys: seq<Node>)
    requires IsCycle(c) && 0 < m <= |c| && lep == After(c, m - 1)
    requires IsChain(ys) && ys[0] == ep1 && ys[|ys| - 1] == epN && Apart(c, ys)
    modifies lep, lep.prev, ep1, epN
    ensures forall i | 0 <= i < |c| :: c[i].next == old(c[i].next) && c[i].prev == old(c[i].prev)
    ensures IsCycle(c) && IsChain(ys)
  {
    hide IsCycle, Apart;
    label before:
    Neighbours(c, m);
    SpliceBefore(lep, ep1, epN, c, m, ys);
    SplicedEnds(c, m, ys);
    Unsplice(ep1, epN, Spliced(c, m, ys), m, m + |ys|);
    SameLinks@before(c);
  }

  /** Where the sequence ended up. */
  lemma SplicedEnds(c: seq<Node>, m: nat, ys: seq<Node>)
    requires 0 < m <= |c| && ys != [] && IsCycle(Spliced(c, m, ys))
    ensures var d := Spliced(c, m, ys);
            && d[m] == ys[0] && d[m + |ys| - 1] == ys[|ys| - 1]
            && d[..m] + d[m + |ys|..] == c && d[m..m + |ys|] == ys
    ensures ys[0].prev == c[m - 1] && ys[|ys| - 1].next == After(c, m - 1)
  {
    var d := Spliced(c, m, ys);
    assert Joined(d[m - 1], After(d, m - 1)) && Joined(d[m + |ys| - 1], After(d, m + |ys| - 1));
    assert d[..m] + d[m + |ys|..] == c;
  }

  /** The links of a ring are determined by the order of its members. */
  twostate lemma SameLinks(c: seq<Node>)
    requires old(IsCycle(c)) && IsCycle(c)
    ensures forall i | 0 <= i < |c| :: c[i].next == old(c[i].next) && c[i].prev == old(c[i].prev)
  {
    forall i | 0 <= i < |c| ensures c[i].next == old(c[i].next) && c[i].prev == old(c[i].prev) {
      var j := if i == 0 then |c| - 1 else i - 1;
      assert After(c, j) == c[i];
      assert Joined(c[i], After(c, i)) && Joined(c[j], After(c, j));
      assert old(Joined(c[i], After(c, i))) && old(Joined(c[j], After(c, j)));
    }
  }

  /** The members of `xs` outside `drop`, in order. */
  function Keep(xs: seq<Node>, drop: set<Node>): seq<Node> {
    if xs == [] then []
    else if xs[|xs| - 1] in drop then Keep(xs[..|xs| - 1], drop)
    else Keep(xs[..|xs| - 1], drop) + [xs[|xs| - 1]]
  }

  /** APR_RING_FOREACH_SAFE with a body that removes the elements it finds in
      `drop`: every element is visited once, in order, and the others stay. */
  method ForeachSafe(h: Node, drop: set<Node>, ghost xs: seq<Node>) returns (visited: seq<Node>)
    requires IsRing(h, xs)
    modifies h, xs
    ensures visited == xs
    ensures IsRing(h, Keep(xs, drop))
  {
    hide IsRing, Keep;
    visited := [];
    KeepNothing(drop);
    assert [] + xs == xs;
    ghost var kept, rest: seq<Node> := [], xs;
    FirstOfRest(h, kept, rest);
    var ep1: Node := h.next;
    RestLinks(h, kept, rest);
    var ep2: Node := ep1.next;
    while ep1 != h
      invariant visited + rest == xs && kept == Keep(visited, drop)
      invariant IsRing(h, kept + rest)
      invariant ep1 == (if rest == [] then h else rest[0])
      invariant ep2 == ep1.next
      invariant forall x | x in kept + rest :: x in xs
      decreases |rest|
    {
      RestLinks(h, kept, rest);
      KeepOne(visited, ep1, drop);
      OneVisited(visited, kept, rest, xs);
      if ep1 in drop {
        Remove(ep1, h, kept + rest, |kept|);
      } else {
        kept := kept + [ep1];
      }
      visited, rest := visited + [ep1], rest[1..];
      ep1 := ep2;
      RestLinks(h, kept, rest);
      ep2 := ep1.next;
    }
    RestLinks(h, kept, rest);
    assert visited == xs && kept + rest == kept;
  }

  /** The first of the rest moves to the visited ones, and is kept or not. */
  lemma OneVisited(visited: seq<Node>, kept: seq<Node>, rest: seq<Node>, xs: seq<Node>)
    requires rest != [] && visited + rest == xs
    requires forall x | x in kept + rest :: x in xs
    ensures (visited + [rest[0]]) + rest[1..] == xs
    ensures |kept| < |kept + rest| && (kept + rest)[|kept|] == rest[0]
    ensures (kept + rest)[..|kept|] + (kept + rest)[|kept| + 1..] == kept + rest[1..]
    ensures kept + rest == (kept + [rest[0]]) + rest[1..]
    ensures forall x | x in kept + rest[1..] :: x in xs
    ensures forall x | x in (kept + [rest[0]]) + rest[1..] :: x in xs
  {
    forall x | x in kept + rest[1..] ensures x in xs {
      assert x in kept || x in rest;
    }
  }

  lemma KeepNothing(drop: set<Node>)
    ensures Keep([], drop) == []
  {
  }

  lemma KeepOne(xs: seq<Node>, x: Node, drop: set<Node>)
    ensures Keep(xs + [x], drop) == if x in drop then Keep(xs, drop) else Keep(xs, drop) + [x]
  {
    assert (xs + [x])[..|xs|] == xs;
  }

  lemma FirstOfRest(h: Node, kept: seq<Node>, rest: seq<Node>)
    requires IsRing(h, kept + rest) && kept == []
    ensures h.next == if rest == [] then h else rest[0]
  {
    assert Joined(([h] + (kept + rest))[0], After([h] + (kept + rest), 0));
  }

  /** The links at the border between the elements kept and the rest. */
  lemma RestLinks(h: Node, kept: seq<Node>, rest: seq<Node>)
    requires IsRing(h, kept + rest)
    ensures h.next != null
    ensures rest != [] ==> rest[0] != h
                           && rest[0].next == (if |rest| == 1 then h else rest[1])
                           && rest[0].prev == (if kept == [] then h else kept[|kept| - 1])
                           && rest[0] in kept + rest
                           && (rest[0].next == h || rest[0].next in kept + rest)
                           && (rest[0].prev == h || rest[0].prev in kept + rest)
  {
    var c := [h] + (kept + rest);
    assert Joined(c[0], After(c, 0)) && Joined(c[|kept|], After(c, |kept|));
    if rest != [] {
      assert c[|kept| + 1] == rest[0] != c[0];
      assert Joined(c[|kept| + 1], After(c, |kept| + 1));
      assert (kept + rest)[|kept|] == rest[0];
      if |rest| > 1 { assert (kept + rest)[|kept| + 1] == rest[1]; }
      if kept != [] { assert (kept + rest)[|kept| - 1] == kept[|kept| - 1]; }
    }
  }

  // ---- The consistency check ----

  /** Nodes whose links stay among them. */
  ghost predicate Closed(all: set<Node>)
    reads all
  {
    forall x {:trigger Stays(x, all)} | x in all :: Stays(x, all)
  }

  ghost predicate Stays(x: Node, all: set<Node>)
    reads x
  {
    x.next != null && x.next in all && x.prev != null && x.prev in all
  }

  /** The cycle `c` read from its member `start` on. */
  ghost predicate CycleFrom(start: Node, c: seq<Node>)
    reads c
  {
    IsCycle(c) && c[0] == start
  }

  /** Nodes met one after the other, each joined to the one before it. */
  ghost predicate Walk(start: Node, path: seq<Node>, here: Node)
    reads path, here
  {
    && Distinct(path)
    && (forall i | 0 <= i < |path| - 1 :: Joined(path[i], path[i + 1]))
    && (path == [] ==> here == start)
    && (path != [] ==> path[0] == start && Joined(path[|path| - 1], here))
  }

  /** APR_RING_CHECK_ELEM_CONSISTENCY; false stands for a failing assertion. It
      holds exactly when the element lies on a cycle. */
  method CheckConsistency(start: Node, ghost all: set<Node>) returns (ok: bool)
    requires start in all && Closed(all)
    ensures ok <==> exists c: seq<Node> :: CycleFrom(start, c)
  {
    hide IsCycle, Distinct, Walk, CycleFrom;
    var here := start;
    ghost var path: seq<Node> := [];
    var again := true;
    EmptyWalk(start);
    while again
      invariant here in all && (forall x | x in path :: x in all)
      invariant Walk(start, path, here)
      invariant again <==> path == [] || here != start
      decreases |all| - |path|, again
    {
      assert Stays(here, all);
      NotSeenBefore(start, path, here);
      if here.next.prev != here || here.prev.next != here {
        NoCycleThrough(start, path, here);
        return false;
      }
      PathFits(path + [here], all);
      path := path + [here];
      here := here.next;
      again := here != start;
    }
    ClosedWalk(start, path, here);
    ok := true;
  }

  lemma EmptyWalk(start: Node)
    ensures Walk(start, [], start)
  {
  }

  /** A walk back at its start is a cycle. */
  lemma ClosedWalk(start: Node, path: seq<Node>, here: Node)
    requires Walk(start, path, here) && path != [] && here == start
    ensures CycleFrom(start, path)
  {
  }

  /** A walk along joined nodes that is not back at its start meets a new node. */
  lemma NotSeenBefore(start: Node, path: seq<Node>, here: Node)
    requires Walk(start, path, here) && (path != [] ==> here != start)
    ensures here !in path && Distinct(path + [here])
    ensures here.next != null && here.next.prev == here ==> Walk(start, path + [here], here.next)
  {
    forall x | x in path ensures x != here {
      var i :| 0 <= i < |path| && path[i] == x;
      if i > 0 { assert Joined(path[i - 1], path[i - 1 + 1]) && path[i - 1] != path[|path| - 1]; }
    }
  }

  lemma PathFits(path: seq<Node>, all: set<Node>)
    requires Distinct(path) && forall x | x in path :: x in all
    ensures |path| <= |all|
  {
    if path != [] {
      var last := path[|path| - 1];
      var front := path[..|path| - 1];
      forall x | x in front ensures x in all - {last} {
        var i :| 0 <= i < |front| && front[i] == x;
        assert path[i] != path[|path| - 1];
      }
      PathFits(front, all - {last});
    }
  }

  /** A walk from the start of a cycle stays on it. */
  lemma {:induction false} WalkOnCycle(c: seq<Node>, path: seq<Node>, k: nat)
    requires IsCycle(c) && k < |path| && path[0] == c[0]
    requires forall i | 0 <= i < |path| - 1 :: Joined(path[i], path[i + 1])
    requires forall i | 0 < i < |path| :: path[i] != c[0]
    ensures k < |c| && path[k] == c[k]
    decreases k
  {
    if k > 0 {
      WalkOnCycle(c, path, k - 1);
      assert Joined(path[k - 1], path[k - 1 + 1]) && Joined(c[k - 1], After(c, k - 1));
    }
  }

  lemma CycleLinks(c: seq<Node>, k: nat)
    requires IsCycle(c) && k < |c|
    ensures c[k].next != null && c[k].next.prev == c[k] && c[k].prev != null && c[k].prev.next == c[k]
  {
    var j := if k == 0 then |c| - 1 else k - 1;
    assert Joined(c[k], After(c, k)) && Joined(c[j], After(c, j));
  }

  /** A node whose links are not inverse lies on no cycle with the walk before it. */
  lemma NoCycleThrough(start: Node, path: seq<Node>, here: Node)
    requires here.next != null && here.prev != null && (here.next.prev != here || here.prev.next != here)
    requires Walk(start, path, here) && here !in path && (path != [] ==> here != start)
    ensures !exists c: seq<Node> :: CycleFrom(start, c)
  {
    var walk := path + [here];
    assert forall i | 0 <= i < |walk| - 1 :: Joined(walk[i], walk[i + 1]);
    forall c: seq<Node> ensures !CycleFrom(start, c) {
      if CycleFrom(start, c) {
        WalkOnCycle(c, walk, |path|);
        CycleLinks(c, |path|);
      }
    }
  }
}
