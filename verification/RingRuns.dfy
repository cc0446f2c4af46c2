/**
 Any run of ring macros over any number of rings: memory follows an account of sequences
 in which every node has one place.
 */
module RingRuns {
  import opened Ring

  /** What each ring holds, and the sequences that hang loose. */
  datatype State = State(rings: map<Node, seq<Node>>, loose: set<seq<Node>>)

  /** A macro call: the pointers it is given, and where in the account they lie. SplitOp is
      none: it takes one loose sequence for two, so that a part of it can be spliced in. */
  datatype Op =
    | InitOp(h: Node)
    | ElemInitOp(x: Node)
    | SpliceBeforeOp(lep: Node, ep1: Node, epN: Node, h: Node, m: nat, ys: seq<Node>)
    | SpliceAfterOp(lep: Node, ep1: Node, epN: Node, h: Node, m: nat, ys: seq<Node>)
    | UnspliceOp(ep1: Node, epN: Node, h: Node, a: nat, b: nat)
    | ConcatOp(h1: Node, h2: Node)
    | PrependOp(h1: Node, h2: Node)
    | SplitOp(c: seq<Node>, k: nat)

  /** The sentinel and the elements of ring `h`. */
  function Cycle(st: State, h: Node): seq<Node>
    requires h in st.rings
  {
    [h] + st.rings[h]
  }

  /** Every node has one place. */
  ghost predicate Tidy(st: State) {
    && (forall h | h in st.rings :: Distinct(Cycle(st, h)))
    && (forall c | c in st.loose :: c != [] && Distinct(c))
    && (forall h, g | h in st.rings && g in st.rings && h != g :: Apart(Cycle(st, h), Cycle(st, g)))
    && (forall c, d | c in st.loose && d in st.loose && c != d :: Apart(c, d))
    && (forall h, c | h in st.rings && c in st.loose :: Apart(Cycle(st, h), c))
  }

  /** The elements on rings or hanging loose. */
  ghost function Elements(st: State): set<Node> {
    (set h, x | h in st.rings && x in st.rings[h] :: x) + (set c, x | c in st.loose && x in c :: x)
  }

  ghost function Members(st: State): set<Node> {
    st.rings.Keys + Elements(st)
  }

  /** The links in memory are those of the account. */
  ghost predicate Linked(st: State)
    reads Members(st)
  {
    && (forall h | h in st.rings :: (forall x | x in Cycle(st, h) :: x in Members(st)) && IsCycle(Cycle(st, h)))
    && (forall c | c in st.loose :: (forall x | x in c :: x in Members(st)) && IsChain(c))
  }

  /** What the macros ask of their callers. A head that is initialised may be new, or
      that of a ring, which loses its elements; an element may be new or alone. */
  ghost predicate Enabled(st: State, op: Op) {
    match op
    case InitOp(h) => h in st.rings || h !in Members(st)
    case ElemInitOp(x) => x !in Members(st) || [x] in st.loose
    case SpliceBeforeOp(lep, ep1, epN, h, m, ys) =>
      && h in st.rings && ys in st.loose && ys != [] && ep1 == ys[0] && epN == ys[|ys| - 1]
      && 0 < m <= |Cycle(st, h)| && lep == After(Cycle(st, h), m - 1)
    case SpliceAfterOp(lep, ep1, epN, h, m, ys) =>
      && h in st.rings && ys in st.loose && ys != [] && ep1 == ys[0] && epN == ys[|ys| - 1]
      && 0 < m <= |Cycle(st, h)| && lep == Cycle(st, h)[m - 1]
    case UnspliceOp(ep1, epN, h, a, b) =>
      && h in st.rings && a < b <= |st.rings[h]| && ep1 == st.rings[h][a] && epN == st.rings[h][b - 1]
    case ConcatOp(h1, h2) => h1 in st.rings && h2 in st.rings && h1 != h2
    case PrependOp(h1, h2) => h1 in st.rings && h2 in st.rings && h1 != h2
    case SplitOp(c, k) => c in st.loose && 0 < k < |c|
  }

  /** The account after a call. */
  ghost function Apply(st: State, op: Op): State
    requires Enabled(st, op)
  {
    match op
    case InitOp(h) =>
      State(st.rings[h := []], if h !in st.rings || st.rings[h] == [] then st.loose else st.loose + {st.rings[h]})
    case ElemInitOp(x) => State(st.rings, st.loose + {[x]})
    case SpliceBeforeOp(_, _, _, h, m, ys) => State(st.rings[h := Spliced(st.rings[h], m - 1, ys)], st.loose - {ys})
    case SpliceAfterOp(_, _, _, h, m, ys) => State(st.rings[h := Spliced(st.rings[h], m - 1, ys)], st.loose - {ys})
    case UnspliceOp(_, _, h, a, b) =>
      State(st.rings[h := st.rings[h][..a] + st.rings[h][b..]], st.loose + {st.rings[h][a..b]})
    case ConcatOp(h1, h2) => State(st.rings[h1 := st.rings[h1] + st.rings[h2]][h2 := []], st.loose)
    case PrependOp(h1, h2) => State(st.rings[h1 := st.rings[h2] + st.rings[h1]][h2 := []], st.loose)
    case SplitOp(c, k) => State(st.rings, st.loose - {c} + {c[..k], c[k..]})
  }

  /** The heads and the elements a call initialises. */
  function Heads(op: Op): set<Node> {
    if op.InitOp? then {op.h} else {}
  }

  function Singles(op: Op): set<Node> {
    if op.ElemInitOp? then {op.x} else {}
  }

  // ---- No node is lost, none is in two places ----

  /** `x` is on a ring or hangs loose. */
  ghost predicate Somewhere(st: State, x: Node) {
    (exists h | h in st.rings :: x in st.rings[h]) || (exists c | c in st.loose :: x in c)
  }

  lemma ElementsAre(st: State)
    ensures forall x: Node :: x in Elements(st) <==> Somewhere(st, x)
  {
    forall x: Node ensures x in Elements(st) <==> Somewhere(st, x) {
      if x in Elements(st) {
        if x in (set h, y | h in st.rings && y in st.rings[h] :: y) {
          var h :| h in st.rings && x in st.rings[h];
        } else {
          var c :| c in st.loose && x in c;
        }
      }
    }
  }

  /** Two accounts that place the same elements hold the same elements. */
  lemma SameElements(st: State, to: State)
    requires forall x: Node :: Somewhere(st, x) <==> Somewhere(to, x)
    ensures Elements(st) == Elements(to)
  {
    ElementsAre(st);
    ElementsAre(to);
  }

  lemma {:induction false} InitTidy(st: State, h: Node)
    requires Tidy(st) && h in st.rings
    ensures Tidy(Apply(st, InitOp(h))) && Elements(Apply(st, InitOp(h))) == Elements(st)
  {
    var xs, to := st.rings[h], Apply(st, InitOp(h));
    InitElements(st, h);
    DistinctParts([h], xs);
    DistinctParts([h], []);
    hide Distinct, Elements;
    assert [h] + [] == Cycle(to, h) && h in Cycle(st, h);
    assert forall g | g in st.rings && g != h :: Cycle(to, g) == Cycle(st, g);
  }

  lemma InitElements(st: State, h: Node)
    requires h in st.rings
    ensures Elements(Apply(st, InitOp(h))) == Elements(st)
  {
    var xs, to := st.rings[h], Apply(st, InitOp(h));
    forall x: Node ensures Somewhere(st, x) <==> Somewhere(to, x) {
      if g :| g in st.rings && x in st.rings[g] {
        if g == h { assert xs in to.loose; } else { assert g in to.rings && to.rings[g] == st.rings[g]; }
      }
    }
    SameElements(st, to);
  }

  /** A node that has no place is apart from everything. */
  lemma Outside(st: State, x: Node)
    requires x !in Members(st)
    ensures forall g | g in st.rings :: Apart(Cycle(st, g), [x])
    ensures forall c | c in st.loose :: Apart(c, [x])
  {
    forall g | g in st.rings ensures Apart(Cycle(st, g), [x]) { CycleMembers(st, g); }
    forall c | c in st.loose ensures Apart(c, [x]) { LooseMembers(st, c); }
  }

  lemma {:induction false} NewRingTidy(st: State, h: Node)
    requires Tidy(st) && h !in Members(st)
    ensures Tidy(Apply(st, InitOp(h))) && Elements(Apply(st, InitOp(h))) == Elements(st)
  {
    var to := Apply(st, InitOp(h));
    assert Distinct([h]) && Cycle(to, h) == [h];
    Outside(st, h);
    assert forall g | g in st.rings :: g in to.rings && to.rings[g] == st.rings[g];
    forall x: Node ensures Somewhere(st, x) <==> Somewhere(to, x) {}
    SameElements(st, to);
    hide Distinct, Elements, Somewhere;
    assert forall g | g in st.rings :: Cycle(to, g) == Cycle(st, g);
  }

  /** An element that was nowhere hangs loose. */
  lemma {:induction false} ElemInitTidy(st: State, x: Node)
    requires Tidy(st) && Enabled(st, ElemInitOp(x))
    ensures Tidy(Apply(st, ElemInitOp(x))) && Elements(Apply(st, ElemInitOp(x))) == Elements(st) + {x}
  {
    var to := Apply(st, ElemInitOp(x));
    ElementsAre(st);
    ElementsAre(to);
    forall y: Node ensures y in Elements(to) <==> y in Elements(st) || y == x {
      assert [x] in to.loose && x in [x];
      assert Somewhere(to, y) <==> Somewhere(st, y) || y in [x];
    }
    assert Distinct([x]);
    if [x] in st.loose {
      assert to == st;
    } else {
      Outside(st, x);
      hide Distinct, Elements;
      assert forall g | g in st.rings :: Cycle(to, g) == Cycle(st, g);
    }
  }

  /** A sequence without repetition, in two parts. */
  lemma DistinctParts(c: seq<Node>, d: seq<Node>)
    ensures Distinct(c + d) <==> Distinct(c) && Distinct(d) && Apart(c, d)
  {
    if Distinct(c + d) {
      forall i, j | 0 <= i < j < |c| ensures c[i] != c[j] {
        assert (c + d)[i] == c[i] && (c + d)[j] == c[j];
      }
      forall i, j | 0 <= i < j < |d| ensures d[i] != d[j] {
        assert (c + d)[|c| + i] == d[i] && (c + d)[|c| + j] == d[j];
      }
      forall x | x in c ensures x !in d {
        var i :| 0 <= i < |c| && c[i] == x;
        forall j | 0 <= j < |d| ensures d[j] != x {
          assert (c + d)[i] == x && (c + d)[|c| + j] == d[j];
        }
      }
    }
    if Distinct(c) && Distinct(d) && Apart(c, d) {
      ApartPlaces(c, d);
    }
  }

  lemma SplicedMembers(h: Node, xs: seq<Node>, k: nat, ys: seq<Node>)
    requires k <= |xs| && Distinct([h] + xs) && Distinct(ys) && Apart([h] + xs, ys)
    ensures forall x :: x in Spliced(xs, k, ys) <==> x in xs || x in ys
    ensures Distinct([h] + Spliced(xs, k, ys))
  {
    hide Distinct;
    var front, back := [h] + xs[..k], xs[k..];
    assert xs == xs[..k] + back && [h] + xs == front + back;
    assert [h] + Spliced(xs, k, ys) == front + (ys + back);
    assert forall x | x in front :: x in [h] + xs;
    DistinctParts(front, back);
    DistinctParts(ys, back);
    DistinctParts(front, ys + back);
  }

  lemma SpliceTidy(st: State, h: Node, k: nat, ys: seq<Node>)
    requires Tidy(st) && h in st.rings && ys in st.loose && k <= |st.rings[h]|
    ensures var to := State(st.rings[h := Spliced(st.rings[h], k, ys)], st.loose - {ys});
            Tidy(to) && Elements(to) == Elements(st)
  {
    SplicedMembers(h, st.rings[h], k, ys);
    GlueTidy(st, h, Spliced(st.rings[h], k, ys), ys);
    GlueElements(st, h, Spliced(st.rings[h], k, ys), ys);
  }

  /** A loose sequence becomes part of a ring. */
  lemma GlueTidy(st: State, h: Node, all: seq<Node>, ys: seq<Node>)
    requires Tidy(st) && h in st.rings && ys in st.loose
    requires Distinct([h] + all) && forall x :: x in all <==> x in st.rings[h] || x in ys
    ensures Tidy(State(st.rings[h := all], st.loose - {ys}))
  {
    hide Distinct;
    var to := State(st.rings[h := all], st.loose - {ys});
    assert forall x :: x in Cycle(to, h) <==> x in Cycle(st, h) || x in ys;
    assert forall g | g in st.rings && g != h :: Cycle(to, g) == Cycle(st, g);
  }

  lemma GlueElements(st: State, h: Node, all: seq<Node>, ys: seq<Node>)
    requires h in st.rings && ys in st.loose && forall x :: x in all <==> x in st.rings[h] || x in ys
    ensures Elements(State(st.rings[h := all], st.loose - {ys})) == Elements(st)
  {
    var to := State(st.rings[h := all], st.loose - {ys});
    forall x: Node ensures Somewhere(st, x) <==> Somewhere(to, x) {
      assert h in to.rings;
      if g :| g in st.rings && x in st.rings[g] { assert g in to.rings && x in to.rings[g]; }
    }
    SameElements(st, to);
  }

  lemma CutMembers(h: Node, xs: seq<Node>, a: nat, b: nat)
    requires a < b <= |xs| && Distinct([h] + xs)
    ensures forall x :: x in xs <==> x in xs[..a] + xs[b..] || x in xs[a..b]
    ensures Distinct([h] + (xs[..a] + xs[b..])) && Distinct(xs[a..b])
    ensures Apart([h] + (xs[..a] + xs[b..]), xs[a..b])
  {
    hide Distinct;
    var front, ys, back := [h] + xs[..a], xs[a..b], xs[b..];
    assert xs == xs[..a] + (ys + back) && [h] + xs == front + (ys + back);
    assert [h] + (xs[..a] + back) == front + back;
    DistinctParts(front, ys + back);
    DistinctParts(ys, back);
    DistinctParts(front, back);
  }

  lemma {:induction false} UnspliceTidy(st: State, h: Node, a: nat, b: nat)
    requires Tidy(st) && h in st.rings && a < b <= |st.rings[h]|
    ensures var to := State(st.rings[h := st.rings[h][..a] + st.rings[h][b..]], st.loose + {st.rings[h][a..b]});
            Tidy(to) && Elements(to) == Elements(st)
  {
    var rest, ys := st.rings[h][..a] + st.rings[h][b..], st.rings[h][a..b];
    CutMembers(h, st.rings[h], a, b);
    CutTidy(st, h, rest, ys);
    CutElements(st, h, rest, ys);
  }

  /** A ring's members in two parts, one of them loose. */
  lemma CutTidy(st: State, h: Node, rest: seq<Node>, ys: seq<Node>)
    requires Tidy(st) && h in st.rings && ys != []
    requires forall x :: x in st.rings[h] <==> x in rest || x in ys
    requires Distinct([h] + rest) && Distinct(ys) && Apart([h] + rest, ys)
    ensures Tidy(State(st.rings[h := rest], st.loose + {ys}))
  {
    hide Distinct;
    var to := State(st.rings[h := rest], st.loose + {ys});
    assert forall x :: x in Cycle(st, h) <==> x in Cycle(to, h) || x in ys;
    assert forall g | g in st.rings && g != h :: Cycle(to, g) == Cycle(st, g);
  }

  lemma CutElements(st: State, h: Node, rest: seq<Node>, ys: seq<Node>)
    requires h in st.rings && forall x :: x in st.rings[h] <==> x in rest || x in ys
    ensures Elements(State(st.rings[h := rest], st.loose + {ys})) == Elements(st)
  {
    var to := State(st.rings[h := rest], st.loose + {ys});
    forall x: Node ensures Somewhere(st, x) <==> Somewhere(to, x) {
      assert h in to.rings && ys in to.loose;
      if g :| g in st.rings && x in st.rings[g] {
        assert g in to.rings && (g == h || to.rings[g] == st.rings[g]);
      }
    }
    SameElements(st, to);
  }

  /** A loose sequence in two parts. */
  lemma SplitTidy(st: State, c: seq<Node>, d: seq<Node>, e: seq<Node>)
    requires Tidy(st) && c in st.loose && c == d + e && d != [] && e != []
    ensures Tidy(State(st.rings, st.loose - {c} + {d, e}))
  {
    DistinctParts(d, e);
    hide Distinct;
    var to := State(st.rings, st.loose - {c} + {d, e});
    assert forall g | g in st.rings :: Cycle(to, g) == Cycle(st, g);
    assert forall x :: x in c <==> x in d || x in e;
    forall a, b | a in to.loose && b in to.loose && a != b ensures Apart(a, b) {
      if a in st.loose && b in st.loose { assert a != c || b != c; }
    }
  }

  lemma SplitElements(st: State, c: seq<Node>, d: seq<Node>, e: seq<Node>)
    requires c in st.loose && c == d + e
    ensures Elements(State(st.rings, st.loose - {c} + {d, e})) == Elements(st)
  {
    var to := State(st.rings, st.loose - {c} + {d, e});
    forall x: Node ensures Somewhere(st, x) <==> Somewhere(to, x) {
      assert d in to.loose && e in to.loose;
    }
    SameElements(st, to);
  }

  lemma MergedMembers(h: Node, xs: seq<Node>, g: Node, ys: seq<Node>)
    requires Distinct([h] + xs) && Distinct([g] + ys) && Apart([h] + xs, [g] + ys)
    ensures Distinct([h] + (xs + ys)) && Distinct([h] + (ys + xs))
  {
    DistinctParts([h], xs);
    DistinctParts([g], ys);
    hide Distinct;
    assert h in [h] + xs && (forall x | x in xs :: x in [h] + xs) && forall y | y in ys :: y in [g] + ys;
    DistinctParts(xs, ys);
    DistinctParts(ys, xs);
    DistinctParts([h], xs + ys);
    DistinctParts([h], ys + xs);
  }

  lemma MergeTidy(st: State, h: Node, g: Node, merged: seq<Node>)
    requires Tidy(st) && h in st.rings && g in st.rings && h != g
    requires merged == st.rings[h] + st.rings[g] || merged == st.rings[g] + st.rings[h]
    ensures Tidy(State(st.rings[h := merged][g := []], st.loose))
  {
    MergedMembers(h, st.rings[h], g, st.rings[g]);
    JoinTidy(st, h, g, merged);
  }

  /** One ring gets the members of two, the other none. */
  lemma JoinTidy(st: State, h: Node, g: Node, all: seq<Node>)
    requires Tidy(st) && h in st.rings && g in st.rings && h != g
    requires Distinct([h] + all) && forall x :: x in all <==> x in st.rings[h] || x in st.rings[g]
    ensures Tidy(State(st.rings[h := all][g := []], st.loose))
  {
    var to := State(st.rings[h := all][g := []], st.loose);
    assert Cycle(to, g) == [g] && Distinct([g]);
    hide Distinct, Apart;
    assert forall e | e in st.rings && e != h && e != g :: Cycle(to, e) == Cycle(st, e);
    forall e, d | e in to.rings && d in to.rings && e != d ensures Apart(Cycle(to, e), Cycle(to, d)) {
      JoinApart(st, h, g, all, e, d);
    }
    forall e, c | e in to.rings && c in to.loose ensures Apart(Cycle(to, e), c) {
      JoinLoose(st, h, g, all, e, c);
    }
  }

  lemma JoinLoose(st: State, h: Node, g: Node, all: seq<Node>, e: Node, c: seq<Node>)
    requires Tidy(st) && h in st.rings && g in st.rings && h != g && e in st.rings && c in st.loose
    requires forall x :: x in all <==> x in st.rings[h] || x in st.rings[g]
    ensures var to := State(st.rings[h := all][g := []], st.loose);
            Apart(Cycle(to, e), c)
  {
    assert Apart(Cycle(st, h), c) && Apart(Cycle(st, g), c) && Apart(Cycle(st, e), c);
    assert g in Cycle(st, g);
    hide Tidy, Distinct;
    var to := State(st.rings[h := all][g := []], st.loose);
    assert forall x | x in Cycle(to, e) :: x in Cycle(st, h) || x in Cycle(st, g) || x in Cycle(st, e);
  }

  lemma JoinApart(st: State, h: Node, g: Node, all: seq<Node>, e: Node, d: Node)
    requires Tidy(st) && h in st.rings && g in st.rings && h != g && e in st.rings && d in st.rings && e != d
    requires forall x :: x in all <==> x in st.rings[h] || x in st.rings[g]
    ensures var to := State(st.rings[h := all][g := []], st.loose);
            Apart(Cycle(to, e), Cycle(to, d))
  {
    GNotThere(st, h, g);
    OtherRing(st, h, g, e);
    OtherRing(st, h, g, d);
    if e != h && e != g && d != h && d != g { assert Apart(Cycle(st, e), Cycle(st, d)); }
    hide Tidy, Distinct;
    var to := State(st.rings[h := all][g := []], st.loose);
    assert forall x | x in Cycle(to, e) :: x !in Cycle(to, d);
  }

  lemma GNotThere(st: State, h: Node, g: Node)
    requires Tidy(st) && h in st.rings && g in st.rings && h != g
    ensures g !in Cycle(st, h) && g !in st.rings[g]
  {
    DistinctParts([g], st.rings[g]);
    assert Apart(Cycle(st, h), Cycle(st, g)) && g in Cycle(st, g) && g in [g];
  }

  /** A third ring shares nothing with two given ones. */
  lemma OtherRing(st: State, h: Node, g: Node, e: Node)
    requires Tidy(st) && h in st.rings && g in st.rings && e in st.rings
    ensures e != h && e != g ==> forall x | x in Cycle(st, e) :: x !in Cycle(st, h) && x !in Cycle(st, g)
  {
    if e != h && e != g { assert Apart(Cycle(st, e), Cycle(st, h)) && Apart(Cycle(st, e), Cycle(st, g)); }
  }

  lemma MergeElements(st: State, h: Node, g: Node, merged: seq<Node>)
    requires h in st.rings && g in st.rings && h != g
    requires merged == st.rings[h] + st.rings[g] || merged == st.rings[g] + st.rings[h]
    ensures Elements(State(st.rings[h := merged][g := []], st.loose)) == Elements(st)
  {
    var to := State(st.rings[h := merged][g := []], st.loose);
    forall x: Node ensures Somewhere(st, x) <==> Somewhere(to, x) {
      assert h in to.rings;
      if e :| e in st.rings && x in st.rings[e] { assert e in to.rings && (x in to.rings[e] || x in to.rings[h]); }
    }
    SameElements(st, to);
  }

  /** Every call keeps every node in one place and loses none; only the nodes it
      initialises may come in. */
  lemma {:induction false} ApplyTidy(st: State, op: Op)
    requires Tidy(st) && Enabled(st, op)
    ensures Tidy(Apply(st, op)) && Elements(Apply(st, op)) == Elements(st) + Singles(op)
    ensures Apply(st, op).rings.Keys == st.rings.Keys + Heads(op)
  {
    hide Tidy, Elements, Spliced;
    match op {
      case InitOp(h) => if h in st.rings { InitTidy(st, h); } else { NewRingTidy(st, h); }
      case ElemInitOp(x) => ElemInitTidy(st, x);
      case SpliceBeforeOp(_, _, _, h, m, ys) => SpliceTidy(st, h, m - 1, ys);
      case SpliceAfterOp(_, _, _, h, m, ys) => SpliceTidy(st, h, m - 1, ys);
      case UnspliceOp(_, _, h, a, b) => UnspliceTidy(st, h, a, b);
      case ConcatOp(h, g) =>
        MergeTidy(st, h, g, st.rings[h] + st.rings[g]);
        MergeElements(st, h, g, st.rings[h] + st.rings[g]);
      case PrependOp(h, g) =>
        MergeTidy(st, h, g, st.rings[g] + st.rings[h]);
        MergeElements(st, h, g, st.rings[g] + st.rings[h]);
      case SplitOp(c, k) =>
        SplitTidy(st, c, c[..k], c[k..]);
        SplitElements(st, c, c[..k], c[k..]);
    }
  }

  // ---- The calls carried out on memory ----

  lemma CycleMembers(st: State, h: Node)
    requires h in st.rings
    ensures forall x | x in Cycle(st, h) :: x in Members(st)
  {
    ElementsAre(st);
    forall x | x in st.rings[h] ensures x in Members(st) {
      assert Somewhere(st, x);
    }
  }

  lemma LooseMembers(st: State, c: seq<Node>)
    requires c in st.loose
    ensures forall x | x in c :: x in Members(st)
  {
    ElementsAre(st);
    forall x | x in c ensures x in Members(st) {
      assert Somewhere(st, x);
    }
  }

  lemma LinkedFrom(st: State)
    requires forall h | h in st.rings :: IsCycle(Cycle(st, h))
    requires forall c | c in st.loose :: IsChain(c)
    ensures Linked(st)
  {
    forall h | h in st.rings ensures forall x | x in Cycle(st, h) :: x in Members(st) { CycleMembers(st, h); }
    forall c | c in st.loose ensures forall x | x in c :: x in Members(st) { LooseMembers(st, c); }
  }

  /** A cycle none of whose members was written to. */
  twostate lemma StaysCycle(c: seq<Node>)
    requires old(IsCycle(c)) && unchanged(set x | x in c)
    ensures IsCycle(c)
  {
  }

  twostate lemma StaysChain(c: seq<Node>)
    requires old(IsChain(c)) && unchanged(set x | x in c)
    ensures IsChain(c)
  {
  }

  lemma NotTouched(c: seq<Node>, d: seq<Node>, touched: set<Node>)
    requires Apart(c, d) && (forall x | x in touched :: x in d)
    ensures forall x | x in c :: x !in touched
  {
  }

  /** What ring `h` and the sequence `ys` share with the rest: nothing. */
  lemma RestApart(st: State, h: Node, ys: seq<Node>)
    requires Tidy(st) && h in st.rings && (ys == [] || ys in st.loose)
    ensures forall g | g in st.rings && g != h :: Apart(Cycle(st, g), Cycle(st, h) + ys)
    ensures forall c | c in st.loose && c != ys :: Apart(c, Cycle(st, h) + ys)
  {
  }

  lemma LinkedGives(st: State)
    requires Linked(st)
    ensures forall h | h in st.rings :: IsCycle(Cycle(st, h))
    ensures forall c | c in st.loose :: IsChain(c)
  {
  }

  /** The nodes a splice writes to, and the sequence that comes out. */
  lemma {:induction false} SpliceGives(st: State, h: Node, m: nat, ys: seq<Node>)
    requires Tidy(st) && Linked(st) && h in st.rings && ys in st.loose && ys != []
    requires 0 < m <= |Cycle(st, h)|
    ensures var c := Cycle(st, h);
            && Joined(c[m - 1], After(c, m - 1)) && Apart(c, ys)
            && (forall x | x in {c[m - 1], After(c, m - 1), ys[0], ys[|ys| - 1]} :: x in Members(st) && x in c + ys)
            && Spliced(c, m, ys) == [h] + Spliced(st.rings[h], m - 1, ys)
  {
    hide IsCycle, IsChain, Distinct, Elements;
    CycleMembers(st, h);
    LooseMembers(st, ys);
    LinkedGives(st);
    Neighbours(Cycle(st, h), m);
    PlaceMembers(Cycle(st, h), m, ys);
  }

  lemma PlaceMembers(c: seq<Node>, m: nat, ys: seq<Node>)
    requires 0 < m <= |c| && ys != []
    ensures c[m - 1] in c && After(c, m - 1) in c && ys[0] in ys && ys[|ys| - 1] in ys
    ensures Spliced(c, m, ys) == [c[0]] + Spliced(c[1..], m - 1, ys)
  {
    var d := c[1..];
    assert c == [c[0]] + d && c[..m] == [c[0]] + d[..m - 1] && c[m..] == d[m - 1..];
  }

  method DoSpliceBefore(lep: Node, ep1: Node, epN: Node, ghost h: Node, ghost m: nat, ghost ys: seq<Node>,
                        ghost st: State)
    requires Tidy(st) && Linked(st) && Enabled(st, SpliceBeforeOp(lep, ep1, epN, h, m, ys))
    modifies Members(st)
    ensures Linked(Apply(st, SpliceBeforeOp(lep, ep1, epN, h, m, ys)))
  {
    hide IsCycle, IsChain, Distinct, Tidy, Elements, Members, Linked, Apart;
    label before:
    ghost var c, d := Cycle(st, h), Cycle(st, h) + ys;
    ghost var touched := {c[m - 1], After(c, m - 1), ep1, epN};
    LinkedGives(st);
    SpliceGives(st, h, m, ys);
    SpliceBefore(lep, ep1, epN, c, m, ys);
    RestApart(st, h, ys);
    ghost var to := Apply(st, SpliceBeforeOp(lep, ep1, epN, h, m, ys));
    forall g | g in to.rings ensures IsCycle(Cycle(to, g)) {
      if g != h {
        NotTouched(Cycle(st, g), d, touched);
        StaysCycle@before(Cycle(st, g));
      }
    }
    forall e | e in to.loose ensures IsChain(e) {
      NotTouched(e, d, touched);
      StaysChain@before(e);
    }
    LinkedFrom(to);
  }

  method DoSpliceAfter(lep: Node, ep1: Node, epN: Node, ghost h: Node, ghost m: nat, ghost ys: seq<Node>,
                       ghost st: State)
    requires Tidy(st) && Linked(st) && Enabled(st, SpliceAfterOp(lep, ep1, epN, h, m, ys))
    modifies Members(st)
    ensures Linked(Apply(st, SpliceAfterOp(lep, ep1, epN, h, m, ys)))
  {
    hide IsCycle, IsChain, Distinct, Tidy, Elements, Members, Linked, Apart;
    label before:
    ghost var c, d := Cycle(st, h), Cycle(st, h) + ys;
    ghost var touched := {c[m - 1], After(c, m - 1), ep1, epN};
    LinkedGives(st);
    SpliceGives(st, h, m, ys);
    SpliceAfter(lep, ep1, epN, c, m, ys);
    RestApart(st, h, ys);
    ghost var to := Apply(st, SpliceAfterOp(lep, ep1, epN, h, m, ys));
    forall g | g in to.rings ensures IsCycle(Cycle(to, g)) {
      if g != h {
        NotTouched(Cycle(st, g), d, touched);
        StaysCycle@before(Cycle(st, g));
      }
    }
    forall e | e in to.loose ensures IsChain(e) {
      NotTouched(e, d, touched);
      StaysChain@before(e);
    }
    LinkedFrom(to);
  }

  /** The nodes an unsplice writes to, and what it leaves. */
  lemma {:induction false} UnspliceGives(st: State, h: Node, a: nat, b: nat)
    requires Linked(st) && h in st.rings && a < b <= |st.rings[h]|
    ensures var c := Cycle(st, h);
            && c[a + 1] == st.rings[h][a] && c[b] == st.rings[h][b - 1]
            && Joined(c[a], c[a + 1]) && Joined(c[b], After(c, b))
            && (forall x | x in {c[a], After(c, b)} :: x in Members(st) && x in c)
            && c[..a + 1] + c[b + 1..] == [h] + (st.rings[h][..a] + st.rings[h][b..])
            && c[a + 1..b + 1] == st.rings[h][a..b]
  {
    hide IsCycle, IsChain, Distinct, Elements, Linked, Members;
    var c := Cycle(st, h);
    LinkedGives(st);
    CycleMembers(st, h);
    Neighbours(c, a + 1);
    Neighbours(c, b + 1);
    CutPlaces(h, st.rings[h], a, b);
    assert After(c, a) == c[a + 1];
    assert c[a] in c && After(c, b) in c;
  }

  lemma CutPlaces(h: Node, xs: seq<Node>, a: nat, b: nat)
    requires a < b <= |xs|
    ensures var c := [h] + xs;
            && c[a + 1] == xs[a] && c[b] == xs[b - 1]
            && c[..a + 1] + c[b + 1..] == [h] + (xs[..a] + xs[b..])
            && c[a + 1..b + 1] == xs[a..b]
  {
    var c := [h] + xs;
    assert c[..a + 1] == [h] + xs[..a] && c[b + 1..] == xs[b..];
  }

  method DoUnsplice(ep1: Node, epN: Node, ghost h: Node, ghost a: nat, ghost b: nat, ghost st: State)
    requires Tidy(st) && Linked(st) && Enabled(st, UnspliceOp(ep1, epN, h, a, b))
    modifies Members(st)
    ensures Linked(Apply(st, UnspliceOp(ep1, epN, h, a, b)))
  {
    hide IsCycle, IsChain, Distinct, Tidy, Elements, Members, Linked, Apart;
    label before:
    ghost var c := Cycle(st, h);
    ghost var touched := {c[a], After(c, b)};
    LinkedGives(st);
    UnspliceGives(st, h, a, b);
    Unsplice(ep1, epN, c, a + 1, b + 1);
    RestApart(st, h, []);
    assert c + [] == c;
    ghost var to := Apply(st, UnspliceOp(ep1, epN, h, a, b));
    forall g | g in to.rings ensures IsCycle(Cycle(to, g)) {
      if g != h {
        NotTouched(Cycle(st, g), c, touched);
        StaysCycle@before(Cycle(st, g));
      }
    }
    forall e | e in to.loose ensures IsChain(e) {
      if e in st.loose && e != [] {
        NotTouched(e, c, touched);
        StaysChain@before(e);
      }
    }
    LinkedFrom(to);
  }

  lemma InitGives(st: State, h: Node)
    requires Tidy(st) && Linked(st) && h in st.rings
    ensures h !in st.rings[h] && (st.rings[h] != [] ==> IsChain(st.rings[h]))
  {
    LinkedGives(st);
    if st.rings[h] != [] { RingIsChain(h, st.rings[h]); }
    assert Cycle(st, h)[1..] == st.rings[h] && Cycle(st, h)[0] == h;
  }

  /** What is apart from a head that is initialised: all other rings, and what hangs loose. */
  lemma HeadApart(st: State, h: Node)
    requires Tidy(st) && Enabled(st, InitOp(h))
    ensures forall g | g in st.rings && g != h :: Apart(Cycle(st, g), [h])
    ensures forall c | c in st.loose :: Apart(c, [h])
  {
    if h in st.rings {
      assert h in Cycle(st, h);
      RestApart(st, h, []);
    } else {
      Outside(st, h);
    }
  }

  method DoInit(h: Node, ghost st: State)
    requires Tidy(st) && Linked(st) && Enabled(st, InitOp(h))
    modifies h
    ensures Linked(Apply(st, InitOp(h)))
  {
    hide IsCycle, IsChain, Distinct, Tidy, Elements, Members, Linked, Apart;
    label before:
    LinkedGives(st);
    HeadApart(st, h);
    if h in st.rings { InitGives(st, h); }
    Init(h);
    ghost var to := Apply(st, InitOp(h));
    forall g | g in to.rings ensures IsCycle(Cycle(to, g)) {
      if g != h {
        NotTouched(Cycle(st, g), [h], {h});
        StaysCycle@before(Cycle(st, g));
      }
    }
    forall e | e in to.loose ensures IsChain(e) {
      if e in st.loose { NotTouched(e, [h], {h}); }
      StaysChain@before(e);
    }
    LinkedFrom(to);
  }

  /** What is apart from a node that is new or alone: everything else. */
  lemma AloneApart(st: State, x: Node)
    requires Tidy(st) && Enabled(st, ElemInitOp(x))
    ensures forall g | g in st.rings :: Apart(Cycle(st, g), [x])
    ensures forall c | c in st.loose && c != [x] :: Apart(c, [x])
  {
    if x !in Members(st) { Outside(st, x); }
  }

  method DoElemInit(x: Node, ghost st: State)
    requires Tidy(st) && Linked(st) && Enabled(st, ElemInitOp(x))
    modifies x
    ensures Linked(Apply(st, ElemInitOp(x)))
  {
    hide IsCycle, IsChain, Distinct, Tidy, Elements, Members, Linked, Apart;
    label before:
    LinkedGives(st);
    AloneApart(st, x);
    ElemInit(x);
    ghost var to := Apply(st, ElemInitOp(x));
    forall g | g in to.rings ensures IsCycle(Cycle(to, g)) {
      assert Cycle(to, g) == Cycle(st, g);
      NotTouched(Cycle(st, g), [x], {x});
      StaysCycle@before(Cycle(st, g));
    }
    forall e | e in to.loose ensures IsChain(e) {
      if e != [x] {
        NotTouched(e, [x], {x});
        StaysChain@before(e);
      }
    }
    LinkedFrom(to);
  }

  lemma RestApartTwo(st: State, h: Node, g: Node)
    requires Tidy(st) && h in st.rings && g in st.rings && h != g
    ensures forall e | e in st.rings && e != h && e != g :: Apart(Cycle(st, e), Cycle(st, h) + Cycle(st, g))
    ensures forall c | c in st.loose :: Apart(c, Cycle(st, h) + Cycle(st, g))
  {
    forall e | e in st.rings && e != h && e != g ensures Apart(Cycle(st, e), Cycle(st, h) + Cycle(st, g)) {
      OtherRing(st, h, g, e);
    }
  }

  /** The nodes a concatenation may write to. */
  lemma MergeGives(st: State, h: Node, g: Node)
    requires Tidy(st) && Linked(st) && h in st.rings && g in st.rings && h != g
    ensures Apart(Cycle(st, h), Cycle(st, g))
    ensures h.next != null && h.prev != null && g.next != null && g.prev != null
    ensures forall x | x in {h, h.next, h.prev, g, g.next, g.prev} ::
              x in Members(st) && x in Cycle(st, h) + Cycle(st, g)
  {
    HeadLinks(st, h);
    HeadLinks(st, g);
  }

  lemma HeadLinks(st: State, h: Node)
    requires Linked(st) && h in st.rings
    ensures h.next != null && h.prev != null
    ensures forall x | x in {h, h.next, h.prev} :: x in Members(st) && x in Cycle(st, h)
  {
    hide IsCycle, IsChain, Distinct, Elements;
    var c := Cycle(st, h);
    LinkedGives(st);
    CycleMembers(st, h);
    Neighbours(c, 1);
    Neighbours(c, |c|);
    PlaceMembers(c, 1, [h]);
    PlaceMembers(c, |c|, [h]);
  }

  method DoConcat(h: Node, g: Node, ghost st: State)
    requires Tidy(st) && Linked(st) && Enabled(st, ConcatOp(h, g))
    modifies Members(st)
    ensures Linked(Apply(st, ConcatOp(h, g)))
  {
    hide IsCycle, IsChain, Distinct, Tidy, Elements, Members, Linked, Apart;
    label before:
    ghost var c, d := Cycle(st, h), Cycle(st, g);
    ghost var touched := {h, h.prev, g, g.next, g.prev};
    LinkedGives(st);
    MergeGives(st, h, g);
    Concat(h, g, st.rings[h], st.rings[g]);
    RestApartTwo(st, h, g);
    ghost var to := Apply(st, ConcatOp(h, g));
    forall e | e in to.rings ensures IsCycle(Cycle(to, e)) {
      if e != h && e != g {
        NotTouched(Cycle(st, e), c + d, touched);
        StaysCycle@before(Cycle(st, e));
      }
    }
    forall e | e in to.loose ensures IsChain(e) {
      NotTouched(e, c + d, touched);
      StaysChain@before(e);
    }
    LinkedFrom(to);
  }

  method DoPrepend(h: Node, g: Node, ghost st: State)
    requires Tidy(st) && Linked(st) && Enabled(st, PrependOp(h, g))
    modifies Members(st)
    ensures Linked(Apply(st, PrependOp(h, g)))
  {
    hide IsCycle, IsChain, Distinct, Tidy, Elements, Members, Linked, Apart;
    label before:
    ghost var c, d := Cycle(st, h), Cycle(st, g);
    ghost var touched := {h, h.next, g, g.next, g.prev};
    LinkedGives(st);
    MergeGives(st, h, g);
    Prepend(h, g, st.rings[h], st.rings[g]);
    RestApartTwo(st, h, g);
    ghost var to := Apply(st, PrependOp(h, g));
    forall e | e in to.rings ensures IsCycle(Cycle(to, e)) {
      if e != h && e != g {
        NotTouched(Cycle(st, e), c + d, touched);
        StaysCycle@before(Cycle(st, e));
      }
    }
    forall e | e in to.loose ensures IsChain(e) {
      NotTouched(e, c + d, touched);
      StaysChain@before(e);
    }
    LinkedFrom(to);
  }

  /** The parts of a chain are chains. */
  lemma SplitLinked(st: State, c: seq<Node>, k: nat)
    requires Tidy(st) && Linked(st) && Enabled(st, SplitOp(c, k))
    ensures Linked(Apply(st, SplitOp(c, k)))
  {
    LinkedGives(st);
    var to := Apply(st, SplitOp(c, k));
    assert IsChain(c);
    assert IsChain(c[..k]) && IsChain(c[k..]);
    hide IsChain, IsCycle, Tidy;
    assert forall g | g in st.rings :: Cycle(to, g) == Cycle(st, g);
    LinkedFrom(to);
  }

  /** One macro call: memory follows the account. */
  method Step(op: Op, ghost st: State)
    requires Tidy(st) && Linked(st) && Enabled(st, op)
    modifies Members(st) + Heads(op) + Singles(op)
    ensures Tidy(Apply(st, op)) && Linked(Apply(st, op))
    ensures Members(Apply(st, op)) == Members(st) + Heads(op) + Singles(op)
  {
    hide Tidy, Linked, Elements;
    ApplyTidy(st, op);
    match op {
      case InitOp(h) => DoInit(h, st);
      case ElemInitOp(x) => DoElemInit(x, st);
      case SpliceBeforeOp(lep, ep1, epN, h, m, ys) => DoSpliceBefore(lep, ep1, epN, h, m, ys, st);
      case SpliceAfterOp(lep, ep1, epN, h, m, ys) => DoSpliceAfter(lep, ep1, epN, h, m, ys, st);
      case UnspliceOp(ep1, epN, h, a, b) => DoUnsplice(ep1, epN, h, a, b, st);
      case ConcatOp(h, g) => DoConcat(h, g, st);
      case PrependOp(h, g) => DoPrepend(h, g, st);
      case SplitOp(c, k) => SplitLinked(st, c, k);
    }
  }

  // ---- Runs ----

  ghost predicate AllEnabled(st: State, ops: seq<Op>)
    decreases |ops|
  {
    ops != [] ==> Enabled(st, ops[0]) && AllEnabled(Apply(st, ops[0]), ops[1..])
  }

  ghost function ApplyAll(st: State, ops: seq<Op>): State
    requires AllEnabled(st, ops)
    decreases |ops|
  {
    if ops == [] then st else ApplyAll(Apply(st, ops[0]), ops[1..])
  }

  /** The heads and the elements that a run initialises. */
  function AllHeads(ops: seq<Op>): set<Node> {
    if ops == [] then {} else Heads(ops[0]) + AllHeads(ops[1..])
  }

  function AllSingles(ops: seq<Op>): set<Node> {
    if ops == [] then {} else Singles(ops[0]) + AllSingles(ops[1..])
  }

  lemma RunFront(st: State, ops: seq<Op>, i: nat)
    requires i < |ops| && AllEnabled(st, ops[i..])
    ensures Enabled(st, ops[i]) && AllEnabled(Apply(st, ops[i]), ops[i + 1..])
    ensures ApplyAll(st, ops[i..]) == ApplyAll(Apply(st, ops[i]), ops[i + 1..])
    ensures AllHeads(ops[i..]) == Heads(ops[i]) + AllHeads(ops[i + 1..])
    ensures AllSingles(ops[i..]) == Singles(ops[i]) + AllSingles(ops[i + 1..])
  {
    hide Enabled, Apply, Heads, Singles;
    assert ops[i..][0] == ops[i] && ops[i..][1..] == ops[i + 1..];
  }

  lemma RunEnd(st: State, ops: seq<Op>)
    ensures ops[0..] == ops && ops[|ops|..] == [] && AllEnabled(st, []) && ApplyAll(st, []) == st
    ensures AllHeads([]) == {} == AllSingles([])
  {
  }

  /** Any run of calls: at its end memory is what the account says, every node still
      has one place, and the rings and the elements are those there were and those that
      were initialised. */
  method Run(ops: seq<Op>, ghost st: State)
    requires Tidy(st) && Linked(st) && AllEnabled(st, ops)
    modifies Members(st) + AllHeads(ops) + AllSingles(ops)
    ensures var end := ApplyAll(st, ops);
            && Tidy(end) && Linked(end)
            && end.rings.Keys == st.rings.Keys + AllHeads(ops) && Elements(end) == Elements(st) + AllSingles(ops)
  {
    hide Tidy, Linked, Elements, Enabled, Apply, AllEnabled, ApplyAll, AllHeads, AllSingles, Heads, Singles;
    var i: nat := 0;
    ghost var now := st;
    RunEnd(st, ops);
    while i < |ops|
      invariant i <= |ops|
      invariant Tidy(now) && Linked(now) && AllEnabled(now, ops[i..])
      invariant ApplyAll(st, ops) == ApplyAll(now, ops[i..])
      invariant now.rings.Keys + AllHeads(ops[i..]) == st.rings.Keys + AllHeads(ops)
      invariant Elements(now) + AllSingles(ops[i..]) == Elements(st) + AllSingles(ops)
    {
      RunFront(now, ops, i);
      ApplyTidy(now, ops[i]);
      Step(ops[i], now);
      now := Apply(now, ops[i]);
      i := i + 1;
    }
    RunEnd(now, ops);
  }

  /** From nothing: the rings and the elements are those initialised on the way. */
  method RunFromNothing(ops: seq<Op>)
    requires AllEnabled(State(map[], {}), ops)
    modifies AllHeads(ops) + AllSingles(ops)
    ensures var end := ApplyAll(State(map[], {}), ops);
            Tidy(end) && Linked(end) && end.rings.Keys == AllHeads(ops) && Elements(end) == AllSingles(ops)
  {
    NothingThere();
    hide *;
    Run(ops, State(map[], {}));
  }

  lemma NothingThere()
    ensures var st := State(map[], {});
            Tidy(st) && Linked(st) && Members(st) == {} == Elements(st) && st.rings.Keys == {}
  {
  }
}
