/**
  What the invariant of the B+tree means: the leaf chain is the in-order traversal, it
  lists the represented map in key order, and a well-filled tree is shallow.
 */
module BTreeTheorems {
  import opened Bytes
  import opened BTreeNodes
  import opened BTreeShape
  import opened BTreeSteps
  import opened BTreeClimb
  import opened BTreeLinks

  type Entry = (Bytes, Value)

  ghost function LeafEntries(r: Rec): (es: seq<Entry>)
    requires |r.vals| == |r.keys|
    ensures |es| == |r.keys|
  {
    seq(|r.keys|, i requires 0 <= i < |r.keys| => (r.keys[i], r.vals[i]))
  }

  /** The entries met when walking along the leaves `ls`. */
  ghost function Walk(g: map<Node, Rec>, ls: seq<Node>): seq<Entry>
    requires forall n :: n in ls ==> n in g && |g[n].vals| == |g[n].keys|
  {
    if ls == [] then [] else Walk(g, ls[..|ls| - 1]) + LeafEntries(g[ls[|ls| - 1]])
  }

  /** The entries below `n`, by recursion over the children. */
  ghost function InOrder(s: Shape, n: Node): seq<Entry>
    requires NodesOk(s.g) && n in s.g
    decreases s.g[n].rank, 0
  {
    assert NodeOk(s.g, n);
    if s.g[n].leaf then LeafEntries(s.g[n]) else KidsInOrder(s, n, |s.g[n].kids|)
  }

  /** The entries below the first `i` children of `n`. */
  ghost function KidsInOrder(s: Shape, n: Node, i: nat): seq<Entry>
    requires NodesOk(s.g) && n in s.g && !s.g[n].leaf && i <= |s.g[n].kids|
    decreases s.g[n].rank - 1, 1, i
  {
    assert NodeOk(s.g, n);
    if i == 0 then [] else
      assert ChildOk(s.g, n, i - 1);
      KidsInOrder(s, n, i - 1) + InOrder(s, s.g[n].kids[i - 1])
  }

  lemma WalkDefined(s: Shape)
    requires Inv(s)
    ensures forall n :: n in s.leaves ==> n in s.g && s.g[n].leaf && |s.g[n].vals| == |s.g[n].keys|
  {
    hide Pos, Holds, Hangs, RootOk, Sorted;
    forall n | n in s.leaves ensures n in s.g && s.g[n].leaf && |s.g[n].vals| == |s.g[n].keys| {
      var j :| 0 <= j < |s.leaves| && s.leaves[j] == n;
      assert LinkOk(s.g, s.leaves, j);
      assert NodeOk(s.g, n);
    }
  }

  lemma {:induction false} WalkConcat(g: map<Node, Rec>, a: seq<Node>, b: seq<Node>)
    requires forall n :: n in a || n in b ==> n in g && |g[n].vals| == |g[n].keys|
    ensures Walk(g, a + b) == Walk(g, a) + Walk(g, b)
  {
    if b == [] {
      assert a + b == a;
    } else {
      var b' := b[..|b| - 1];
      assert (a + b)[..|a + b| - 1] == a + b';
      WalkConcat(g, a, b');
    }
  }

  /** The leaves below `n` are a stretch of the chain. */
  lemma {:induction false} Span(s: Shape, n: Node) returns (a: nat, b: nat)
    requires Inv(s) && n in s.g
    ensures a < b <= |s.leaves| && (forall x :: x in s.leaves[a..b] ==> x in s.g && |s.g[x].vals| == |s.g[x].keys|)
    ensures s.leaves[a] in s.g && s.leaves[b - 1] in s.g && s.g[s.leaves[a]].lo == s.g[n].lo
    ensures s.g[s.leaves[b - 1]].hi == s.g[n].hi
    ensures InOrder(s, n) == Walk(s.g, s.leaves[a..b])
    decreases s.g[n].rank, 0
  {
    hide Pos, Sorted, Holds, Hangs, RootOk, Chain;
    WalkDefined(s);
    assert NodeOk(s.g, n);
    if s.g[n].leaf {
      a := LeafIndex(s, n);
      b := a + 1;
      assert s.leaves[a..b] == [n];
      assert Walk(s.g, [n]) == Walk(s.g, []) + LeafEntries(s.g[n]);
    } else {
      a, b := KidsSpan(s, n, |s.g[n].kids|);
      assert ChildOk(s.g, n, |s.g[n].keys|);
    }
  }

  lemma {:induction false} KidsSpan(s: Shape, n: Node, i: nat) returns (a: nat, b: nat)
    requires Inv(s) && n in s.g && !s.g[n].leaf && 0 < i <= |s.g[n].kids|
    ensures a < b <= |s.leaves| && (forall x :: x in s.leaves[a..b] ==> x in s.g && |s.g[x].vals| == |s.g[x].keys|)
    ensures s.leaves[a] in s.g && s.leaves[b - 1] in s.g && s.g[s.leaves[a]].lo == s.g[n].lo
    ensures s.g[n].kids[i - 1] in s.g && s.g[s.leaves[b - 1]].hi == s.g[s.g[n].kids[i - 1]].hi
    ensures KidsInOrder(s, n, i) == Walk(s.g, s.leaves[a..b])
    decreases s.g[n].rank - 1, 1, i
  {
    hide Pos, Sorted, Holds, Hangs, RootOk, Chain;
    WalkDefined(s);
    assert NodeOk(s.g, n);
    assert ChildOk(s.g, n, i - 1);
    var c, d := Span(s, s.g[n].kids[i - 1]);
    if i == 1 {
      a, b := c, d;
      assert KidsInOrder(s, n, 0) == [];
    } else {
      var e;
      a, e := KidsSpan(s, n, i - 1);
      assert ChildOk(s.g, n, i - 2);
      Meet(s, e, c);
      b := d;
      WalkConcat(s.g, s.leaves[a..e], s.leaves[c..d]);
      SlicesJoin(s.leaves, a, e, d);
    }
  }

  lemma SlicesJoin<T>(xs: seq<T>, a: nat, b: nat, c: nat)
    requires a <= b <= c <= |xs|
    ensures xs[a..b] + xs[b..c] == xs[a..c]
  {}

  /** Stretches of the chain whose ranges meet are consecutive. */
  lemma Meet(s: Shape, e: nat, c: nat)
    requires Inv(s) && 0 < e <= |s.leaves| && c < |s.leaves|
    requires s.leaves[e - 1] in s.g && s.leaves[c] in s.g && s.g[s.leaves[e - 1]].hi == s.g[s.leaves[c]].lo
    ensures e == c
  {
    hide Pos, Sorted, Holds, Hangs, RootOk, Chain;
    InvRanged(s);
    LeavesDistinct(s, e - 1, c);
    LeavesDistinct(s, c, e - 1);
    var x := Adjacent(s, s.leaves[e - 1], s.leaves[c]);
    LeavesOnce(s, x, e - 1);
    LeavesOnce(s, x + 1, c);
  }

  /** Walking the leaf chain visits the entries in the order of the recursive traversal from the root. */
  lemma ChainIsInOrder(s: Shape)
    requires Inv(s)
    ensures forall n :: n in s.leaves ==> n in s.g && |s.g[n].vals| == |s.g[n].keys|
    ensures s.root in s.g && InOrder(s, s.root) == Walk(s.g, s.leaves)
  {
    hide Pos, Sorted, Holds, Hangs;
    WalkDefined(s);
    var a, b := Span(s, s.root);
    InvRanged(s);
    assert LinkOk(s.g, s.leaves, a) && LinkOk(s.g, s.leaves, b - 1);
    assert a > 0 ==> LinkOk(s.g, s.leaves, 0) && Before(s.g, s.leaves[0], s.leaves[a]);
    var z := |s.leaves| - 1;
    assert b - 1 < z ==> LinkOk(s.g, s.leaves, z) && Before(s.g, s.leaves[b - 1], s.leaves[z]);
    assert s.leaves[a..b] == s.leaves;
  }

  // ----- the chain lists the map

  ghost predicate Ascending(es: seq<Entry>) {
    forall i, j :: 0 <= i < j < |es| ==> Pos(es[i].0) < Pos(es[j].0)
  }

  /** `es` lists exactly the entries of `m`, in key order. */
  ghost predicate Lists(es: seq<Entry>, m: map<Bytes, Value>) {
    && Ascending(es)
    && |es| == |m|
    && (forall i :: 0 <= i < |es| ==> es[i].0 in m && m[es[i].0] == es[i].1)
    && forall k :: k in m ==> (k, m[k]) in es
  }

  /** `es` lists the entries of `m` below position `x`. */
  ghost predicate ListsBelow(es: seq<Entry>, m: map<Bytes, Value>, x: real) {
    && Ascending(es)
    && (forall i :: 0 <= i < |es| ==> es[i].0 in m && m[es[i].0] == es[i].1 && Pos(es[i].0) < x)
    && forall k :: k in m && Pos(k) < x ==> (k, m[k]) in es
  }

  lemma AscendingMore(es: seq<Entry>, r: Rec)
    requires Ascending(es) && LeafOk(r) && forall i :: 0 <= i < |es| ==> Pos(es[i].0) < r.lo
    ensures Ascending(es + LeafEntries(r))
  {
    hide Pos, Sorted;
    var es' := es + LeafEntries(r);
    forall i, j | 0 <= i < j < |es'| ensures Pos(es'[i].0) < Pos(es'[j].0) {
      if i >= |es| { SortedAt(r.keys, i - |es|, j - |es|); }
    }
  }

  lemma ListsMore(es: seq<Entry>, m: map<Bytes, Value>, r: Rec)
    requires ListsBelow(es, m, r.lo) && LeafOk(r) && LeafHolds(r, m)
    ensures ListsBelow(es + LeafEntries(r), m, r.hi)
  {
    hide Pos, Sorted, Ascending;
    var es' := es + LeafEntries(r);
    AscendingMore(es, r);
    forall k | k in m && Pos(k) < r.hi ensures (k, m[k]) in es' {
      if Pos(k) < r.lo {
        var i :| 0 <= i < |es| && es[i] == (k, m[k]);
        assert es'[i] == (k, m[k]);
      } else {
        assert r.Covers(k);
        var i :| 0 <= i < |r.keys| && r.keys[i] == k;
        assert es'[|es| + i] == (k, m[k]);
      }
    }
  }

  lemma {:induction false} WalkLists(s: Shape, j: nat)
    requires Inv(s) && j <= |s.leaves|
    ensures forall n :: n in s.leaves[..j] ==> n in s.g && |s.g[n].vals| == |s.g[n].keys|
    ensures j > 0 ==> s.leaves[j - 1] in s.g
    ensures ListsBelow(Walk(s.g, s.leaves[..j]), s.m, if j == 0 then BOTTOM else s.g[s.leaves[j - 1]].hi)
  {
    hide Pos, Sorted, Holds, Hangs, RootOk, ListsBelow;
    WalkDefined(s);
    if j == 0 {
      NothingBelow(s.m);
    } else {
      WalkLists(s, j - 1);
      assert LinkOk(s.g, s.leaves, j - 1);
      var n := s.leaves[j - 1];
      LeafInvFacts(s, n);
      assert s.leaves[..j][..j - 1] == s.leaves[..j - 1];
      ListsMore(Walk(s.g, s.leaves[..j - 1]), s.m, s.g[n]);
    }
  }

  lemma NothingBelow(m: map<Bytes, Value>)
    ensures ListsBelow([], m, BOTTOM)
  {}

  lemma {:induction false} AscendingCount(es: seq<Entry>, ks: set<Bytes>)
    requires Ascending(es)
    requires forall i :: 0 <= i < |es| ==> es[i].0 in ks
    requires forall k :: k in ks ==> exists i :: 0 <= i < |es| && es[i].0 == k
    ensures |es| == |ks|
  {
    hide Pos;
    if es == [] {
      assert ks == {};
    } else {
      var z := |es| - 1;
      var es', ks' := es[..z], ks - {es[z].0};
      forall k | k in ks' ensures exists i :: 0 <= i < |es'| && es'[i].0 == k {
        var i :| 0 <= i < |es| && es[i].0 == k;
        assert es'[i].0 == k;
      }
      AscendingCount(es', ks');
    }
  }

  lemma ListsAll(es: seq<Entry>, m: map<Bytes, Value>)
    requires ListsBelow(es, m, TOP)
    ensures Lists(es, m)
  {
    hide Pos, Ascending;
    forall k | k in m ensures (k, m[k]) in es {
      PosBelowTop(k);
    }
    forall k | k in m.Keys ensures exists i :: 0 <= i < |es| && es[i].0 == k {
      var i :| 0 <= i < |es| && es[i] == (k, m[k]);
      assert es[i].0 == k;
    }
    AscendingCount(es, m.Keys);
  }

  /** In every valid tree, the leaf chain lists exactly the represented map, in key order. */
  lemma ChainListsMap(s: Shape)
    requires Inv(s)
    ensures forall n :: n in s.leaves ==> n in s.g && |s.g[n].vals| == |s.g[n].keys|
    ensures Lists(Walk(s.g, s.leaves), s.m)
  {
    hide Pos, Sorted, Holds, Hangs, RootOk, NodeOk, Lists, ListsBelow;
    WalkDefined(s);
    var z := |s.leaves|;
    WalkLists(s, z);
    assert s.leaves[..z] == s.leaves;
    assert LinkOk(s.g, s.leaves, z - 1);
    ListsAll(Walk(s.g, s.leaves), s.m);
  }

  lemma PosBelowTop(k: Bytes)
    ensures BOTTOM < Pos(k) < TOP
  {}

  // ----- a well-filled tree is shallow

  ghost function Power(b: nat, e: nat): nat {
    if e == 0 then 1 else b * Power(b, e - 1)
  }

  lemma {:induction false} FilledBelow(s: Shape, order: nat, n: Node)
    requires MIN_ORDER <= order && Inv(s) && Filled(s, order) && n in s.g && n != s.root
    ensures |InOrder(s, n)| >= MinFill(order) * Power(MinFill(order) + 1, s.g[n].rank)
    decreases s.g[n].rank, 0
  {
    hide Pos, Sorted, Holds, Hangs, RootOk, Chain;
    var m := MinFill(order);
    assert NodeOk(s.g, n);
    if !s.g[n].leaf {
      FilledKids(s, order, n, |s.g[n].kids|);
      var q := m * Power(m + 1, s.g[n].rank - 1);
      assert |s.g[n].kids| >= m + 1;
      MulAtLeast(|s.g[n].kids|, m + 1, q);
      assert (m + 1) * q == m * Power(m + 1, s.g[n].rank) by { MulShuffle(m, Power(m + 1, s.g[n].rank - 1)); }
    }
  }

  lemma {:induction false} FilledKids(s: Shape, order: nat, n: Node, i: nat)
    requires MIN_ORDER <= order && Inv(s) && Filled(s, order) && n in s.g && !s.g[n].leaf && i <= |s.g[n].kids|
    requires s.g[n].rank > 0
    ensures |KidsInOrder(s, n, i)| >= i * (MinFill(order) * Power(MinFill(order) + 1, s.g[n].rank - 1))
    decreases s.g[n].rank - 1, 1, i
  {
    hide Pos, Sorted, Holds, Hangs, RootOk, Chain;
    assert NodeOk(s.g, n);
    var q := MinFill(order) * Power(MinFill(order) + 1, s.g[n].rank - 1);
    if i > 0 {
      assert ChildOk(s.g, n, i - 1);
      var c := s.g[n].kids[i - 1];
      NotRoot(s, n, c);
      FilledKids(s, order, n, i - 1);
      FilledBelow(s, order, c);
      assert i * q == (i - 1) * q + q;
    }
  }

  lemma NotRoot(s: Shape, n: Node, c: Node)
    requires Inv(s) && n in s.g && c in s.g && s.g[c].parent == n
    ensures c != s.root
  {
    hide Pos, Chain, Holds, Hangs, NodeOk;
  }

  lemma MulAtLeast(a: nat, b: nat, q: nat)
    requires a >= b
    ensures a * q >= b * q
  {}

  lemma MulShuffle(m: nat, p: nat)
    ensures (m + 1) * (m * p) == m * ((m + 1) * p)
  {}

  lemma FilledHolds(s: Shape, order: nat, t: Tally)
    requires MIN_ORDER <= order && Inv(s) && Filled(s, order) && TallyOk(s, t) && t.height >= 2
    ensures |MapOf(s)| >= 2 * (MinFill(order) * Power(MinFill(order) + 1, t.height - 2))
  {
    hide Inv, Filled, MinFill, Power, InOrder;
    EntriesCounted(s);
    TwoKids(s, order, t);
    FilledKids(s, order, s.root, |s.g[s.root].kids|);
    MulAtLeast(|s.g[s.root].kids|, 2, MinFill(order) * Power(MinFill(order) + 1, t.height - 2));
  }

  lemma EntriesCounted(s: Shape)
    requires Inv(s)
    ensures s.root in s.g && |MapOf(s)| == |InOrder(s, s.root)|
  {
    hide Pos, Sorted, Holds, Hangs, Chain, InOrder;
    ChainListsMap(s);
    ChainIsInOrder(s);
  }

  lemma TwoKids(s: Shape, order: nat, t: Tally)
    requires Inv(s) && Filled(s, order) && TallyOk(s, t) && t.height >= 2
    ensures !s.g[s.root].leaf && s.g[s.root].rank == t.height - 1 && |s.g[s.root].kids| >= 2
    ensures InOrder(s, s.root) == KidsInOrder(s, s.root, |s.g[s.root].kids|)
  {
    hide Pos, Sorted, Holds, Hangs, Chain;
    assert NodeOk(s.g, s.root);
  }

  /**
    With `least` keys, half the order less one, in all nodes but the root, a tree of height `h >= 2`
    holds at least 2 least (least + 1)^(h - 2) keys.
   */
  lemma FilledTreeIsShallow(s: Shape, order: nat, t: Tally)
    requires 3 <= order && Inv(s) && AtLeast(s, (order + 1) / 2 - 1) && TallyOk(s, t) && t.height >= 2
    ensures var least := (order + 1) / 2 - 1; |MapOf(s)| >= 2 * (least * Power(least + 1, t.height - 2))
  {
    hide Inv, Filled, AtLeast, TallyOk, Power;
    FilledIs(s, order);
    FilledHolds(s, order, t);
  }

  /** The counter of inner nodes: the nodes that are not in the chain are exactly the inner ones. */
  lemma InnerNodesCounted(s: Shape, t: Tally)
    requires Inv(s) && TallyOk(s, t)
    ensures |set n | n in s.g && s.g[n].leaf| == t.leaves
    ensures |set n | n in s.g && !s.g[n].leaf| == t.nodes - t.leaves
  {
    hide Pos, Sorted, Holds, Hangs, RootOk, NodeOk;
    InvRanged(s);
    var ls, ins := (set n | n in s.g && s.g[n].leaf), (set n | n in s.g && !s.g[n].leaf);
    LeafSetSize(s, |s.leaves|);
    assert s.leaves[..|s.leaves|] == s.leaves;
    forall n | n in NodeSet(s.leaves) ensures n in ls {
      var j :| 0 <= j < |s.leaves| && s.leaves[j] == n;
      LeavesDistinct(s, j, j);
    }
    assert ls == NodeSet(s.leaves);
    assert ls + ins == s.g.Keys;
    assert |ls + ins| == |ls| + |ins|;
  }

  // ----- separators and depth, seen from the traversal

  ghost predicate InRange(es: seq<Entry>, lo: real, hi: real) {
    forall i :: 0 <= i < |es| ==> lo <= Pos(es[i].0) < hi
  }

  lemma {:induction false} RangeOf(s: Shape, n: Node)
    requires Inv(s) && n in s.g
    ensures InRange(InOrder(s, n), s.g[n].lo, s.g[n].hi)
    decreases s.g[n].rank, 0
  {
    hide Pos, Sorted, Holds, Hangs, RootOk, Chain;
    assert NodeOk(s.g, n);
    if !s.g[n].leaf {
      KidsRangeOf(s, n, |s.g[n].kids|);
    }
  }

  lemma {:induction false} KidsRangeOf(s: Shape, n: Node, i: nat)
    requires Inv(s) && n in s.g && !s.g[n].leaf && i <= |s.g[n].kids|
    ensures InRange(KidsInOrder(s, n, i), s.g[n].lo, s.g[n].hi)
    decreases s.g[n].rank - 1, 1, i
  {
    hide Pos, Sorted, Holds, Hangs, RootOk, Chain;
    assert NodeOk(s.g, n);
    if i > 0 {
      assert ChildOk(s.g, n, i - 1);
      KidsRangeOf(s, n, i - 1);
      RangeOf(s, s.g[n].kids[i - 1]);
    }
  }

  /** Every key below the child left of a separator is less than it, every key below the child right of it is not. */
  lemma SeparatorSplits(s: Shape, n: Node, i: nat, x: Entry, y: Entry)
    requires Inv(s) && InnerIn(s, n) && i < |s.g[n].keys| && i + 1 < |s.g[n].kids|
    requires s.g[n].kids[i] in s.g && x in InOrder(s, s.g[n].kids[i])
    requires s.g[n].kids[i + 1] in s.g && y in InOrder(s, s.g[n].kids[i + 1])
    ensures Compare(x.0, s.g[n].keys[i]) < 0 <= Compare(y.0, s.g[n].keys[i])
  {
    hide Pos, Compare, Sorted, Holds, Hangs, RootOk, Chain, InOrder;
    assert NodeOk(s.g, n);
    assert ChildOk(s.g, n, i) && ChildOk(s.g, n, i + 1);
    RangeOf(s, s.g[n].kids[i]);
    RangeOf(s, s.g[n].kids[i + 1]);
    CompareIsPos(x.0, s.g[n].keys[i]);
    CompareIsPos(y.0, s.g[n].keys[i]);
  }

  /** `ps` goes from the root down the children of its nodes. */
  ghost predicate IsDescent(s: Shape, ps: seq<Node>) {
    && |ps| > 0 && ps[0] == s.root
    && (forall i :: 0 <= i < |ps| ==> ps[i] in s.g)
    && forall i :: 0 < i < |ps| ==> ps[i] in s.g[ps[i - 1]].kids
  }

  lemma {:induction false} DescentRank(s: Shape, ps: seq<Node>)
    requires Inv(s) && IsDescent(s, ps)
    ensures s.g[ps[|ps| - 1]].rank + |ps| == s.g[s.root].rank + 1
  {
    hide Pos, Sorted, Holds, Hangs, RootOk, Chain;
    var z := |ps| - 1;
    if z > 0 {
      DescentRank(s, ps[..z]);
      var p := ps[z - 1];
      assert NodeOk(s.g, p) && ps[z] in s.g[p].kids;
      KidsBelow(s, p);
    }
  }

  /** All leaves are equally deep: every descent that ends in a leaf has as many nodes as the height says. */
  lemma UniformDepth(s: Shape, t: Tally, ps: seq<Node>)
    requires Inv(s) && TallyOk(s, t) && IsDescent(s, ps) && LeafIn(s, ps[|ps| - 1])
    ensures |ps| == t.height
  {
    hide Pos, Sorted, Holds, Hangs, RootOk, Chain;
    DescentRank(s, ps);
    assert NodeOk(s.g, ps[|ps| - 1]);
  }
}
