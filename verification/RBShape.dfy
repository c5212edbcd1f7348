/**
  The shape of a red-black tree as a value. The nodes are listed in key order, and every
  node knows which stretch of that list lies below it, so that links, order and
  completeness are local facts that rotations rearrange without touching the list.
 */
module RBShape {
  import opened Bytes

  /** A node of `kvstore_rbtree.c`; the links of the sentinel need not be set. */
  class Node {
    var red: bool
    var left: Node?
    var right: Node?
    var parent: Node?
    var key: Bytes
    var value: Bytes

    constructor (key: Bytes, value: Bytes)
      ensures this.key == key && this.value == value && !red && left == null && right == null && parent == null
    {
      this.key, this.value := key, value;
      red, left, right, parent := false, null, null, null;
    }
  }

  /** A node's fields; its place `p` in the list, the stretch `a..b` below it, and its black height. */
  datatype Rec = Rec(
    red: bool,
    left: Node?,
    right: Node?,
    parent: Node?,
    key: Bytes,
    value: Bytes,
    a: nat,
    b: nat,
    p: nat,
    bh: nat)
  {
    function Kid(l: bool): Node? {
      if l then left else right
    }

    function WithKid(l: bool, c: Node?): Rec {
      if l then this.(left := c) else this.(right := c)
    }

    function From(l: bool): nat {
      if l then a else p + 1
    }

    function To(l: bool): nat {
      if l then p else b
    }
  }

  datatype Shape = Shape(root: Node?, nil: Node, g: map<Node, Rec>, ns: seq<Node>)

  // ----- links and order

  ghost predicate KidOk(s: Shape, n: Node, l: bool)
    requires n in s.g
  {
    var r := s.g[n];
    var c := r.Kid(l);
    && (c == s.nil <==> r.From(l) == r.To(l))
    && (c != s.nil ==> c in s.g && s.g[c].parent == n && s.g[c].a == r.From(l) && s.g[c].b == r.To(l))
  }

  ghost predicate SpanOk(s: Shape, n: Node)
    requires n in s.g
  {
    s.g[n].a <= s.g[n].p < s.g[n].b <= |s.ns| && s.ns[s.g[n].p] == n
  }

  ghost predicate NodeOk(s: Shape, n: Node)
    requires n in s.g
  {
    SpanOk(s, n) && KidOk(s, n, true) && KidOk(s, n, false)
  }

  ghost predicate Hangs(s: Shape, n: Node)
    requires n in s.g
  {
    s.g[n].parent in s.g && (s.g[s.g[n].parent].left == n || s.g[s.g[n].parent].right == n)
  }

  ghost predicate RootOk(s: Shape) {
    if |s.ns| == 0 then s.root == s.nil
    else s.root in s.g && s.g[s.root].parent == s.nil && s.g[s.root].a == 0 && s.g[s.root].b == |s.ns|
  }

  ghost predicate Listed(s: Shape) {
    forall j :: 0 <= j < |s.ns| ==> s.ns[j] in s.g && s.g[s.ns[j]].p == j
  }

  ghost predicate Ordered(s: Shape)
    requires Listed(s)
  {
    forall i, j :: 0 <= i < j < |s.ns| ==> Pos(s.g[s.ns[i]].key) < Pos(s.g[s.ns[j]].key)
  }

  /** A binary search tree over the nodes of `ns`. */
  ghost predicate Tree(s: Shape) {
    && s.nil !in s.g
    && Listed(s) && Ordered(s)
    && RootOk(s)
    && (forall n {:trigger NodeOk(s, n)} :: n in s.g ==> NodeOk(s, n))
    && (forall n {:trigger Hangs(s, n)} :: n in s.g && n != s.root ==> Hangs(s, n))
  }

  // ----- rotations

  /** The node that a rotation of `x` towards `l` lifts above it. */
  ghost function Riser(s: Shape, x: Node, l: bool): Node?
    requires x in s.g
  {
    s.g[x].Kid(!l)
  }

  ghost predicate CanRotate(s: Shape, x: Node, l: bool) {
    x in s.g && Riser(s, x, l) != s.nil && Riser(s, x, l) in s.g && Riser(s, x, l) != x
  }

  ghost function Lowered(r: Rec, y: Node, ry: Rec, l: bool): Rec {
    var r1 := r.WithKid(!l, ry.Kid(l)).(parent := y);
    if l then r1.(b := ry.p) else r1.(a := ry.p + 1)
  }

  ghost function Lifted(r: Rec, x: Node, rx: Rec, l: bool): Rec {
    r.WithKid(l, x).(parent := rx.parent, a := rx.a, b := rx.b)
  }

  /** The records after rotating `x` towards `l`; black heights and colours stay as they are. */
  ghost function RotatedRec(s: Shape, x: Node, y: Node, l: bool, n: Node): Rec
    requires n in s.g && x in s.g && y in s.g
  {
    var rx, ry := s.g[x], s.g[y];
    if n == x then Lowered(rx, y, ry, l)
    else if n == y then Lifted(ry, x, rx, l)
    else if n == ry.Kid(l) then s.g[n].(parent := x)
    else if n == rx.parent then (if s.g[n].left == x then s.g[n].(left := y) else s.g[n].(right := y))
    else s.g[n]
  }

  ghost function Rotated(s: Shape, x: Node, l: bool): Shape
    requires CanRotate(s, x, l)
  {
    var y := Riser(s, x, l);
    Shape(if s.g[x].parent == s.nil then y else s.root, s.nil, map n | n in s.g :: RotatedRec(s, x, y, l, n), s.ns)
  }

  /** How the nodes around a rotation are related. */
  lemma RotationFacts(s: Shape, x: Node, l: bool)
    requires Tree(s) && x in s.g && s.g[x].Kid(!l) != s.nil
    ensures CanRotate(s, x, l)
    ensures var y := Riser(s, x, l);
      var ry := s.g[y]; var rx := s.g[x];
      && ry.parent == x && ry.Kid(l) != x && ry.Kid(l) != y
      && rx.parent != x && rx.parent != y
      && (ry.Kid(l) != s.nil ==> ry.Kid(l) in s.g && rx.parent != ry.Kid(l))
      && NodeOk(s, x) && NodeOk(s, y)
      && (x == s.root <==> rx.parent == s.nil)
      && (x != s.root ==> rx.parent in s.g && Hangs(s, x) && NodeOk(s, rx.parent))
      && (x != s.root ==> s.g[rx.parent].b - s.g[rx.parent].a > rx.b - rx.a)
  {
    hide Pos, Ordered;
    assert NodeOk(s, x);
    var y := Riser(s, x, l);
    assert NodeOk(s, y);
    var c := s.g[y].Kid(l);
    assert c != s.nil ==> NodeOk(s, c);
    assert x != s.root ==> Hangs(s, x);
    assert x != s.root ==> NodeOk(s, s.g[x].parent);
  }

  /** What the parent of a node sees of it. */
  ghost predicate SameFace(r: Rec, q: Rec) {
    r.parent == q.parent && r.a == q.a && r.b == q.b
  }

  lemma KidFrame(s: Shape, s': Shape, n: Node, l: bool)
    requires n in s.g && n in s'.g && KidOk(s, n, l) && s'.nil == s.nil
    requires s'.g[n].Kid(l) == s.g[n].Kid(l) && s'.g[n].From(l) == s.g[n].From(l) && s'.g[n].To(l) == s.g[n].To(l)
    requires var c := s.g[n].Kid(l); c != s.nil && c in s.g ==> c in s'.g && SameFace(s.g[c], s'.g[c])
    ensures KidOk(s', n, l)
  {}

  /** The records after a rotation, case by case. */
  lemma RotatedAt(s: Shape, x: Node, l: bool, n: Node)
    requires Tree(s) && x in s.g && s.g[x].Kid(!l) != s.nil && CanRotate(s, x, l) && n in s.g
    ensures var s' := Rotated(s, x, l);
      var y := Riser(s, x, l);
      var d := s.g[y].Kid(l);
      && s'.nil == s.nil && s'.ns == s.ns && s'.g.Keys == s.g.Keys
      && s'.root == (if x == s.root then y else s.root)
      && (n == x ==> s'.g[n] == Lowered(s.g[x], y, s.g[y], l))
      && (n == y ==> s'.g[n] == Lifted(s.g[y], x, s.g[x], l))
      && (n == d ==> s'.g[n] == s.g[n].(parent := x))
      && (n == s.g[x].parent && s.g[n].left == x ==> s'.g[n] == s.g[n].(left := y))
      && (n == s.g[x].parent && s.g[n].left != x ==> s'.g[n] == s.g[n].(right := y) && s.g[n].right == x)
      && (n != x && n != y && n != d && n != s.g[x].parent ==> s'.g[n] == s.g[n])
      && s'.g[n].key == s.g[n].key && s'.g[n].value == s.g[n].value && s'.g[n].red == s.g[n].red
      && s'.g[n].bh == s.g[n].bh && s'.g[n].p == s.g[n].p
  {
    hide Pos, Ordered, Listed, RootOk, NodeOk;
    RotationFacts(s, x, l);
  }

  lemma RotatedX(s: Shape, x: Node, l: bool)
    requires Tree(s) && x in s.g && s.g[x].Kid(!l) != s.nil && CanRotate(s, x, l)
    ensures NodeOk(Rotated(s, x, l), x)
  {
    hide Pos, Ordered, Listed, RootOk, Hangs;
    RotationFacts(s, x, l);
    var s', y := Rotated(s, x, l), Riser(s, x, l);
    assert s'.g[x] == Lowered(s.g[x], y, s.g[y], l);
    var c, d := s.g[x].Kid(l), s.g[y].Kid(l);
    assert c != s.nil ==> NodeOk(s, c);
    assert c != s.nil ==> c != x && c != y && c != d && c != s.g[x].parent;
    KidFrame(s, s', x, l);
    assert KidOk(s', x, !l);
  }

  lemma RotatedY(s: Shape, x: Node, l: bool)
    requires Tree(s) && x in s.g && s.g[x].Kid(!l) != s.nil && CanRotate(s, x, l)
    ensures NodeOk(Rotated(s, x, l), Riser(s, x, l))
  {
    hide Pos, Ordered, Listed, RootOk, Hangs;
    RotationFacts(s, x, l);
    var s', y := Rotated(s, x, l), Riser(s, x, l);
    assert s'.g[y] == Lifted(s.g[y], x, s.g[x], l);
    var c, d := s.g[y].Kid(!l), s.g[y].Kid(l);
    assert c != s.nil ==> NodeOk(s, c);
    assert c != s.nil ==> c != x && c != y && c != d && c != s.g[x].parent;
    KidFrame(s, s', y, !l);
    assert KidOk(s', y, l);
  }

  /** The parent of `x` gets the risen node in the slot of `x`. */
  lemma RotatedAbove(s: Shape, x: Node, l: bool, n: Node, k: bool)
    requires Tree(s) && x in s.g && s.g[x].Kid(!l) != s.nil && CanRotate(s, x, l)
    requires n in s.g && n != x && n != Riser(s, x, l) && s.g[n].Kid(k) == x && KidOk(s, n, k) && NodeOk(s, n)
    ensures KidOk(Rotated(s, x, l), n, k)
  {
    hide Pos, Ordered, Listed, RootOk, Rotated, Hangs;
    RotationFacts(s, x, l);
    var y := Riser(s, x, l);
    RotatedAt(s, x, l, n);
    RotatedAt(s, x, l, y);
    assert s.g[n].left != s.g[n].right;
  }

  lemma RotatedKid(s: Shape, x: Node, l: bool, n: Node, k: bool)
    requires Tree(s) && x in s.g && s.g[x].Kid(!l) != s.nil && CanRotate(s, x, l)
    requires n in s.g && n != x && n != Riser(s, x, l)
    ensures KidOk(Rotated(s, x, l), n, k)
  {
    hide Pos, Ordered, Listed, RootOk, Rotated, Hangs;
    RotationFacts(s, x, l);
    assert NodeOk(s, n);
    var s', y := Rotated(s, x, l), Riser(s, x, l);
    var c := s.g[n].Kid(k);
    RotatedAt(s, x, l, n);
    RotatedAt(s, x, l, y);
    if c == x {
      RotatedAbove(s, x, l, n, k);
    } else {
      if c != s.nil { RotatedAt(s, x, l, c); }
      KidFrame(s, s', n, k);
    }
  }

  lemma RotatedNodeOk(s: Shape, x: Node, l: bool, n: Node)
    requires Tree(s) && x in s.g && s.g[x].Kid(!l) != s.nil && n in s.g && CanRotate(s, x, l)
    ensures NodeOk(Rotated(s, x, l), n)
  {
    hide Pos, Ordered, Listed, RootOk, Hangs, KidOk;
    if n == x {
      RotatedX(s, x, l);
    } else if n == Riser(s, x, l) {
      RotatedY(s, x, l);
    } else {
      assert NodeOk(s, n);
      RotatedKid(s, x, l, n, true);
      RotatedKid(s, x, l, n, false);
    }
  }

  lemma RotatedHangs(s: Shape, x: Node, l: bool, n: Node)
    requires Tree(s) && x in s.g && s.g[x].Kid(!l) != s.nil && n in s.g && CanRotate(s, x, l)
    requires n != Rotated(s, x, l).root
    ensures Hangs(Rotated(s, x, l), n)
  {
    hide Pos, Ordered, Listed, RootOk, Rotated, NodeOk;
    RotationFacts(s, x, l);
    var y := Riser(s, x, l);
    RotatedAt(s, x, l, n);
    RotatedAt(s, x, l, x);
    RotatedAt(s, x, l, y);
    if x != s.root { RotatedAt(s, x, l, s.g[x].parent); }
    assert n != s.root ==> Hangs(s, n);
    var q := s.g[n].parent;
    if n != x && n != y && n != s.g[y].Kid(l) {
      RotatedAt(s, x, l, q);
    }
  }

  lemma RotatedRest(s: Shape, x: Node, l: bool)
    requires Tree(s) && x in s.g && s.g[x].Kid(!l) != s.nil && CanRotate(s, x, l)
    ensures var s' := Rotated(s, x, l); s'.nil !in s'.g && Listed(s') && Ordered(s') && RootOk(s')
  {
    hide Pos, Hangs, Rotated;
    var s' := Rotated(s, x, l);
    RotationFacts(s, x, l);
    RotatedAt(s, x, l, x);
    RotatedAt(s, x, l, Riser(s, x, l));
    forall j | 0 <= j < |s.ns| ensures s.ns[j] in s'.g && s'.g[s.ns[j]].p == j
      && s'.g[s.ns[j]].key == s.g[s.ns[j]].key {
      RotatedAt(s, x, l, s.ns[j]);
    }
    if x != s.root { RotatedAt(s, x, l, s.root); }
  }

  /** A rotation keeps the search tree and its list of nodes. */
  lemma RotatedTree(s: Shape, x: Node, l: bool)
    requires Tree(s) && x in s.g && s.g[x].Kid(!l) != s.nil
    ensures CanRotate(s, x, l) && Tree(Rotated(s, x, l))
  {
    hide Pos, NodeOk, Hangs, Rotated, RootOk, Ordered;
    RotationFacts(s, x, l);
    RotatedRest(s, x, l);
    RotatedAt(s, x, l, x);
    var s' := Rotated(s, x, l);
    forall n | n in s'.g ensures NodeOk(s', n) {
      RotatedNodeOk(s, x, l, n);
    }
    forall n | n in s'.g && n != s'.root ensures Hangs(s', n) {
      RotatedHangs(s, x, l, n);
    }
  }

  // ----- colours and black heights

  ghost predicate IsRed(s: Shape, c: Node?) {
    c in s.g && s.g[c].red
  }

  ghost function BH(s: Shape, c: Node?): nat {
    if c in s.g then s.g[c].bh else 0
  }

  /** Where, if anywhere, the paths on one side of a node are one black node short. */
  datatype Gap = NoGap | Gap(at: Node, l: bool)

  ghost function Missing(gap: Gap, n: Node, l: bool): nat {
    if gap == Gap(n, l) then 1 else 0
  }

  ghost predicate BalOk(s: Shape, gap: Gap, n: Node)
    requires n in s.g
  {
    var r := s.g[n];
    && BH(s, r.left) + Missing(gap, n, true) == BH(s, r.right) + Missing(gap, n, false)
    && r.bh == BH(s, r.left) + Missing(gap, n, true) + (if r.red then 0 else 1)
  }

  /** Up to `gap`, all paths down from a node pass the same number of black nodes. */
  ghost predicate Balanced(s: Shape, gap: Gap) {
    forall n {:trigger BalOk(s, gap, n)} :: n in s.g ==> BalOk(s, gap, n)
  }

  /** No red node has a red child, except that `z` may be a red child. */
  ghost predicate RedOk(s: Shape, z: Node?, n: Node)
    requires n in s.g
  {
    s.g[n].red ==> (IsRed(s, s.g[n].left) ==> s.g[n].left == z) && (IsRed(s, s.g[n].right) ==> s.g[n].right == z)
  }

  ghost predicate RedsApart(s: Shape, z: Node?) {
    forall n {:trigger RedOk(s, z, n)} :: n in s.g ==> RedOk(s, z, n)
  }

  ghost predicate Valid(s: Shape) {
    Tree(s) && Balanced(s, NoGap) && RedsApart(s, null) && !IsRed(s, s.root)
  }

  /** The shapes differ in colours and black heights only. */
  ghost predicate SameLinks(s: Shape, s': Shape) {
    && s'.root == s.root && s'.nil == s.nil && s'.ns == s.ns && s'.g.Keys == s.g.Keys
    && forall x :: x in s.g ==> s'.g[x].(red := s.g[x].red, bh := s.g[x].bh) == s.g[x]
  }

  lemma SameLinksNode(s: Shape, s': Shape, n: Node)
    requires SameLinks(s, s') && n in s.g && NodeOk(s, n)
    ensures NodeOk(s', n)
  {
    KidFrame(s, s', n, true);
    KidFrame(s, s', n, false);
  }

  lemma SameLinksTree(s: Shape, s': Shape)
    requires Tree(s) && SameLinks(s, s')
    ensures Tree(s')
  {
    hide Pos, NodeOk;
    forall x | x in s'.g ensures NodeOk(s', x) {
      assert NodeOk(s, x);
      SameLinksNode(s, s', x);
    }
    forall x | x in s'.g && x != s'.root ensures Hangs(s', x) {
      assert Hangs(s, x);
    }
  }

  // ----- insertion: the uncle is red

  /** `z`, below `p` on side `l` of `q`, is red like `p`. */
  ghost predicate Clash(s: Shape, z: Node, p: Node, q: Node, l: bool) {
    && Tree(s) && Balanced(s, NoGap) && RedsApart(s, z)
    && z in s.g && p in s.g && q in s.g && z != p && p != q && z != q
    && s.g[z].red && s.g[p].red && !s.g[q].red
    && s.g[z].parent == p && s.g[p].parent == q && s.g[q].Kid(l) == p && s.g[q].Kid(!l) != p
    && (s.g[p].left == z || s.g[p].right == z)
    && !IsRed(s, s.root)
  }

  ghost function Recoloured(s: Shape, p: Node, y: Node, q: Node): Shape
    requires p in s.g && y in s.g && q in s.g
  {
    s.(g := s.g[p := s.g[p].(red := false, bh := s.g[p].bh + 1)]
               [y := s.g[y].(red := false, bh := s.g[y].bh + 1)]
               [q := s.g[q].(red := true)])
  }

  lemma RecolourBal(s: Shape, z: Node, p: Node, q: Node, l: bool, n: Node)
    requires Clash(s, z, p, q, l) && IsRed(s, s.g[q].Kid(!l)) && n in s.g
    ensures BalOk(Recoloured(s, p, s.g[q].Kid(!l), q), NoGap, n)
  {
    hide Pos, Tree, RedOk;
    var y := s.g[q].Kid(!l);
    ClashFacts(s, z, p, q, l);
    assert BalOk(s, NoGap, n) && BalOk(s, NoGap, p) && BalOk(s, NoGap, y) && BalOk(s, NoGap, q);
    KidParents(s, n);
  }

  lemma RecolourRed(s: Shape, z: Node, p: Node, q: Node, l: bool, n: Node)
    requires Clash(s, z, p, q, l) && IsRed(s, s.g[q].Kid(!l)) && n in s.g
    ensures RedOk(Recoloured(s, p, s.g[q].Kid(!l), q), q, n)
  {
    hide Pos, Tree, BalOk;
    ClashFacts(s, z, p, q, l);
    assert RedOk(s, z, n);
    KidParents(s, n);
  }

  lemma KidParents(s: Shape, n: Node)
    requires Tree(s) && n in s.g
    ensures s.g[n].left in s.g ==> s.g[s.g[n].left].parent == n
    ensures s.g[n].right in s.g ==> s.g[s.g[n].right].parent == n
    ensures s.g[n].left in s.g || s.g[n].left == s.nil
    ensures s.g[n].right in s.g || s.g[n].right == s.nil
    ensures s.g[n].left != n && s.g[n].right != n && s.nil !in s.g
    ensures s.g[n].left == s.g[n].right ==> s.g[n].left == s.nil
  {
    hide Pos, Ordered, Listed, RootOk;
    assert NodeOk(s, n);
  }

  lemma ClashFacts(s: Shape, z: Node, p: Node, q: Node, l: bool)
    requires Clash(s, z, p, q, l)
    ensures s.g[q].left != s.nil || s.g[q].right != s.nil
    ensures s.nil !in s.g && s.root in s.g
    ensures IsRed(s, s.g[q].Kid(!l)) ==> var y := s.g[q].Kid(!l); y != p && y != q && y != z && s.g[y].parent == q
  {
    hide Pos, Ordered, Listed;
    assert NodeOk(s, q) && NodeOk(s, p);
    var y := s.g[q].Kid(!l);
    assert IsRed(s, y) ==> NodeOk(s, y);
  }

  /** Moving the clash two levels up. */
  lemma RecolourOk(s: Shape, z: Node, p: Node, q: Node, l: bool)
    requires Clash(s, z, p, q, l) && IsRed(s, s.g[q].Kid(!l))
    ensures var s' := Recoloured(s, p, s.g[q].Kid(!l), q);
      && Tree(s') && Balanced(s', NoGap) && RedsApart(s', q)
      && (q != s'.root ==> !IsRed(s', s'.root))
  {
    hide Pos, Tree, BalOk, RedOk;
    ClashFacts(s, z, p, q, l);
    var s' := Recoloured(s, p, s.g[q].Kid(!l), q);
    SameLinksTree(s, s');
    forall n | n in s'.g ensures BalOk(s', NoGap, n) && RedOk(s', q, n) {
      RecolourBal(s, z, p, q, l, n);
      RecolourRed(s, z, p, q, l, n);
    }
    RecolourHeight(s, z, p, q, l);
  }

  lemma RecolourHeight(s: Shape, z: Node, p: Node, q: Node, l: bool)
    requires Clash(s, z, p, q, l)
    ensures s.g[q].bh == s.g[z].bh + 1 && s.g[p].bh == s.g[z].bh
    ensures BH(s, s.g[q].Kid(!l)) == s.g[p].bh
  {
    hide Pos, Tree;
    ClashFacts(s, z, p, q, l);
    assert BalOk(s, NoGap, p) && BalOk(s, NoGap, q);
  }

  // ----- insertion: the uncle is black

  /** Around a rotation of two nodes of equal black height, black heights and red edges of the others stay. */
  lemma InnerClashNode(s: Shape, z: Node, p: Node, q: Node, l: bool, n: Node)
    requires Clash(s, z, p, q, l) && s.g[p].Kid(!l) == z && n in s.g && CanRotate(s, p, l)
    ensures var s' := Rotated(s, p, l); n in s'.g && BalOk(s', NoGap, n) && RedOk(s', p, n)
  {
    hide Pos, Tree, Rotated;
    RotatedAt(s, p, l, n);
    RotatedAt(s, p, l, p);
    RotatedAt(s, p, l, z);
    RotatedAt(s, p, l, q);
    assert BalOk(s, NoGap, n) && BalOk(s, NoGap, p) && BalOk(s, NoGap, z);
    assert RedOk(s, z, n) && RedOk(s, z, p) && RedOk(s, z, z);
    InnerClashKids(s, z, p, q, l, n);
    KidParents(s, n);
    KidParents(s, z);
    KidParents(s, p);
  }

  lemma InnerClashKids(s: Shape, z: Node, p: Node, q: Node, l: bool, n: Node)
    requires Clash(s, z, p, q, l) && s.g[p].Kid(!l) == z && n in s.g && CanRotate(s, p, l)
    ensures var s' := Rotated(s, p, l);
      && (forall c :: c in s.g ==> BH(s', c) == BH(s, c) && IsRed(s', c) == IsRed(s, c))
      && (n != p && n != z && n != q ==> s'.g[n].left == s.g[n].left && s'.g[n].right == s.g[n].right)
      && (n == q ==> s'.g[n].Kid(l) == z && s'.g[n].Kid(!l) == s.g[n].Kid(!l))
      && s'.g.Keys == s.g.Keys && s'.root == s.root
  {
    hide Pos, Tree, Rotated, BalOk, RedOk;
    forall c | c in s.g ensures c in Rotated(s, p, l).g && Rotated(s, p, l).g[c].bh == s.g[c].bh
      && Rotated(s, p, l).g[c].red == s.g[c].red {
      RotatedAt(s, p, l, c);
    }
    RotatedAt(s, p, l, n);
    ClashFacts(s, z, p, q, l);
    KidParents(s, p);
    KidParents(s, z);
    KidParents(s, q);
    RootNotRed(s, p);
  }

  lemma RootNotRed(s: Shape, p: Node)
    requires p in s.g && s.g[p].red && !IsRed(s, s.root)
    ensures p != s.root
  {}

  /** Straightening an inner grandchild. */
  lemma InnerClash(s: Shape, z: Node, p: Node, q: Node, l: bool)
    requires Clash(s, z, p, q, l) && s.g[p].Kid(!l) == z
    ensures CanRotate(s, p, l)
    ensures var s' := Rotated(s, p, l);
      Clash(s', p, z, q, l) && s'.g[z].Kid(l) == p && s'.g[q].Kid(!l) == s.g[q].Kid(!l) && s'.g.Keys == s.g.Keys
      && IsRed(s', s'.g[q].Kid(!l)) == IsRed(s, s.g[q].Kid(!l))
  {
    hide Pos, Tree, Rotated, BalOk, RedOk;
    ClashFacts(s, z, p, q, l);
    RotatedTree(s, p, l);
    var s' := Rotated(s, p, l);
    InnerClashKids(s, z, p, q, l, q);
    forall n | n in s'.g ensures BalOk(s', NoGap, n) && RedOk(s', p, n) {
      InnerClashNode(s, z, p, q, l, n);
    }
    RotatedAt(s, p, l, p);
    RotatedAt(s, p, l, z);
    RotatedAt(s, p, l, q);
    RecolourHeight(s, z, p, q, l);
    KidParents(s, q);
    KidParents(s, p);
  }

  /** `p` and its parent `q` trade colours and black heights. */
  ghost function Traded(s: Shape, p: Node, q: Node): Shape
    requires p in s.g && q in s.g
  {
    s.(g := s.g[p := s.g[p].(red := false, bh := s.g[q].bh)][q := s.g[q].(red := true, bh := s.g[p].bh)])
  }

  ghost predicate OuterCase(s: Shape, z: Node, p: Node, q: Node, l: bool) {
    Clash(s, z, p, q, l) && s.g[p].Kid(l) == z && !IsRed(s, s.g[q].Kid(!l))
  }

  lemma TradedTree(s: Shape, z: Node, p: Node, q: Node, l: bool)
    requires OuterCase(s, z, p, q, l)
    ensures var t := Traded(s, p, q);
      && Tree(t) && CanRotate(t, q, !l) && t.g[q].Kid(l) != t.nil && Riser(t, q, !l) == p && Tree(Rotated(t, q, !l))
  {
    hide Pos, Tree, BalOk, RedOk, Rotated;
    ClashFacts(s, z, p, q, l);
    var t := Traded(s, p, q);
    SameLinksTree(s, t);
    RotatedTree(t, q, !l);
  }

  /** What the final rotation of an insertion leaves of colours, black heights and children. */
  lemma OuterFacts(s: Shape, z: Node, p: Node, q: Node, l: bool, n: Node)
    requires OuterCase(s, z, p, q, l) && n in s.g
    requires var t := Traded(s, p, q); CanRotate(t, q, !l) && Riser(t, q, !l) == p && Tree(t) && t.g[q].Kid(l) != t.nil
    ensures var s' := Rotated(Traded(s, p, q), q, !l);
      && s'.g.Keys == s.g.Keys && s'.nil == s.nil
      && (forall c :: c in s.g && c != p && c != q ==> BH(s', c) == BH(s, c) && IsRed(s', c) == IsRed(s, c))
      && BH(s', p) == BH(s, q) && BH(s', q) == BH(s, p) && !IsRed(s', p) && IsRed(s', q)
      && s'.root == (if q == s.root then p else s.root) && s.root != p
      && s'.g[p].Kid(l) == z && s'.g[p].Kid(!l) == q
      && s'.g[q].Kid(l) == s.g[p].Kid(!l) && s'.g[q].Kid(!l) == s.g[q].Kid(!l)
      && (n != p && n != q && n != s.g[q].parent ==> s'.g[n].left == s.g[n].left && s'.g[n].right == s.g[n].right)
      && (n == s.g[q].parent && s.g[n].left == q ==> s'.g[n].left == p && s'.g[n].right == s.g[n].right)
      && (n == s.g[q].parent && s.g[n].left != q ==>
        s'.g[n].left == s.g[n].left && s'.g[n].right == p && s.g[n].right == q)
  {
    hide Pos, Tree, Rotated, BalOk, RedOk;
    var t := Traded(s, p, q);
    forall c | c in s.g ensures
      var s' := Rotated(t, q, !l); c in s'.g && s'.g[c].bh == t.g[c].bh && s'.g[c].red == t.g[c].red
    {
      RotatedAt(t, q, !l, c);
    }
    RotatedAt(t, q, !l, n);
    RotatedAt(t, q, !l, p);
    RotatedAt(t, q, !l, q);
    ClashFacts(s, z, p, q, l);
    KidParents(s, p);
    KidParents(s, q);
    KidParents(s, n);
  }

  lemma OuterNode(s: Shape, z: Node, p: Node, q: Node, l: bool, n: Node)
    requires OuterCase(s, z, p, q, l) && n in s.g
    requires var t := Traded(s, p, q); CanRotate(t, q, !l) && Riser(t, q, !l) == p && Tree(t) && t.g[q].Kid(l) != t.nil
    ensures var s' := Rotated(Traded(s, p, q), q, !l); n in s'.g && BalOk(s', NoGap, n) && RedOk(s', null, n)
  {
    hide Pos, Tree, Rotated, Traded;
    OuterFacts(s, z, p, q, l, n);
    RecolourHeight(s, z, p, q, l);
    assert BalOk(s, NoGap, n) && BalOk(s, NoGap, p) && BalOk(s, NoGap, q);
    assert RedOk(s, z, n) && RedOk(s, z, p);
    KidParents(s, n);
    KidParents(s, p);
    KidParents(s, q);
    OuterSelf(s, z, p, q, l, n);
  }

  lemma OuterSelf(s: Shape, z: Node, p: Node, q: Node, l: bool, n: Node)
    requires OuterCase(s, z, p, q, l) && n in s.g
    requires var t := Traded(s, p, q); CanRotate(t, q, !l) && Riser(t, q, !l) == p && Tree(t) && t.g[q].Kid(l) != t.nil
    ensures var s' := Rotated(Traded(s, p, q), q, !l);
      && n in s'.g && s'.g[n].bh == Traded(s, p, q).g[n].bh && s'.g[n].red == Traded(s, p, q).g[n].red
      && (n != p && n != q ==> s'.g[n].bh == s.g[n].bh && s'.g[n].red == s.g[n].red)
      && (n == p ==> s'.g[n].bh == s.g[q].bh && !s'.g[n].red)
      && (n == q ==> s'.g[n].bh == s.g[p].bh && s'.g[n].red)
  {
    hide Pos, Tree, Rotated, BalOk, RedOk;
    RotatedAt(Traded(s, p, q), q, !l, n);
  }

  /** The final rotation of an insertion removes the clash. */
  lemma OuterClash(s: Shape, z: Node, p: Node, q: Node, l: bool)
    requires OuterCase(s, z, p, q, l)
    ensures CanRotate(Traded(s, p, q), q, !l)
    ensures var s' := Rotated(Traded(s, p, q), q, !l);
      && Valid(s') && s'.g.Keys == s.g.Keys && s'.g[z].parent == p && !s'.g[p].red
  {
    hide Pos, Tree, Rotated, BalOk, RedOk, Traded;
    TradedTree(s, z, p, q, l);
    var s' := Rotated(Traded(s, p, q), q, !l);
    OuterFacts(s, z, p, q, l, z);
    OuterSelf(s, z, p, q, l, z);
    OuterSelf(s, z, p, q, l, p);
    KidParents(s', p);
    forall n | n in s'.g ensures BalOk(s', NoGap, n) && RedOk(s', null, n) {
      OuterNode(s, z, p, q, l, n);
    }
    ClashFacts(s, z, p, q, l);
    RecolourHeight(s, z, p, q, l);
  }

  // ----- the root is painted black

  ghost function Blackened(s: Shape, n: Node): Shape
    requires n in s.g
  {
    s.(g := s.g[n := s.g[n].(red := false, bh := if s.g[n].red then s.g[n].bh + 1 else s.g[n].bh)])
  }

  lemma BlackenedRoot(s: Shape, z: Node?)
    requires Tree(s) && Balanced(s, NoGap) && RedsApart(s, z) && s.root in s.g
    requires z != s.root ==> !IsRed(s, z) || !IsRed(s, s.root)
    requires z in s.g && z != s.root ==> !IsRed(s, s.g[z].parent)
    ensures Valid(Blackened(s, s.root))
  {
    hide Pos, Tree;
    var s' := Blackened(s, s.root);
    SameLinksTree(s, s');
    RootHasNoParent(s);
    forall n | n in s'.g ensures BalOk(s', NoGap, n) && RedOk(s', null, n) {
      assert BalOk(s, NoGap, n) && RedOk(s, z, n);
      KidParents(s, n);
    }
  }

  lemma RootHasNoParent(s: Shape)
    requires Tree(s)
    ensures s.root in s.g ==> s.g[s.root].parent == s.nil && s.nil !in s.g
    ensures s.root in s.g || s.root == s.nil
  {
    hide Pos, Ordered;
    assert s.root in s.g ==> NodeOk(s, s.root);
  }

  // ----- hanging a new node into an empty slot

  ghost function InsertAt<T>(xs: seq<T>, i: nat, x: T): seq<T>
    requires i <= |xs|
  {
    xs[..i] + [x] + xs[i..]
  }

  ghost function Slot(r: Rec, l: bool): nat {
    if l then r.p else r.p + 1
  }

  /** A record once a node has been listed at `i`, next to the node at `at`. */
  ghost function Spread(r: Rec, at: nat, i: nat): Rec {
    if r.a <= at < r.b then r.(b := r.b + 1, p := if r.p >= i then r.p + 1 else r.p)
    else if r.a > at then r.(a := r.a + 1, b := r.b + 1, p := r.p + 1)
    else r
  }

  ghost function NewRec(s: Shape, y: Node?, key: Bytes, value: Bytes, i: nat): Rec {
    Rec(true, s.nil, s.nil, y, key, value, i, i + 1, i, 0)
  }

  ghost function GraftRec(s: Shape, y: Node, l: bool, z: Node, n: Node): Rec
    requires y in s.g && n in s.g
  {
    var r := Spread(s.g[n], s.g[y].p, Slot(s.g[y], l));
    if n == y then r.WithKid(l, z) else r
  }

  ghost function Grafted(s: Shape, y: Node, l: bool, z: Node, key: Bytes, value: Bytes): Shape
    requires y in s.g && Slot(s.g[y], l) <= |s.ns|
  {
    var i := Slot(s.g[y], l);
    Shape(s.root, s.nil,
          (map n | n in s.g :: GraftRec(s, y, l, z, n))[z := NewRec(s, y, key, value, i)],
          InsertAt(s.ns, i, z))
  }

  /** `key` belongs at `i` among the listed keys. */
  ghost predicate KeyFits(s: Shape, i: nat, key: Bytes)
    requires Listed(s)
  {
    && i <= |s.ns|
    && (forall j :: 0 <= j < i ==> Pos(s.g[s.ns[j]].key) < Pos(key))
    && (forall j :: i <= j < |s.ns| ==> Pos(key) < Pos(s.g[s.ns[j]].key))
  }

  ghost predicate CanGraft(s: Shape, y: Node, l: bool, z: Node, key: Bytes) {
    && Tree(s) && y in s.g && s.g[y].Kid(l) == s.nil && z !in s.g && z != s.nil
    && Slot(s.g[y], l) <= |s.ns| && KeyFits(s, Slot(s.g[y], l), key)
  }

  lemma GraftedAt(s: Shape, y: Node, l: bool, z: Node, key: Bytes, value: Bytes, n: Node)
    requires CanGraft(s, y, l, z, key) && n in s.g
    ensures var s' := Grafted(s, y, l, z, key, value);
      && s'.g.Keys == s.g.Keys + {z} && n in s'.g && s'.g[n] == GraftRec(s, y, l, z, n)
      && s'.g[z] == NewRec(s, y, key, value, Slot(s.g[y], l)) && s'.root == s.root && s'.nil == s.nil
      && |s'.ns| == |s.ns| + 1
  {
    hide Pos, Ordered, Listed, RootOk, NodeOk, Hangs;
  }

  /** A stretch that was empty stays empty. */
  lemma SpreadKid(r: Rec, at: nat, i: nat, k: bool)
    requires r.a <= r.p < r.b && r.p != at && at <= i <= at + 1
    ensures Spread(r, at, i).From(k) == Spread(r, at, i).To(k) <==> r.From(k) == r.To(k)
  {}

  /** A child's stretch stays the one its parent has for it. */
  lemma SpreadFits(r: Rec, q: Rec, at: nat, i: nat, k: bool)
    requires r.a <= r.p < r.b && r.p != at && at <= i <= at + 1
    requires q.a == r.From(k) && q.b == r.To(k) && q.a < q.b
    ensures Spread(q, at, i).a == Spread(r, at, i).From(k) && Spread(q, at, i).b == Spread(r, at, i).To(k)
  {}

  /** What hanging a node in leaves unchanged. */
  lemma GraftedFields(s: Shape, y: Node, l: bool, z: Node, key: Bytes, value: Bytes, n: Node)
    requires CanGraft(s, y, l, z, key) && n in s.g
    ensures var s' := Grafted(s, y, l, z, key, value);
      && n in s'.g && s'.g[n].parent == s.g[n].parent && s'.g[n].red == s.g[n].red && s'.g[n].bh == s.g[n].bh
      && (forall k :: n != y || k != l ==> s'.g[n].Kid(k) == s.g[n].Kid(k))
      && (n == y ==> s'.g[n].Kid(l) == z)
      && s'.g.Keys == s.g.Keys + {z} && s'.g[z] == NewRec(s, y, key, value, Slot(s.g[y], l)) && s'.root == s.root
        && s'.nil == s.nil
  {
    hide Pos, Tree, Grafted, KeyFits;
    GraftedAt(s, y, l, z, key, value, n);
  }

  lemma GraftedKid(s: Shape, y: Node, l: bool, z: Node, key: Bytes, value: Bytes, n: Node, k: bool)
    requires CanGraft(s, y, l, z, key) && n in s.g && n != y
    ensures var s' := Grafted(s, y, l, z, key, value); n in s'.g && KidOk(s', n, k)
  {
    hide Pos, Ordered, Listed, RootOk, Hangs, Grafted, KeyFits, Spread;
    assert NodeOk(s, n) && NodeOk(s, y);
    GraftedFields(s, y, l, z, key, value, n);
    GraftedAt(s, y, l, z, key, value, n);
    SpanApart(s, n, y);
    SpreadKid(s.g[n], s.g[y].p, Slot(s.g[y], l), k);
    var c := s.g[n].Kid(k);
    if c != s.nil {
      assert NodeOk(s, c);
      GraftedFields(s, y, l, z, key, value, c);
      GraftedAt(s, y, l, z, key, value, c);
      SpreadFits(s.g[n], s.g[c], s.g[y].p, Slot(s.g[y], l), k);
    }
  }

  lemma GraftedKidY(s: Shape, y: Node, l: bool, z: Node, key: Bytes, value: Bytes, k: bool)
    requires CanGraft(s, y, l, z, key)
    ensures var s' := Grafted(s, y, l, z, key, value); y in s'.g && KidOk(s', y, k)
  {
    hide Pos, Ordered, Listed, RootOk, Hangs, Grafted, KeyFits;
    assert NodeOk(s, y);
    GraftedAt(s, y, l, z, key, value, y);
    var c := s.g[y].Kid(k);
    if c != s.nil {
      assert NodeOk(s, c);
      GraftedAt(s, y, l, z, key, value, c);
    }
  }

  /** A node's place decides on which side of another node it lies. */
  lemma SpanApart(s: Shape, n: Node, y: Node)
    requires Tree(s) && n in s.g && y in s.g
    ensures n != y ==> s.g[n].p != s.g[y].p
  {
    hide Pos, Ordered, Listed, RootOk, Hangs, KidOk;
    assert NodeOk(s, n) && NodeOk(s, y);
  }

  lemma GraftedListing(s: Shape, y: Node, l: bool, z: Node, key: Bytes, value: Bytes, j: nat)
    requires CanGraft(s, y, l, z, key) && j <= |s.ns|
    ensures var s' := Grafted(s, y, l, z, key, value);
      var i := Slot(s.g[y], l);
      && j < |s'.ns| && s'.ns[j] in s'.g && s'.g[s'.ns[j]].p == j
      && s'.g[s'.ns[j]].key == (if j < i then s.g[s.ns[j]].key else if j == i then key else s.g[s.ns[j - 1]].key)
      && s'.g[s'.ns[j]].value == (if j < i then s.g[s.ns[j]].value else if j == i then value
        else s.g[s.ns[j - 1]].value)
  {
    hide Pos, RootOk, Hangs, KidOk, Grafted, Ordered;
    var i := Slot(s.g[y], l);
    GraftedAt(s, y, l, z, key, value, y);
    GraftedNs(s, y, l, z, key, value);
    assert NodeOk(s, y);
    if j != i {
      var o := if j < i then j else j - 1;
      assert NodeOk(s, s.ns[o]);
      GraftedAt(s, y, l, z, key, value, s.ns[o]);
    }
  }

  lemma GraftedListed(s: Shape, y: Node, l: bool, z: Node, key: Bytes, value: Bytes)
    requires CanGraft(s, y, l, z, key)
    ensures var s' := Grafted(s, y, l, z, key, value); Listed(s') && Ordered(s')
  {
    hide Pos, RootOk, Hangs, NodeOk, Grafted;
    var s' := Grafted(s, y, l, z, key, value);
    GraftedNs(s, y, l, z, key, value);
    forall j | 0 <= j < |s'.ns| ensures s'.ns[j] in s'.g && s'.g[s'.ns[j]].p == j {
      GraftedListing(s, y, l, z, key, value, j);
    }
    forall a, b | 0 <= a < b < |s'.ns| ensures Pos(s'.g[s'.ns[a]].key) < Pos(s'.g[s'.ns[b]].key) {
      GraftedListing(s, y, l, z, key, value, a);
      GraftedListing(s, y, l, z, key, value, b);
    }
  }

  lemma GraftedNs(s: Shape, y: Node, l: bool, z: Node, key: Bytes, value: Bytes)
    requires CanGraft(s, y, l, z, key)
    ensures var s' := Grafted(s, y, l, z, key, value);
      var i := Slot(s.g[y], l);
      && |s'.ns| == |s.ns| + 1 && s'.ns[i] == z
      && (forall j {:trigger s'.ns[j]} :: 0 <= j < i ==> s'.ns[j] == s.ns[j])
      && (forall j {:trigger s'.ns[j]} :: i < j <= |s.ns| ==> s'.ns[j] == s.ns[j - 1])
  {
    hide Pos, Ordered, Listed, RootOk, Hangs, NodeOk;
  }

  lemma GraftedSpan(s: Shape, y: Node, l: bool, z: Node, key: Bytes, value: Bytes, n: Node)
    requires CanGraft(s, y, l, z, key) && (n in s.g || n == z)
    ensures var s' := Grafted(s, y, l, z, key, value); n in s'.g && SpanOk(s', n)
  {
    hide Pos, Ordered, Listed, RootOk, Hangs, Grafted, KeyFits, KidOk;
    assert NodeOk(s, y);
    GraftedAt(s, y, l, z, key, value, y);
    GraftedNs(s, y, l, z, key, value);
    if n in s.g {
      assert NodeOk(s, n);
      GraftedAt(s, y, l, z, key, value, n);
    }
  }

  lemma GraftedNode(s: Shape, y: Node, l: bool, z: Node, key: Bytes, value: Bytes, n: Node)
    requires CanGraft(s, y, l, z, key) && (n in s.g || n == z)
    ensures var s' := Grafted(s, y, l, z, key, value); n in s'.g && NodeOk(s', n)
  {
    hide Pos, Tree, Grafted, KeyFits;
    GraftedAt(s, y, l, z, key, value, y);
    GraftedSpan(s, y, l, z, key, value, n);
    if n == y {
      GraftedKidY(s, y, l, z, key, value, true);
      GraftedKidY(s, y, l, z, key, value, false);
    } else if n != z {
      GraftedKid(s, y, l, z, key, value, n, true);
      GraftedKid(s, y, l, z, key, value, n, false);
    }
  }

  lemma GraftedHangs(s: Shape, y: Node, l: bool, z: Node, key: Bytes, value: Bytes, n: Node)
    requires CanGraft(s, y, l, z, key) && (n in s.g || n == z) && n != s.root
    ensures var s' := Grafted(s, y, l, z, key, value); n in s'.g && Hangs(s', n)
  {
    hide Pos, Ordered, Listed, RootOk, NodeOk, Grafted, KeyFits;
    GraftedFields(s, y, l, z, key, value, y);
    if n != z {
      assert Hangs(s, n);
      KidParents(s, y);
      var q := s.g[n].parent;
      GraftedFields(s, y, l, z, key, value, n);
      GraftedFields(s, y, l, z, key, value, q);
      assert s.g[q].Kid(s.g[q].left == n) == n;
    }
  }

  lemma GraftedTree(s: Shape, y: Node, l: bool, z: Node, key: Bytes, value: Bytes)
    requires CanGraft(s, y, l, z, key)
    ensures Tree(Grafted(s, y, l, z, key, value))
  {
    hide Pos, Ordered, Grafted, KeyFits, NodeOk, Hangs, Listed;
    var s' := Grafted(s, y, l, z, key, value);
    GraftedAt(s, y, l, z, key, value, y);
    GraftedListed(s, y, l, z, key, value);
    GraftedRoot(s, y, l, z, key, value);
    forall n | n in s'.g ensures NodeOk(s', n) && (n != s'.root ==> Hangs(s', n)) {
      GraftedNode(s, y, l, z, key, value, n);
      if n != s.root { GraftedHangs(s, y, l, z, key, value, n); }
    }
  }

  lemma GraftedRoot(s: Shape, y: Node, l: bool, z: Node, key: Bytes, value: Bytes)
    requires CanGraft(s, y, l, z, key)
    ensures RootOk(Grafted(s, y, l, z, key, value))
  {
    hide Pos, Ordered, Grafted, KeyFits, Hangs, Listed, KidOk;
    assert NodeOk(s, y);
    GraftedAt(s, y, l, z, key, value, s.root);
  }

  lemma GraftedColours(s: Shape, y: Node, l: bool, z: Node, key: Bytes, value: Bytes, n: Node)
    requires CanGraft(s, y, l, z, key) && Valid(s) && (n in s.g || n == z)
    ensures var s' := Grafted(s, y, l, z, key, value); n in s'.g && BalOk(s', NoGap, n) && RedOk(s', z, n)
  {
    hide Pos, Grafted, KeyFits, Tree;
    var s' := Grafted(s, y, l, z, key, value);
    YIsInTree(s, y);
    GraftedFields(s, y, l, z, key, value, s.root);
    forall c | c in s.g ensures BH(s', c) == BH(s, c) && IsRed(s', c) == IsRed(s, c) {
      GraftedFields(s, y, l, z, key, value, c);
    }
    if n != z {
      assert BalOk(s, NoGap, n) && RedOk(s, null, n);
      GraftedFields(s, y, l, z, key, value, n);
      KidParents(s, n);
      assert n != y || !l ==> s'.g[n].Kid(true) == s.g[n].Kid(true);
      assert n != y || l ==> s'.g[n].Kid(false) == s.g[n].Kid(false);
    }
  }

  lemma YIsInTree(s: Shape, y: Node)
    requires Tree(s) && y in s.g
    ensures s.root in s.g && s.nil !in s.g
  {
    hide Pos, Ordered, KidOk;
    assert NodeOk(s, y);
  }

  /** A new red leaf keeps everything but, possibly, the rule for red nodes at itself. */
  lemma Graft(s: Shape, y: Node, l: bool, z: Node, key: Bytes, value: Bytes)
    requires CanGraft(s, y, l, z, key) && Valid(s)
    ensures var s' := Grafted(s, y, l, z, key, value);
      && Tree(s') && Balanced(s', NoGap) && RedsApart(s', z) && !IsRed(s', s'.root) && s'.root != z && z in s'.g
        && s'.g[z].red
  {
    hide Pos, Grafted, KeyFits, Tree, BalOk, RedOk;
    var s' := Grafted(s, y, l, z, key, value);
    GraftedTree(s, y, l, z, key, value);
    YIsInTree(s, y);
    GraftedAt(s, y, l, z, key, value, s.root);
    GraftedAt(s, y, l, z, key, value, y);
    forall n | n in s'.g ensures BalOk(s', NoGap, n) && RedOk(s', z, n) {
      GraftedColours(s, y, l, z, key, value, n);
    }
  }
}
