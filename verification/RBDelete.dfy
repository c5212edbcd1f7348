/** Taking a node out of a red-black tree, and closing the gap that this may leave. */
module RBDelete {
  import opened Bytes
  import opened RBShape

  // ----- splicing a node out

  ghost function RemoveAt<T>(xs: seq<T>, i: nat): seq<T>
    requires i < |xs|
  {
    xs[..i] + xs[i + 1..]
  }

  /** A record once the node listed at `at` is gone. */
  ghost function Shrunk(r: Rec, at: nat): Rec {
    if r.a <= at < r.b then r.(b := r.b - 1, p := if r.p > at then r.p - 1 else r.p)
    else if r.a > at && r.b > 0 && r.p > 0 then r.(a := r.a - 1, b := r.b - 1, p := r.p - 1)
    else r
  }

  /** `x`, the only child of `y` if there is one, moves into the place of `y`; `z` takes over its payload. */
  ghost function SplicedRec(s: Shape, z: Node, y: Node, x: Node?, n: Node): Rec
    requires n in s.g && y in s.g
  {
    var r0 := Shrunk(s.g[n], s.g[y].p);
    var r1 := if n == x then r0.(parent := s.g[y].parent) else r0;
    var r2 := if n == s.g[y].parent then (if s.g[n].left == y then r1.(left := x) else r1.(right := x)) else r1;
    if n == z then r2.(key := s.g[y].key, value := s.g[y].value) else r2
  }

  ghost function Spliced(s: Shape, z: Node, y: Node, x: Node?): Shape
    requires y in s.g && s.g[y].p < |s.ns|
  {
    Shape(if s.g[y].parent == s.nil then x else s.root, s.nil,
          map n | n in s.g && n != y :: SplicedRec(s, z, y, x, n),
          RemoveAt(s.ns, s.g[y].p))
  }

  /** `y` is `z` or lists right after it, and has at most the child `x`, on side `k`. */
  ghost predicate CanSplice(s: Shape, z: Node, y: Node, x: Node?, k: bool) {
    && Valid(s) && z in s.g && y in s.g && s.g[y].p < |s.ns|
    && (y != z ==> s.g[y].p == s.g[z].p + 1)
    && s.g[y].Kid(k) == x && s.g[y].Kid(!k) == s.nil
  }

  lemma SpliceFacts(s: Shape, z: Node, y: Node, x: Node?, k: bool)
    requires CanSplice(s, z, y, x, k)
    ensures NodeOk(s, y) && s.nil !in s.g
    ensures x != s.nil ==>
      x in s.g && x != y && s.g[x].parent == y && s.g[x].red && s.g[x].left == s.nil && s.g[x].right == s.nil
    ensures x != s.nil ==> s.g[x].a == s.g[y].From(k) && s.g[x].b == s.g[y].To(k) && s.g[x].b == s.g[x].a + 1
    ensures x != s.nil ==> SpanOk(s, x)
    ensures s.g[y].b == s.g[y].a + (if x == s.nil then 1 else 2)
    ensures BH(s, x) == 0
    ensures y == s.root <==> s.g[y].parent == s.nil
    ensures y != s.root ==> s.g[y].parent in s.g && Hangs(s, y) && s.g[y].parent != y && s.g[y].parent != x
  {
    hide Pos, Ordered, Listed;
    assert NodeOk(s, y) && BalOk(s, NoGap, y);
    if x != s.nil {
      assert NodeOk(s, x) && BalOk(s, NoGap, x) && RedOk(s, null, x);
      assert s.g[x].left in s.g ==> BalOk(s, NoGap, s.g[x].left);
      assert s.g[x].right in s.g ==> BalOk(s, NoGap, s.g[x].right);
    }
    if y != s.root {
      assert Hangs(s, y);
      assert NodeOk(s, s.g[y].parent);
    }
  }

  lemma SplicedAt(s: Shape, z: Node, y: Node, x: Node?, k: bool, n: Node)
    requires CanSplice(s, z, y, x, k) && n in s.g && n != y
    ensures var s' := Spliced(s, z, y, x);
      && s'.g.Keys == s.g.Keys - {y} && n in s'.g && s'.g[n] == SplicedRec(s, z, y, x, n) && s'.nil == s.nil
      && s'.root == (if y == s.root then x else s.root)
  {
    hide Pos, Tree, BalOk, RedOk;
    SpliceFacts(s, z, y, x, k);
  }

  lemma ShrunkKid(r: Rec, at: nat, k: bool)
    requires r.a <= r.p < r.b && r.p != at
    ensures var r' := Shrunk(r, at);
      forall q: Rec ::
        q.a == r.From(k) && q.b == r.To(k) && q.a <= q.p < q.b && !(q.a <= at < q.b && q.b == q.a + 1) ==>
        Shrunk(q, at).a == r'.From(k) && Shrunk(q, at).b == r'.To(k)
    ensures !(r.From(k) == at && r.To(k) == at + 1) ==>
      (Shrunk(r, at).From(k) == Shrunk(r, at).To(k) <==> r.From(k) == r.To(k))
    ensures r.From(k) == at && r.To(k) == at + 1 ==> Shrunk(r, at).From(k) == Shrunk(r, at).To(k)
  {}

  /** Links and colours of a node that stays. */
  lemma SplicedFields(s: Shape, z: Node, y: Node, x: Node?, k: bool, n: Node)
    requires CanSplice(s, z, y, x, k) && n in s.g && n != y
    ensures var s' := Spliced(s, z, y, x);
      && n in s'.g && s'.g[n].red == s.g[n].red && s'.g[n].bh == s.g[n].bh
      && s'.g[n].parent == (if n == x then s.g[y].parent else s.g[n].parent)
      && s'.g[n].left == (if s.g[n].left == y then x else s.g[n].left)
      && s'.g[n].right == (if s.g[n].right == y then x else s.g[n].right)
      && s'.g[n].a == Shrunk(s.g[n], s.g[y].p).a && s'.g[n].b == Shrunk(s.g[n], s.g[y].p).b
        && s'.g[n].p == Shrunk(s.g[n], s.g[y].p).p
      && s'.g[n].key == (if n == z then s.g[y].key else s.g[n].key)
        && s'.g[n].value == (if n == z then s.g[y].value else s.g[n].value)
      && s'.g.Keys == s.g.Keys - {y} && s'.nil == s.nil && s'.root == (if y == s.root then x else s.root)
  {
    hide Pos, Tree, BalOk, RedOk, Spliced;
    SpliceFacts(s, z, y, x, k);
    SplicedAt(s, z, y, x, k, n);
    KidParents(s, n);
    if s.g[y].parent in s.g { ParentHasKid(s, y); }
  }

  lemma ParentHasKid(s: Shape, y: Node)
    requires Tree(s) && y in s.g && s.g[y].parent in s.g
    ensures s.g[s.g[y].parent].left == y || s.g[s.g[y].parent].right == y
    ensures s.g[s.g[y].parent].left != s.g[s.g[y].parent].right
  {
    hide Pos, Ordered, Listed;
    RootHasNoParent(s);
    assert Hangs(s, y);
    KidParents(s, s.g[y].parent);
  }

  lemma SplicedKid(s: Shape, z: Node, y: Node, x: Node?, k: bool, n: Node, m: bool)
    requires CanSplice(s, z, y, x, k) && n in s.g && n != y
    ensures var s' := Spliced(s, z, y, x); n in s'.g && KidOk(s', n, m)
  {
    hide Pos, Ordered, Listed, RootOk, Hangs, BalOk, RedOk, Spliced, Shrunk;
    SpliceFacts(s, z, y, x, k);
    assert NodeOk(s, n);
    SpanApart(s, n, y);
    SplicedFields(s, z, y, x, k, n);
    var at := s.g[y].p;
    ShrunkKid(s.g[n], at, m);
    var c := s.g[n].Kid(m);
    if c == y {
      SplicedKidX(s, z, y, x, k, n, m);
    } else if c != s.nil {
      assert NodeOk(s, c);
      SpanApart(s, c, y);
      SplicedFields(s, z, y, x, k, c);
      KidParents(s, y);
    } else {
      SpanHolds(s, y);
    }
  }

  lemma SpanHolds(s: Shape, y: Node)
    requires NodesFine(s) && y in s.g
    ensures s.g[y].a <= s.g[y].p < s.g[y].b
  {
    assert NodeOk(s, y);
  }

  ghost predicate NodesFine(s: Shape) {
    forall n {:trigger NodeOk(s, n)} :: n in s.g ==> NodeOk(s, n)
  }

  lemma SplicedKidX(s: Shape, z: Node, y: Node, x: Node?, k: bool, n: Node, m: bool)
    requires CanSplice(s, z, y, x, k) && n in s.g && n != y && s.g[n].Kid(m) == y && KidOk(s, n, m) && SpanOk(s, n)
    ensures var s' := Spliced(s, z, y, x); n in s'.g && KidOk(s', n, m)
  {
    hide Pos, Tree, BalOk, RedOk, Spliced;
    SpliceFacts(s, z, y, x, k);
    SplicedFields(s, z, y, x, k, n);
    var at := s.g[y].p;
    ShrunkKid(s.g[n], at, m);
    if x != s.nil {
      SplicedFields(s, z, y, x, k, x);
      assert Shrunk(s.g[y], at).a == Shrunk(s.g[n], at).From(m) && Shrunk(s.g[y], at).b == Shrunk(s.g[n], at).To(m);
    }
    KidParents(s, n);
  }

  lemma SplicedNs(s: Shape, z: Node, y: Node, x: Node?)
    requires y in s.g && s.g[y].p < |s.ns|
    ensures var s' := Spliced(s, z, y, x);
      var at := s.g[y].p;
      && |s'.ns| == |s.ns| - 1
      && (forall j {:trigger s'.ns[j]} :: 0 <= j < at ==> s'.ns[j] == s.ns[j])
      && (forall j {:trigger s'.ns[j]} :: at <= j < |s'.ns| ==> s'.ns[j] == s.ns[j + 1])
  {}

  lemma SplicedSpan(s: Shape, z: Node, y: Node, x: Node?, k: bool, n: Node)
    requires CanSplice(s, z, y, x, k) && n in s.g && n != y
    ensures var s' := Spliced(s, z, y, x); n in s'.g && SpanOk(s', n)
  {
    hide Pos, Ordered, Listed, RootOk, Hangs, BalOk, RedOk, Spliced, KidOk;
    assert NodeOk(s, n) && NodeOk(s, y);
    SpanApart(s, n, y);
    SplicedFields(s, z, y, x, k, n);
    SplicedNs(s, z, y, x);
    SpansNested(s, n, y);
  }

  lemma SplicedListing(s: Shape, z: Node, y: Node, x: Node?, k: bool, j: nat)
    requires CanSplice(s, z, y, x, k) && j < |s.ns| - 1
    ensures var s' := Spliced(s, z, y, x);
      && j < |s'.ns| && s'.ns[j] in s'.g && s'.g[s'.ns[j]].p == j
      && s.ns[j] in s.g && s.ns[j + 1] in s.g
      && s'.g[s'.ns[j]].key == (if j < s.g[z].p then s.g[s.ns[j]].key else s.g[s.ns[j + 1]].key)
      && s'.g[s'.ns[j]].value == (if j < s.g[z].p then s.g[s.ns[j]].value else s.g[s.ns[j + 1]].value)
  {
    hide Pos, Ordered, RootOk, Hangs, BalOk, RedOk, Spliced, KidOk;
    var at := s.g[y].p;
    SplicedNs(s, z, y, x);
    var o := if j < at then j else j + 1;
    assert NodeOk(s, s.ns[o]) && NodeOk(s, z) && NodeOk(s, y);
    SplicedFields(s, z, y, x, k, s.ns[o]);
  }

  lemma SplicedListed(s: Shape, z: Node, y: Node, x: Node?, k: bool)
    requires CanSplice(s, z, y, x, k)
    ensures var s' := Spliced(s, z, y, x); Listed(s') && Ordered(s')
  {
    hide Pos, RootOk, Hangs, NodeOk, BalOk, RedOk, Spliced;
    var s' := Spliced(s, z, y, x);
    SplicedNs(s, z, y, x);
    forall j | 0 <= j < |s'.ns| ensures s'.ns[j] in s'.g && s'.g[s'.ns[j]].p == j {
      SplicedListing(s, z, y, x, k, j);
    }
    forall a, b | 0 <= a < b < |s'.ns| ensures Pos(s'.g[s'.ns[a]].key) < Pos(s'.g[s'.ns[b]].key) {
      SplicedListing(s, z, y, x, k, a);
      SplicedListing(s, z, y, x, k, b);
    }
  }

  /** A node's own place lies in its stretch. */
  lemma SpansNested(s: Shape, n: Node, y: Node)
    requires Tree(s) && n in s.g && y in s.g
    ensures s.g[n].a <= s.g[n].p < s.g[n].b && s.g[y].a <= s.g[y].p < s.g[y].b
  {
    hide Pos, Ordered, Listed, RootOk, Hangs, KidOk;
    assert NodeOk(s, n) && NodeOk(s, y);
  }

  lemma SplicedHangs(s: Shape, z: Node, y: Node, x: Node?, k: bool, n: Node)
    requires CanSplice(s, z, y, x, k) && n in s.g && n != y && n != Spliced(s, z, y, x).root
    ensures var s' := Spliced(s, z, y, x); n in s'.g && Hangs(s', n)
  {
    hide Pos, Ordered, Listed, RootOk, BalOk, RedOk, Spliced, NodeOk;
    SpliceFacts(s, z, y, x, k);
    SplicedFields(s, z, y, x, k, n);
    assert n != s.root ==> Hangs(s, n);
    if n == x {
      SplicedFields(s, z, y, x, k, s.g[y].parent);
    } else {
      KidParents(s, y);
      SplicedFields(s, z, y, x, k, s.g[n].parent);
    }
  }

  lemma SplicedRoot(s: Shape, z: Node, y: Node, x: Node?, k: bool)
    requires CanSplice(s, z, y, x, k)
    ensures RootOk(Spliced(s, z, y, x))
  {
    hide Pos, Ordered, Listed, Hangs, BalOk, RedOk, Spliced, KidOk;
    SpliceFacts(s, z, y, x, k);
    SplicedNs(s, z, y, x);
    var s' := Spliced(s, z, y, x);
    RootHasNoParent(s);
    if y == s.root {
      if x != s.nil { SplicedFields(s, z, y, x, k, x); } else { SplicedRootField(s, z, y, x, k); }
    } else {
      SpanApart(s, s.root, y);
      assert NodeOk(s, s.root);
      SplicedFields(s, z, y, x, k, s.root);
    }
  }

  lemma SplicedRootField(s: Shape, z: Node, y: Node, x: Node?, k: bool)
    requires CanSplice(s, z, y, x, k) && y == s.root
    ensures Spliced(s, z, y, x).root == x && Spliced(s, z, y, x).nil == s.nil
  {
    hide Pos, Tree, BalOk, RedOk;
    SpliceFacts(s, z, y, x, k);
  }

  lemma SplicedTree(s: Shape, z: Node, y: Node, x: Node?, k: bool)
    requires CanSplice(s, z, y, x, k)
    ensures Tree(Spliced(s, z, y, x))
  {
    hide Pos, Ordered, RootOk, Hangs, NodeOk, BalOk, RedOk, Spliced, Listed;
    var s' := Spliced(s, z, y, x);
    SplicedListed(s, z, y, x, k);
    SplicedRoot(s, z, y, x, k);
    SplicedKeys(s, z, y, x);
    forall n | n in s'.g ensures NodeOk(s', n) && (n != s'.root ==> Hangs(s', n)) {
      SplicedNode(s, z, y, x, k, n);
      if n != s'.root { SplicedHangs(s, z, y, x, k, n); }
    }
  }

  lemma SplicedKeys(s: Shape, z: Node, y: Node, x: Node?)
    requires y in s.g && s.g[y].p < |s.ns|
    ensures Spliced(s, z, y, x).g.Keys == s.g.Keys - {y} && Spliced(s, z, y, x).nil == s.nil
  {}

  lemma SplicedNode(s: Shape, z: Node, y: Node, x: Node?, k: bool, n: Node)
    requires CanSplice(s, z, y, x, k) && n in s.g && n != y
    ensures var s' := Spliced(s, z, y, x); n in s'.g && NodeOk(s', n)
  {
    hide Pos, Tree, BalOk, RedOk, Spliced, KidOk, SpanOk;
    SplicedSpan(s, z, y, x, k, n);
    SplicedKid(s, z, y, x, k, n, true);
    SplicedKid(s, z, y, x, k, n, false);
  }

  // ----- the gap

  /** No red node but `x` has a red child other than `x`. */
  ghost predicate RedsBut(s: Shape, x: Node?) {
    forall n {:trigger RedOk(s, x, n)} :: n in s.g && n != x ==> RedOk(s, x, n)
  }

  ghost function GapAt(s: Shape, par: Node?, l: bool): Gap {
    if par in s.g then Gap(par, l) else NoGap
  }

  /** The tree is sound except that below slot `l` of `par`, where `x` is, a black node is missing. */
  ghost predicate Short(s: Shape, x: Node?, par: Node?, l: bool) {
    && Tree(s) && Balanced(s, GapAt(s, par, l)) && RedsBut(s, x)
    && (x in s.g || x == s.nil)
    && (x == s.root <==> par !in s.g)
    && (par in s.g ==> s.g[par].Kid(l) == x)
    && (x != s.root ==> !IsRed(s, s.root))
  }

  lemma SplicedShort(s: Shape, z: Node, y: Node, x: Node?, k: bool, l: bool)
    requires CanSplice(s, z, y, x, k) && !s.g[y].red
    requires y != s.root ==> s.g[y].parent in s.g && s.g[s.g[y].parent].Kid(l) == y
    ensures Short(Spliced(s, z, y, x), x, s.g[y].parent, l)
  {
    hide Pos, Tree, BalOk, RedOk, Spliced;
    SpliceFacts(s, z, y, x, k);
    SplicedTree(s, z, y, x, k);
    SplicedKeys(s, z, y, x);
    var s', q := Spliced(s, z, y, x), s.g[y].parent;
    SplicedPlace(s, z, y, x, k, l);
    SplicedHeights(s, z, y, x, k);
    RootHasNoParent(s);
    forall n | n in s'.g ensures BalOk(s', GapAt(s', q, l), n) && RedOk(s', x, n) {
      SplicedBal(s, z, y, x, k, l, n);
      SplicedRed(s, z, y, x, k, n);
    }
  }

  lemma SplicedPlace(s: Shape, z: Node, y: Node, x: Node?, k: bool, l: bool)
    requires CanSplice(s, z, y, x, k)
    requires y != s.root ==> s.g[y].parent in s.g && s.g[s.g[y].parent].Kid(l) == y
    ensures var s' := Spliced(s, z, y, x);
      var q := s.g[y].parent;
      && (y == s.root ==> s'.root == x && q == s.nil)
      && (y != s.root ==> q in s'.g && s'.g[q].Kid(l) == x && s'.root == s.root && s.root != x)
      && s'.nil == s.nil
  {
    hide Pos, Tree, BalOk, RedOk, Spliced;
    SpliceFacts(s, z, y, x, k);
    RootHasNoParent(s);
    if y == s.root {
      SplicedRootField(s, z, y, x, k);
    } else {
      SplicedFields(s, z, y, x, k, s.g[y].parent);
      KidParents(s, s.g[y].parent);
      YIsInTree(s, y);
    }
  }

  /** Black heights of the nodes that stay are unchanged. */
  lemma SplicedHeights(s: Shape, z: Node, y: Node, x: Node?, k: bool)
    requires CanSplice(s, z, y, x, k)
    ensures var s' := Spliced(s, z, y, x);
      forall c :: c in s.g && c != y ==> BH(s', c) == BH(s, c) && IsRed(s', c) == IsRed(s, c)
    ensures BH(Spliced(s, z, y, x), x) == 0
  {
    hide Pos, Tree, BalOk, RedOk, Spliced;
    SpliceFacts(s, z, y, x, k);
    SplicedKeys(s, z, y, x);
    forall c | c in s.g && c != y ensures
      var s' := Spliced(s, z, y, x); BH(s', c) == BH(s, c) && IsRed(s', c) == IsRed(s, c)
    {
      SplicedFields(s, z, y, x, k, c);
    }
  }

  lemma SplicedBal(s: Shape, z: Node, y: Node, x: Node?, k: bool, l: bool, n: Node)
    requires CanSplice(s, z, y, x, k) && n in s.g && n != y && !s.g[y].red
    requires y != s.root ==> s.g[y].parent in s.g && s.g[s.g[y].parent].Kid(l) == y
    ensures var s' := Spliced(s, z, y, x); n in s'.g && BalOk(s', GapAt(s', s.g[y].parent, l), n)
  {
    hide Pos, Tree, Spliced;
    SpliceFacts(s, z, y, x, k);
    SplicedHeights(s, z, y, x, k);
    SplicedFields(s, z, y, x, k, n);
    SplicedPlace(s, z, y, x, k, l);
    SplicedKeys(s, z, y, x);
    KidParents(s, n);
    assert BalOk(s, NoGap, n) && BalOk(s, NoGap, y);
  }

  lemma SplicedRed(s: Shape, z: Node, y: Node, x: Node?, k: bool, n: Node)
    requires CanSplice(s, z, y, x, k) && n in s.g && n != y
    ensures var s' := Spliced(s, z, y, x); n in s'.g && RedOk(s', x, n)
  {
    hide Pos, Tree, Spliced, BalOk;
    SpliceFacts(s, z, y, x, k);
    SplicedHeights(s, z, y, x, k);
    SplicedFields(s, z, y, x, k, n);
    KidParents(s, n);
    assert RedOk(s, null, n);
  }

  /** Splicing out a red node leaves a sound tree. */
  lemma SplicedRedNode(s: Shape, z: Node, y: Node, x: Node?, k: bool)
    requires CanSplice(s, z, y, x, k) && s.g[y].red
    ensures Valid(Spliced(s, z, y, x))
  {
    hide Pos, Tree, BalOk, RedOk, Spliced;
    SpliceFacts(s, z, y, x, k);
    RedHasBlackParent(s, y, x);
    SplicedTree(s, z, y, x, k);
    SplicedKeys(s, z, y, x);
    var s' := Spliced(s, z, y, x);
    SplicedHeights(s, z, y, x, k);
    SplicedPlace(s, z, y, x, k, s.g[s.g[y].parent].left == y);
    RootHasNoParent(s);
    forall n | n in s'.g ensures BalOk(s', NoGap, n) && RedOk(s', null, n) {
      SplicedRedBal(s, z, y, x, k, n);
    }
  }

  lemma RedHasBlackParent(s: Shape, y: Node, x: Node?)
    requires Valid(s) && y in s.g && s.g[y].red && (s.g[y].left == x || s.g[y].right == x)
    ensures y != s.root && s.g[y].parent in s.g && !IsRed(s, x)
    ensures s.g[s.g[y].parent].left == y || s.g[s.g[y].parent].right == y
  {
    hide Pos, Ordered, Listed, NodeOk, BalOk;
    assert Hangs(s, y);
    assert RedOk(s, null, y);
    KidParents(s, y);
  }

  lemma SplicedRedBal(s: Shape, z: Node, y: Node, x: Node?, k: bool, n: Node)
    requires CanSplice(s, z, y, x, k) && s.g[y].red && n in s.g && n != y && !IsRed(s, x) && y != s.root
    ensures var s' := Spliced(s, z, y, x); n in s'.g && BalOk(s', NoGap, n) && RedOk(s', null, n)
  {
    hide Pos, Tree, Spliced;
    SpliceFacts(s, z, y, x, k);
    SplicedHeights(s, z, y, x, k);
    SplicedFields(s, z, y, x, k, n);
    SplicedKeys(s, z, y, x);
    KidParents(s, n);
    RootHasNoParent(s);
    assert BalOk(s, NoGap, n) && BalOk(s, NoGap, y) && RedOk(s, null, n);
  }

  // ----- closing the gap

  /** Children, colours and black heights after rotating `q` towards `m`. */
  lemma TurnKids(t: Shape, q: Node, m: bool, n: Node)
    requires Tree(t) && q in t.g && t.g[q].Kid(!m) != t.nil && n in t.g
    ensures CanRotate(t, q, m)
    ensures var s' := Rotated(t, q, m);
      var p := Riser(t, q, m);
      && s'.g.Keys == t.g.Keys && s'.nil == t.nil && p in t.g && p != q
      && (forall c :: BH(s', c) == BH(t, c) && IsRed(s', c) == IsRed(t, c))
      && s'.root == (if q == t.root then p else t.root) && t.root != p
      && s'.g[p].Kid(m) == q && s'.g[p].Kid(!m) == t.g[p].Kid(!m)
      && s'.g[q].Kid(m) == t.g[q].Kid(m) && s'.g[q].Kid(!m) == t.g[p].Kid(m)
      && (n != p && n != q ==> s'.g[n].left == (if t.g[n].left == q then p else t.g[n].left))
      && (n != p && n != q ==> s'.g[n].right == (if t.g[n].right == q then p else t.g[n].right))
      && s'.g[n].bh == t.g[n].bh && s'.g[n].red == t.g[n].red
  {
    hide Pos, Tree, Rotated;
    RotatedTree(t, q, m);
    var s', p := Rotated(t, q, m), Riser(t, q, m);
    RotatedAt(t, q, m, n);
    RotatedAt(t, q, m, p);
    RotatedAt(t, q, m, q);
    forall c ensures BH(s', c) == BH(t, c) && IsRed(s', c) == IsRed(t, c) {
      if c in t.g { RotatedAt(t, q, m, c); }
    }
    KidParents(t, n);
    KidParents(t, q);
    KidParents(t, p);
    RootHasNoParent(t);
    if q != t.root { ParentOfNonRoot(t, q); }
  }

  lemma ParentOfNonRoot(t: Shape, q: Node)
    requires Tree(t) && q in t.g && q != t.root
    ensures t.g[q].parent in t.g && (t.g[t.g[q].parent].left == q || t.g[t.g[q].parent].right == q)
    ensures t.g[t.g[q].parent].left != t.g[t.g[q].parent].right && t.g[q].parent != q
  {
    hide Pos, Ordered, Listed, NodeOk;
    assert Hangs(t, q);
    KidParents(t, t.g[q].parent);
  }

  lemma GapFacts(s: Shape, x: Node?, par: Node, l: bool)
    requires Short(s, x, par, l) && par in s.g
    ensures var w := s.g[par].Kid(!l);
      && w in s.g && w != par && w != x && w != s.nil && s.g[w].parent == par && s.nil !in s.g && s.root in s.g
      && s.g[w].bh == BH(s, x) + 1 && par != x && x != s.root
      && s.g[par].bh == s.g[w].bh + (if s.g[par].red then 0 else 1)
      && (s.g[w].red ==> !s.g[par].red)
  {
    hide Pos, Tree;
    assert BalOk(s, GapAt(s, par, l), par);
    KidParents(s, par);
    YIsInTree(s, par);
    assert RedOk(s, x, par);
  }

  /** The sibling is red: after a rotation it is black, one level further down. */
  lemma RedSibling(s: Shape, x: Node?, par: Node, l: bool)
    requires Short(s, x, par, l) && par in s.g && IsRed(s, s.g[par].Kid(!l))
    ensures var w := s.g[par].Kid(!l);
      && w in s.g && CanRotate(Traded(s, w, par), par, l)
      && (var s' := Rotated(Traded(s, w, par), par, l);
          && Short(s', x, par, l) && s'.g.Keys == s.g.Keys && !IsRed(s', s'.g[par].Kid(!l)) && s'.g[par].red
            && s'.nil == s.nil
          && s'.g[par].Kid(!l) == s.g[w].Kid(l) && IsRed(s', x) == IsRed(s, x))
  {
    hide Pos, Tree, BalOk, RedOk, Rotated, Traded;
    GapFacts(s, x, par, l);
    var w := s.g[par].Kid(!l);
    TradedLinks(s, w, par);
    var t := Traded(s, w, par);
    RotatedTree(t, par, l);
    TurnKids(t, par, l, par);
    var s' := Rotated(t, par, l);
    TradedHeights(s, w, par);
    forall n | n in s'.g ensures BalOk(s', Gap(par, l), n) && (n != x ==> RedOk(s', x, n)) {
      RedSiblingBal(s, x, par, l, n);
      if n != x { RedSiblingRed(s, x, par, l, n); }
    }
    RedSiblingKids(s, x, par, l);
  }

  lemma TradedLinks(s: Shape, p: Node, q: Node)
    requires Tree(s) && p in s.g && q in s.g
    ensures var t := Traded(s, p, q);
      && Tree(t) && t.g.Keys == s.g.Keys && t.nil == s.nil && t.root == s.root
      && forall c :: c in s.g ==> t.g[c].left == s.g[c].left && t.g[c].right == s.g[c].right
  {
    hide Pos, Tree;
    SameLinksTree(s, Traded(s, p, q));
  }

  lemma TradedHeights(s: Shape, p: Node, q: Node)
    requires p in s.g && q in s.g && p != q
    ensures var t := Traded(s, p, q);
      && BH(t, p) == BH(s, q) && BH(t, q) == BH(s, p) && !IsRed(t, p) && IsRed(t, q)
      && (forall c :: c != p && c != q ==> BH(t, c) == BH(s, c) && IsRed(t, c) == IsRed(s, c))
      && forall n :: n in s.g ==> t.g[n].bh == BH(t, n) && t.g[n].red == IsRed(t, n)
  {}

  lemma RedSiblingKids(s: Shape, x: Node?, par: Node, l: bool)
    requires Short(s, x, par, l) && par in s.g && IsRed(s, s.g[par].Kid(!l))
    ensures var w := s.g[par].Kid(!l);
      && w in s.g && s.g[w].left in s.g && s.g[w].right in s.g && !IsRed(s, s.g[w].left) && !IsRed(s, s.g[w].right)
      && s.g[w].left != par && s.g[w].right != par && s.g[w].left != w && s.g[w].right != w
      && s.g[w].left != x && s.g[w].right != x
  {
    hide Pos, Tree;
    GapFacts(s, x, par, l);
    var w := s.g[par].Kid(!l);
    assert BalOk(s, Gap(par, l), w) && RedOk(s, x, w);
    KidParents(s, w);
    KidParents(s, par);
  }

  lemma RedSiblingBal(s: Shape, x: Node?, par: Node, l: bool, n: Node)
    requires Short(s, x, par, l) && par in s.g && IsRed(s, s.g[par].Kid(!l)) && n in s.g
    requires var t := Traded(s, s.g[par].Kid(!l), par); CanRotate(t, par, l) && Tree(t) && t.g[par].Kid(!l) != t.nil
    ensures var s' := Rotated(Traded(s, s.g[par].Kid(!l), par), par, l); n in s'.g && BalOk(s', Gap(par, l), n)
  {
    hide Pos, Tree, Rotated, Traded, RedOk;
    GapFacts(s, x, par, l);
    RedSiblingKids(s, x, par, l);
    var w := s.g[par].Kid(!l);
    var t := Traded(s, w, par);
    TradedLinks(s, w, par);
    TradedHeights(s, w, par);
    TurnKids(t, par, l, n);
    assert BalOk(s, Gap(par, l), n) && BalOk(s, Gap(par, l), w) && BalOk(s, Gap(par, l), par);
    KidParents(s, n);
    KidParents(s, par);
  }

  lemma RedSiblingRed(s: Shape, x: Node?, par: Node, l: bool, n: Node)
    requires Short(s, x, par, l) && par in s.g && IsRed(s, s.g[par].Kid(!l)) && n in s.g && n != x
    requires var t := Traded(s, s.g[par].Kid(!l), par); CanRotate(t, par, l) && Tree(t) && t.g[par].Kid(!l) != t.nil
    ensures var s' := Rotated(Traded(s, s.g[par].Kid(!l), par), par, l); n in s'.g && RedOk(s', x, n)
  {
    hide Pos, Tree, Rotated, Traded, BalOk;
    GapFacts(s, x, par, l);
    RedSiblingKids(s, x, par, l);
    var w := s.g[par].Kid(!l);
    var t := Traded(s, w, par);
    TradedLinks(s, w, par);
    TradedHeights(s, w, par);
    TurnKids(t, par, l, n);
    assert RedOk(s, x, n);
    KidParents(s, n);
    KidParents(s, par);
  }

  /** The sibling turns red, so that both sides of `par` are one black node short. */
  ghost function Reddened(s: Shape, w: Node, par: Node): Shape
    requires w in s.g && par in s.g && s.g[w].bh > 0 && s.g[par].bh > 0
  {
    s.(g := s.g[w := s.g[w].(red := true, bh := s.g[w].bh - 1)][par := s.g[par].(bh := s.g[par].bh - 1)])
  }

  ghost predicate BlackNephews(s: Shape, x: Node?, par: Node, l: bool) {
    && Short(s, x, par, l) && par in s.g && !IsRed(s, x) && !IsRed(s, s.g[par].Kid(!l))
    && var w := s.g[par].Kid(!l); w in s.g && !IsRed(s, s.g[w].left) && !IsRed(s, s.g[w].right)
  }

  lemma ReddenedHeights(s: Shape, w: Node, par: Node, n: Node)
    requires w in s.g && par in s.g && w != par && s.g[w].bh > 0 && s.g[par].bh > 0 && n in s.g
    ensures var s' := Reddened(s, w, par);
      && BH(s', w) == BH(s, w) - 1 && BH(s', par) == BH(s, par) - 1 && IsRed(s', w) && IsRed(s', par) == IsRed(s, par)
      && (forall c :: c != w && c != par ==> BH(s', c) == BH(s, c) && IsRed(s', c) == IsRed(s, c))
      && n in s'.g && s'.g[n].left == s.g[n].left && s'.g[n].right == s.g[n].right
      && s'.g[n].bh == BH(s', n) && s'.g[n].red == IsRed(s', n)
  {}

  lemma ReddenedBal(s: Shape, x: Node?, par: Node, l: bool, up: Node?, ul: bool, n: Node)
    requires BlackNephews(s, x, par, l) && n in s.g && s.g[s.g[par].Kid(!l)].bh > 0 && s.g[par].bh > 0
    requires up in s.g ==> s.g[up].Kid(ul) == par
    requires up == s.g[par].parent
    ensures n in Reddened(s, s.g[par].Kid(!l), par).g && BalOk(Reddened(s, s.g[par].Kid(!l), par), GapAt(s, up, ul), n)
  {
    hide Pos, Tree, RedOk, Reddened, Balanced;
    GapFacts(s, x, par, l);
    var w := s.g[par].Kid(!l);
    ReddenedHeights(s, w, par, n);
    BalancedAt(s, Gap(par, l), n);
    KidParents(s, n);
    KidParents(s, par);
    if up in s.g { KidParents(s, up); }
  }

  lemma BalancedAt(s: Shape, gap: Gap, n: Node)
    requires Balanced(s, gap) && n in s.g
    ensures BalOk(s, gap, n)
  {}

  lemma ReddenedRed(s: Shape, x: Node?, par: Node, l: bool, n: Node)
    requires BlackNephews(s, x, par, l) && n in s.g && s.g[s.g[par].Kid(!l)].bh > 0 && s.g[par].bh > 0 && n != par
    ensures RedOk(Reddened(s, s.g[par].Kid(!l), par), par, n)
  {
    hide Pos, Tree, BalOk;
    GapFacts(s, x, par, l);
    assert n != x ==> RedOk(s, x, n);
    KidParents(s, n);
    KidParents(s, par);
  }

  /** The gap moves one level up. */
  lemma MoveUp(s: Shape, x: Node?, par: Node, l: bool, up: Node?, ul: bool)
    requires BlackNephews(s, x, par, l) && up == s.g[par].parent && (up in s.g ==> ul == (s.g[up].left == par))
    ensures var w := s.g[par].Kid(!l);
      && s.g[w].bh > 0 && s.g[par].bh > 0
      && (var s' := Reddened(s, w, par);
        Short(s', par, up, ul) && s'.g.Keys == s.g.Keys && s'.nil == s.nil && s'.ns == s.ns)
  {
    hide Pos, Tree, BalOk, RedOk;
    GapFacts(s, x, par, l);
    var w := s.g[par].Kid(!l);
    var s' := Reddened(s, w, par);
    SameLinksTree(s, s');
    RootHasNoParent(s);
    if par != s.root { ParentOfNonRoot(s, par); }
    assert GapAt(s', up, ul) == GapAt(s, up, ul);
    forall n | n in s'.g ensures BalOk(s', GapAt(s', up, ul), n) && (n != par ==> RedOk(s', par, n)) {
      ReddenedBal(s, x, par, l, up, ul, n);
      if n != par { ReddenedRed(s, x, par, l, n); }
    }
  }

  /** Only the inner nephew is red: after a rotation the outer one is. */
  ghost predicate InnerNephew(s: Shape, x: Node?, par: Node, l: bool) {
    && Short(s, x, par, l) && par in s.g && !IsRed(s, x) && !IsRed(s, s.g[par].Kid(!l))
    && var w := s.g[par].Kid(!l); w in s.g && IsRed(s, s.g[w].Kid(l)) && !IsRed(s, s.g[w].Kid(!l))
  }

  lemma InnerNephewFacts(s: Shape, x: Node?, par: Node, l: bool)
    requires InnerNephew(s, x, par, l)
    ensures var w := s.g[par].Kid(!l);
      var i := s.g[w].Kid(l);
      && i in s.g && i != w && i != par && i != x && s.g[i].parent == w && i != s.nil
      && s.g[i].bh + 1 == s.g[w].bh && !IsRed(s, s.g[i].left) && !IsRed(s, s.g[i].right)
      && s.g[i].left != par && s.g[i].right != par && s.g[i].left != w && s.g[i].right != w
      && (x in s.g ==> s.g[i].left != x && s.g[i].right != x)
      && s.root != w && s.root != i
  {
    hide Pos, Tree;
    GapFacts(s, x, par, l);
    var w := s.g[par].Kid(!l);
    var i := s.g[w].Kid(l);
    KidParents(s, w);
    KidParents(s, i);
    KidParents(s, par);
    RootHasNoParent(s);
    assert BalOk(s, Gap(par, l), w) && BalOk(s, Gap(par, l), i) && RedOk(s, x, i);
    NotOwnGrandparent(s, par, w, i);
  }

  lemma NotOwnGrandparent(s: Shape, par: Node, w: Node, i: Node)
    requires Tree(s) && par in s.g && w in s.g && i in s.g
    requires (s.g[par].left == w || s.g[par].right == w) && (s.g[w].left == i || s.g[w].right == i)
    ensures i != par && s.g[i].left != par && s.g[i].right != par && s.g[i].left != w && s.g[i].right != w
  {
    hide Pos, Ordered, Listed, RootOk, Hangs;
    assert NodeOk(s, par) && NodeOk(s, w) && NodeOk(s, i);
    assert s.nil !in s.g;
  }

  lemma InnerNephewBal(s: Shape, x: Node?, par: Node, l: bool, n: Node)
    requires InnerNephew(s, x, par, l) && n in s.g
    requires var w := s.g[par].Kid(!l);
      w in s.g && s.g[w].Kid(l) in s.g && Tree(Traded(s, s.g[w].Kid(l), w))
        && CanRotate(Traded(s, s.g[w].Kid(l), w), w, !l)
    ensures var w := s.g[par].Kid(!l);
      var s' := Rotated(Traded(s, s.g[w].Kid(l), w), w, !l);
      n in s'.g && BalOk(s', Gap(par, l), n)
  {
    hide Pos, Tree, Rotated, Traded, RedOk, Balanced;
    GapFacts(s, x, par, l);
    InnerNephewFacts(s, x, par, l);
    var w := s.g[par].Kid(!l);
    var i := s.g[w].Kid(l);
    var t := Traded(s, i, w);
    TradedLinks(s, i, w);
    TradedHeights(s, i, w);
    TurnKids(t, w, !l, n);
    BalancedAt(s, Gap(par, l), n);
    BalancedAt(s, Gap(par, l), w);
    BalancedAt(s, Gap(par, l), i);
    KidParents(s, n);
    KidParents(s, par);
    KidParents(s, w);
  }

  lemma InnerNephewRed(s: Shape, x: Node?, par: Node, l: bool, n: Node)
    requires InnerNephew(s, x, par, l) && n in s.g
    requires var w := s.g[par].Kid(!l);
      w in s.g && s.g[w].Kid(l) in s.g && Tree(Traded(s, s.g[w].Kid(l), w))
        && CanRotate(Traded(s, s.g[w].Kid(l), w), w, !l)
    ensures var w := s.g[par].Kid(!l);
      var s' := Rotated(Traded(s, s.g[w].Kid(l), w), w, !l);
      n in s'.g && (n != x ==> RedOk(s', x, n))
  {
    hide Pos, Tree, Rotated, Traded, BalOk;
    GapFacts(s, x, par, l);
    InnerNephewFacts(s, x, par, l);
    var w := s.g[par].Kid(!l);
    var i := s.g[w].Kid(l);
    var t := Traded(s, i, w);
    TradedLinks(s, i, w);
    TradedHeights(s, i, w);
    TurnKids(t, w, !l, n);
    assert n != x ==> RedOk(s, x, n);
    KidParents(s, n);
    KidParents(s, par);
    KidParents(s, w);
  }

  lemma InnerNephewTurn(s: Shape, x: Node?, par: Node, l: bool)
    requires InnerNephew(s, x, par, l)
    ensures var w := s.g[par].Kid(!l);
      var i := s.g[w].Kid(l);
      && w in s.g && i in s.g && CanRotate(Traded(s, i, w), w, !l)
      && (var s' := Rotated(Traded(s, i, w), w, !l);
          && Short(s', x, par, l) && s'.g.Keys == s.g.Keys && s'.nil == s.nil && s'.ns == s.ns
          && s'.g[par].Kid(!l) == i && !IsRed(s', i) && s'.g[i].Kid(!l) == w && IsRed(s', w)
            && IsRed(s', x) == IsRed(s, x))
  {
    hide Pos, Tree, BalOk, RedOk, Rotated, Traded;
    GapFacts(s, x, par, l);
    InnerNephewFacts(s, x, par, l);
    var w := s.g[par].Kid(!l);
    var i := s.g[w].Kid(l);
    var t := Traded(s, i, w);
    TradedLinks(s, i, w);
    TradedHeights(s, i, w);
    RotatedTree(t, w, !l);
    TurnKids(t, w, !l, par);
    RotatedAt(t, w, !l, w);
    var s' := Rotated(t, w, !l);
    TradedNs(s, i, w);
    forall n | n in s'.g ensures BalOk(s', Gap(par, l), n) && (n != x ==> RedOk(s', x, n)) {
      InnerNephewBal(s, x, par, l, n);
      InnerNephewRed(s, x, par, l, n);
    }
    KidParents(s, par);
  }

  lemma TradedNs(s: Shape, p: Node, q: Node)
    requires p in s.g && q in s.g
    ensures Traded(s, p, q).ns == s.ns
  {}

  /** The outer nephew is red: one rotation closes the gap. */
  ghost predicate OuterNephew(s: Shape, x: Node?, par: Node, l: bool) {
    && Short(s, x, par, l) && par in s.g && !IsRed(s, x) && !IsRed(s, s.g[par].Kid(!l))
    && var w := s.g[par].Kid(!l); w in s.g && IsRed(s, s.g[w].Kid(!l))
  }

  ghost function Shared(s: Shape, par: Node, w: Node, o: Node): Shape
    requires par in s.g && w in s.g && o in s.g
  {
    s.(g := s.g[w := s.g[w].(red := s.g[par].red, bh := s.g[par].bh)]
               [par := s.g[par].(red := false, bh := s.g[w].bh)]
               [o := s.g[o].(red := false, bh := s.g[o].bh + 1)])
  }

  lemma SharedFacts(s: Shape, par: Node, w: Node, o: Node)
    requires Tree(s) && par in s.g && w in s.g && o in s.g && par != w && o != par && o != w
    ensures var t := Shared(s, par, w, o);
      && Tree(t) && t.g.Keys == s.g.Keys && t.nil == s.nil && t.root == s.root && t.ns == s.ns
      && (forall c :: c in s.g ==> t.g[c].left == s.g[c].left && t.g[c].right == s.g[c].right)
      && BH(t, w) == BH(s, par) && IsRed(t, w) == IsRed(s, par) && BH(t, par) == BH(s, w) && !IsRed(t, par)
      && BH(t, o) == BH(s, o) + 1 && !IsRed(t, o)
      && (forall c :: c != par && c != w && c != o ==> BH(t, c) == BH(s, c) && IsRed(t, c) == IsRed(s, c))
      && forall n :: n in s.g ==> t.g[n].bh == BH(t, n) && t.g[n].red == IsRed(t, n)
  {
    hide Pos, Tree;
    SameLinksTree(s, Shared(s, par, w, o));
  }

  lemma OuterNephewFacts(s: Shape, x: Node?, par: Node, l: bool)
    requires OuterNephew(s, x, par, l)
    ensures var w := s.g[par].Kid(!l);
      var o := s.g[w].Kid(!l);
      && o in s.g && o != w && o != par && o != x && s.g[o].parent == w && s.g[o].bh + 1 == s.g[w].bh
      && BH(s, s.g[w].Kid(l)) == s.g[o].bh && !IsRed(s, s.g[o].left) && !IsRed(s, s.g[o].right)
      && s.root != w && s.root != o && s.g[w].Kid(l) != o && s.g[w].Kid(l) != par && s.g[w].Kid(l) != w
  {
    hide Pos, Tree;
    GapFacts(s, x, par, l);
    var w := s.g[par].Kid(!l);
    var o := s.g[w].Kid(!l);
    KidParents(s, w);
    KidParents(s, o);
    KidParents(s, par);
    RootHasNoParent(s);
    assert BalOk(s, Gap(par, l), w) && BalOk(s, Gap(par, l), o) && RedOk(s, x, o);
    NotOwnGrandparent(s, par, w, o);
    if s.g[w].Kid(l) in s.g { NotOwnGrandparent(s, par, w, s.g[w].Kid(l)); }
  }

  lemma OuterNephewBal(s: Shape, x: Node?, par: Node, l: bool, n: Node)
    requires OuterNephew(s, x, par, l) && n in s.g
    requires var w := s.g[par].Kid(!l);
      w in s.g && s.g[w].Kid(!l) in s.g && CanRotate(Shared(s, par, w, s.g[w].Kid(!l)), par, l)
    ensures var w := s.g[par].Kid(!l);
      var s' := Rotated(Shared(s, par, w, s.g[w].Kid(!l)), par, l);
      n in s'.g && BalOk(s', NoGap, n)
  {
    hide Pos, Tree, Rotated, Shared, RedOk, Balanced;
    GapFacts(s, x, par, l);
    OuterNephewFacts(s, x, par, l);
    var w := s.g[par].Kid(!l);
    var o := s.g[w].Kid(!l);
    SharedFacts(s, par, w, o);
    TurnKids(Shared(s, par, w, o), par, l, n);
    BalancedAt(s, Gap(par, l), n);
    BalancedAt(s, Gap(par, l), w);
    BalancedAt(s, Gap(par, l), par);
    KidParents(s, n);
    KidParents(s, par);
  }

  lemma OuterNephewRed(s: Shape, x: Node?, par: Node, l: bool, n: Node)
    requires OuterNephew(s, x, par, l) && n in s.g
    requires var w := s.g[par].Kid(!l);
      w in s.g && s.g[w].Kid(!l) in s.g && CanRotate(Shared(s, par, w, s.g[w].Kid(!l)), par, l)
    ensures var w := s.g[par].Kid(!l);
      var s' := Rotated(Shared(s, par, w, s.g[w].Kid(!l)), par, l);
      n in s'.g && RedOk(s', null, n)
  {
    hide Pos, Tree, Rotated, Shared, BalOk;
    GapFacts(s, x, par, l);
    OuterNephewFacts(s, x, par, l);
    var w := s.g[par].Kid(!l);
    var o := s.g[w].Kid(!l);
    SharedFacts(s, par, w, o);
    TurnKids(Shared(s, par, w, o), par, l, n);
    assert n != x ==> RedOk(s, x, n);
    KidParents(s, n);
    KidParents(s, par);
  }

  lemma CloseGap(s: Shape, x: Node?, par: Node, l: bool)
    requires OuterNephew(s, x, par, l)
    ensures var w := s.g[par].Kid(!l);
      var o := s.g[w].Kid(!l);
      && w in s.g && o in s.g && CanRotate(Shared(s, par, w, o), par, l)
      && (var s' := Rotated(Shared(s, par, w, o), par, l);
          Valid(s') && s'.g.Keys == s.g.Keys && s'.nil == s.nil && s'.ns == s.ns && s'.root in s'.g)
  {
    hide Pos, Tree, BalOk, RedOk, Rotated, Shared;
    GapFacts(s, x, par, l);
    OuterNephewFacts(s, x, par, l);
    var w := s.g[par].Kid(!l);
    var o := s.g[w].Kid(!l);
    SharedFacts(s, par, w, o);
    var t := Shared(s, par, w, o);
    RotatedTree(t, par, l);
    TurnKids(t, par, l, par);
    RotatedAt(t, par, l, par);
    var s' := Rotated(t, par, l);
    forall n | n in s'.g ensures BalOk(s', NoGap, n) && RedOk(s', null, n) {
      OuterNephewBal(s, x, par, l, n);
      OuterNephewRed(s, x, par, l, n);
    }
  }

  lemma BlackenBal(s: Shape, x: Node, par: Node?, l: bool, n: Node)
    requires Short(s, x, par, l) && x in s.g && (x == s.root || s.g[x].red) && n in s.g
    ensures BalOk(Blackened(s, x), NoGap, n) && RedOk(Blackened(s, x), null, n)
  {
    hide Pos, Tree;
    assert BalOk(s, GapAt(s, par, l), n);
    assert n != x ==> RedOk(s, x, n);
    KidParents(s, n);
    RootHasNoParent(s);
    if par in s.g { KidParents(s, par); }
  }

  /** Painting the node below the gap black ends a deletion. */
  lemma BlackenEnds(s: Shape, x: Node?, par: Node?, l: bool)
    requires Short(s, x, par, l) && (x == s.root || IsRed(s, x))
    ensures if x in s.g then Valid(Blackened(s, x)) else Valid(s)
  {
    hide Pos, Tree, BalOk, RedOk;
    if x in s.g {
      var s' := Blackened(s, x);
      SameLinksTree(s, s');
      forall n | n in s'.g ensures BalOk(s', NoGap, n) && RedOk(s', null, n) {
        BlackenBal(s, x, par, l, n);
      }
    } else {
      EmptyRoot(s);
    }
  }

  lemma EmptyRoot(s: Shape)
    requires Tree(s) && s.root == s.nil
    ensures s.g == map[] && s.ns == []
  {
    hide Pos, Ordered, NodeOk;
    NodesAreListed(s);
  }

  lemma NodesAreListed(s: Shape)
    requires Tree(s)
    ensures s.g.Keys != {} ==> |s.ns| > 0
  {
    hide Pos, Ordered, KidOk;
    if s.g.Keys != {} {
      var n :| n in s.g;
      assert NodeOk(s, n);
    }
  }
}
