/** The red-black tree engine: nodes linked in the heap around a sentinel, edited in place. */
module RBEngine {
  import opened Bytes
  import opened RBShape
  import opened RBDelete
  import opened RBHeap

  // ----- what the tree object knows of its shape

  ghost function NodesOf(s: Shape): set<Node> {
    s.g.Keys
  }

  ghost function KidOf(s: Shape, n: Node?, l: bool): Node? {
    if n in s.g then s.g[n].Kid(l) else null
  }

  ghost function ParentOf(s: Shape, n: Node?): Node? {
    if n in s.g then s.g[n].parent else null
  }

  ghost function KeyOf(s: Shape, n: Node?): Bytes {
    if n in s.g then s.g[n].key else []
  }

  ghost function ValueOf(s: Shape, n: Node?): Bytes {
    if n in s.g then s.g[n].value else []
  }

  /** The stretch below side `l` of a node. */
  ghost function FromOf(s: Shape, n: Node?, l: bool): nat {
    if n in s.g then s.g[n].From(l) else 0
  }

  ghost function ToOf(s: Shape, n: Node?, l: bool): nat {
    if n in s.g then s.g[n].To(l) else 0
  }

  ghost predicate PicturesShape(s: Shape)
    reads s.g.Keys
  {
    Pictures(s.g)
  }

  ghost predicate CanTurn(s: Shape, x: Node, l: bool) {
    x in s.g && s.g[x].Kid(!l) != s.nil
  }

  /** Rotates `x` towards `l`, below the root; tells whether the root pointer has to follow. */
  method TurnNodes(ghost s: Shape, nil: Node, x: Node, l: bool) returns (y: Node, top: bool)
    requires PicturesShape(s) && Tree(s) && CanTurn(s, x, l) && nil == s.nil
    modifies s.g.Keys
    ensures CanRotate(s, x, l) && y == Riser(s, x, l) && PicturesShape(Rotated(s, x, l))
    ensures top <==> x == s.root
  {
    hide Pictures, Tree, Rotated;
    RotateAround(s, x, l);
    RotatePicture(s, x, l);
    Seen(s.g, x);
    y := if l then x.right else x.left;
    Seen(s.g, y);
    ghost var g: map<Node, Rec> := s.g;
    var d := if l then y.left else y.right;
    var q := x.parent;
    SetKid(g, x, !l, d);
    g := g[x := g[x].WithKid(!l, d)];
    if d != nil {
      SetParent(g, d, x);
      g := g[d := g[d].(parent := x)];
    }
    SetParent(g, y, q);
    g := g[y := g[y].(parent := q)];
    top := q == nil;
    if q != nil {
      Seen(g, q);
      var side := x == q.left;
      SetKid(g, q, side, y);
      g := g[q := g[q].WithKid(side, y)];
    }
    SetKid(g, y, l, x);
    g := g[y := g[y].WithKid(l, x)];
    SetParent(g, x, y);
    g := g[x := g[x].(parent := y)];
    assert g == RotateEdits(s, x, y, l);
    Reshade(g, Rotated(s, x, l).g);
  }

  // ----- painting nodes

  /** What the fields of a node show. */
  lemma Look(s: Shape, n: Node)
    requires PicturesShape(s) && n in NodesOf(s)
    ensures n.left == KidOf(s, n, true) && n.right == KidOf(s, n, false) && n.parent == ParentOf(s, n)
    ensures n.red == IsRed(s, n)
    ensures n.key == KeyOf(s, n) && n.value == ValueOf(s, n)
  {
    Seen(s.g, n);
  }

  /** `p` turns black and `q` red, with the black heights traded. */
  method PaintTraded(ghost s: Shape, p: Node, q: Node)
    requires PicturesShape(s) && p in s.g && q in s.g && p != q
    modifies p, q
    ensures PicturesShape(Traded(s, p, q))
  {
    hide Pictures;
    SetRed(s.g, p, false);
    ghost var g: map<Node, Rec> := s.g[p := s.g[p].(red := false)];
    SetRed(g, q, true);
    Reshade(g[q := g[q].(red := true)], Traded(s, p, q).g);
  }

  method PaintRecoloured(ghost s: Shape, p: Node, y: Node, q: Node)
    requires PicturesShape(s) && p in s.g && q in s.g && y in s.g && p != q && y != q && p != y
    modifies p, q, y
    ensures PicturesShape(Recoloured(s, p, y, q))
  {
    hide Pictures;
    SetRed(s.g, p, false);
    ghost var g: map<Node, Rec> := s.g[p := s.g[p].(red := false)];
    SetRed(g, y, false);
    g := g[y := g[y].(red := false)];
    SetRed(g, q, true);
    Reshade(g[q := g[q].(red := true)], Recoloured(s, p, y, q).g);
  }

  method PaintReddened(ghost s: Shape, w: Node, ghost par: Node)
    requires PicturesShape(s) && w in s.g && par in s.g && w != par && s.g[w].bh > 0 && s.g[par].bh > 0
    modifies w
    ensures PicturesShape(Reddened(s, w, par))
  {
    hide Pictures;
    SetRed(s.g, w, true);
    Reshade(s.g[w := s.g[w].(red := true)], Reddened(s, w, par).g);
  }

  method PaintShared(ghost s: Shape, par: Node, w: Node, o: Node)
    requires PicturesShape(s) && par in s.g && w in s.g && o in s.g && par != w && o != par && o != w
    modifies par, w, o
    ensures PicturesShape(Shared(s, par, w, o))
  {
    hide Pictures;
    Seen(s.g, par);
    SetRed(s.g, w, par.red);
    ghost var g: map<Node, Rec> := s.g[w := s.g[w].(red := s.g[par].red)];
    SetRed(g, par, false);
    g := g[par := g[par].(red := false)];
    SetRed(g, o, false);
    Reshade(g[o := g[o].(red := false)], Shared(s, par, w, o).g);
  }

  method PaintBlack(ghost s: Shape, n: Node)
    requires PicturesShape(s) && n in NodesOf(s)
    modifies n
    ensures n in s.g && PicturesShape(Blackened(s, n))
  {
    hide Pictures;
    SetRed(s.g, n, false);
    Reshade(s.g[n := s.g[n].(red := false)], Blackened(s, n).g);
  }

  // ----- the represented map

  /** The listed nodes carry exactly the entries of `m`. */
  ghost predicate Holds(s: Shape, m: map<Bytes, Bytes>) {
    && Listed(s)
    && (forall j :: 0 <= j < |s.ns| ==> s.g[s.ns[j]].key in m && m[s.g[s.ns[j]].key] == s.g[s.ns[j]].value)
    && forall k :: k in m ==> exists j :: 0 <= j < |s.ns| && s.g[s.ns[j]].key == k
  }

  /** Same list of nodes, with the same payloads. */
  ghost predicate SameEntries(s: Shape, s': Shape) {
    && s'.ns == s.ns && s'.g.Keys == s.g.Keys && s'.nil == s.nil
    && forall n :: n in s.g ==> s'.g[n].key == s.g[n].key && s'.g[n].value == s.g[n].value
  }

  lemma HoldsSame(s: Shape, s': Shape, m: map<Bytes, Bytes>)
    requires Holds(s, m) && SameEntries(s, s') && Listed(s')
    ensures Holds(s', m)
  {
    hide Pos;
  }

  lemma RotatedEntries(s: Shape, x: Node, l: bool)
    requires Tree(s) && CanTurn(s, x, l)
    ensures CanRotate(s, x, l) && SameEntries(s, Rotated(s, x, l)) && Tree(Rotated(s, x, l))
  {
    hide Pos, Tree, Rotated;
    RotatedTree(s, x, l);
    RotatedAt(s, x, l, x);
    forall n | n in s.g ensures Rotated(s, x, l).g[n].key == s.g[n].key && Rotated(s, x, l).g[n].value == s.g[n].value {
      RotatedAt(s, x, l, n);
    }
  }

  lemma SameEntriesRefl(s: Shape)
    ensures SameEntries(s, s)
  {}

  lemma SameEntriesTrans(s: Shape, t: Shape, u: Shape)
    requires SameEntries(s, t) && SameEntries(t, u)
    ensures SameEntries(s, u)
  {}

  // ----- insertion

  /** Sound, except that `z` may be a red child of a red node. */
  ghost predicate Loose(s: Shape, z: Node) {
    && Tree(s) && Balanced(s, NoGap) && RedsApart(s, z) && z in s.g && s.g[z].red && (z != s.root ==> !IsRed(s, s.root))
  }

  ghost function SizeOf(s: Shape, n: Node?): nat {
    if n in s.g && s.g[n].a <= s.g[n].b then s.g[n].b - s.g[n].a else 0
  }

  ghost function Total(s: Shape): nat {
    |s.ns|
  }

  lemma SizeGrows(s: Shape, n: Node)
    requires Tree(s) && n in s.g
    ensures SizeOf(s, n) <= Total(s)
    ensures ParentOf(s, n) in s.g ==> SizeOf(s, n) < SizeOf(s, ParentOf(s, n)) <= Total(s)
  {
    hide Pos, Ordered, Listed;
    assert NodeOk(s, n);
    RootHasNoParent(s);
    if s.g[n].parent in s.g {
      assert Hangs(s, n);
      assert NodeOk(s, s.g[n].parent);
    }
  }

  /** A red node with a red parent has a black grandparent. */
  lemma ClashFound(s: Shape, z: Node) returns (p: Node, q: Node, l: bool)
    requires Loose(s, z) && IsRed(s, ParentOf(s, z))
    ensures p == ParentOf(s, z) && q == ParentOf(s, p) && Clash(s, z, p, q, l) && l == (s.g[q].left == p)
    ensures SizeOf(s, z) < SizeOf(s, q) <= Total(s)
  {
    hide Pos, Ordered, Listed, NodeOk, BalOk;
    p := s.g[z].parent;
    RootHasNoParent(s);
    assert Hangs(s, z);
    assert p != s.root;
    assert Hangs(s, p);
    q := s.g[p].parent;
    l := s.g[q].left == p;
    KidParents(s, p);
    KidParents(s, q);
    assert RedOk(s, z, q);
    SizeGrows(s, z);
    SizeGrows(s, p);
  }

  lemma SettledIsLoose(s: Shape, z: Node)
    requires Valid(s) && z in s.g && s.g[z].red
    ensures Loose(s, z)
  {
    hide Pos, Tree, BalOk;
    forall n | n in s.g ensures RedOk(s, z, n) {
      assert RedOk(s, null, n);
    }
  }

  lemma PaintedEntries(s: Shape, s': Shape)
    requires SameLinks(s, s')
    ensures SameEntries(s, s') && NodesOf(s') == NodesOf(s)
  {}

  /** The uncle is red: the clash moves two levels up. */
  lemma RecolourStep(s: Shape, z: Node, p: Node, q: Node, l: bool)
    requires Loose(s, z) && Clash(s, z, p, q, l) && IsRed(s, KidOf(s, q, !l))
    ensures var y := KidOf(s, q, !l);
      && p in s.g && y in s.g && q in s.g && y != p && y != q && p != q
      && (var s' := Recoloured(s, p, y, q);
          && Loose(s', q) && SameEntries(s, s') && NodesOf(s') == NodesOf(s)
          && s'.root == s.root && s'.nil == s.nil && SizeOf(s', q) == SizeOf(s, q))
  {
    hide Pos, Tree, BalOk, RedOk;
    ClashFacts(s, z, p, q, l);
    RecolourOk(s, z, p, q, l);
    PaintedEntries(s, Recoloured(s, p, s.g[q].Kid(!l), q));
  }

  /** The uncle is black and `z` an outer grandchild: the clash goes away. */
  lemma OuterStep(s: Shape, z: Node, p: Node, q: Node, l: bool)
    requires OuterCase(s, z, p, q, l)
    ensures p in s.g && q in s.g && p != q
    ensures var t := Traded(s, p, q);
      && Tree(t) && CanTurn(t, q, !l) && SameEntries(s, t) && NodesOf(t) == NodesOf(s) && t.root == s.root
        && t.nil == s.nil
      && CanRotate(t, q, !l)
      && (var s' := Rotated(t, q, !l); Loose(s', z) && !IsRed(s', ParentOf(s', z)))
  {
    hide Pos, Tree, BalOk, RedOk, Rotated;
    TradedTree(s, z, p, q, l);
    OuterClash(s, z, p, q, l);
    PaintedEntries(s, Traded(s, p, q));
    OuterFacts(s, z, p, q, l, z);
    OuterSelf(s, z, p, q, l, z);
    OuterSelf(s, z, p, q, l, p);
    SettledIsLoose(Rotated(Traded(s, p, q), q, !l), z);
  }

  lemma InnerStep(s: Shape, z: Node, p: Node, q: Node, l: bool)
    requires Clash(s, z, p, q, l) && KidOf(s, p, !l) == z && !IsRed(s, KidOf(s, q, !l))
    ensures Tree(s) && CanTurn(s, p, l) && CanRotate(s, p, l) && OuterCase(Rotated(s, p, l), p, z, q, l)
  {
    hide Pos, Tree, BalOk, RedOk, Rotated;
    ClashFacts(s, z, p, q, l);
    InnerClash(s, z, p, q, l);
  }

  lemma ClashLinks(s: Shape, z: Node, p: Node, q: Node, l: bool)
    requires Clash(s, z, p, q, l)
    ensures {z, p, q} <= NodesOf(s) && s.nil !in NodesOf(s) && !IsRed(s, s.nil)
    ensures ParentOf(s, z) == p && ParentOf(s, p) == q && KidOf(s, q, l) == p && KidOf(s, q, !l) != p
    ensures KidOf(s, p, l) == z || KidOf(s, p, !l) == z
    ensures KidOf(s, p, l) == z ==> KidOf(s, p, !l) != z
    ensures KidOf(s, q, !l) in NodesOf(s) || KidOf(s, q, !l) == s.nil
    ensures KidOf(s, p, l) == z && !IsRed(s, KidOf(s, q, !l)) ==> OuterCase(s, z, p, q, l)
  {
    hide Pos, Tree, BalOk, RedOk;
    KidParents(s, q);
    KidParents(s, p);
  }

  lemma LooseLook(s: Shape, nil: Node, z: Node)
    requires PicturesShape(s) && Loose(s, z) && nil == s.nil && !nil.red
    ensures z in NodesOf(s) && s.root in NodesOf(s) && z.parent == ParentOf(s, z) && z.parent != null
    ensures z.parent.red == IsRed(s, ParentOf(s, z))
    ensures z.parent == nil || z.parent in NodesOf(s)
  {
    hide Pos, Ordered, Listed, NodeOk;
    YIsInTree(s, z);
    RootHasNoParent(s);
    Look(s, z);
    if z != s.root {
      assert Hangs(s, z);
      Look(s, s.g[z].parent);
    }
  }

  lemma LooseEnds(s: Shape, z: Node)
    requires Loose(s, z) && !IsRed(s, ParentOf(s, z))
    ensures s.root in NodesOf(s)
    ensures var s' := Blackened(s, s.root);
      RBShape.Valid(s') && SameEntries(s, s') && NodesOf(s') == NodesOf(s) && s'.root == s.root && s'.nil == s.nil
  {
    hide Pos, Tree, BalOk, RedOk;
    YIsInTree(s, z);
    BlackenedRoot(s, z);
    PaintedEntries(s, Blackened(s, s.root));
  }

  // ----- the descent

  ghost predicate InKeyOrder(s: Shape, lo: nat, hi: nat, key: Bytes) {
    && Listed(s) && lo <= hi <= |s.ns|
    && (forall j :: 0 <= j < lo ==> Pos(s.g[s.ns[j]].key) < Pos(key))
    && (forall j :: hi <= j < |s.ns| ==> Pos(key) < Pos(s.g[s.ns[j]].key))
  }

  /** `x` heads the only stretch that may list `key`, and hangs on side `l` of `y`, if on anything. */
  ghost predicate Descends(s: Shape, key: Bytes, x: Node?, y: Node?, l: bool, lo: nat, hi: nat) {
    && InKeyOrder(s, lo, hi, key)
    && (if x in s.g then s.g[x].a == lo && s.g[x].b == hi else x == s.nil && lo == hi)
    && (if y in s.g then
          && s.g[y].Kid(l) == x && s.g[y].From(l) == lo && s.g[y].To(l) == hi
          && l == (Pos(key) < Pos(s.g[y].key)) && Pos(key) != Pos(s.g[y].key)
        else y == s.nil && x == s.root)
  }

  lemma DescentStarts(s: Shape, key: Bytes)
    requires Tree(s)
    ensures Descends(s, key, s.root, s.nil, true, 0, Total(s)) && (s.root in NodesOf(s) || s.root == s.nil)
  {
    hide Pos, Ordered;
    if s.root !in s.g { EmptyRoot(s); }
  }

  lemma DescentStep(s: Shape, key: Bytes, x: Node, y: Node?, l: bool, lo: nat, hi: nat, c: int)
    requires Tree(s) && Descends(s, key, x, y, l, lo, hi) && x in NodesOf(s) && c == Compare(key, KeyOf(s, x)) && c != 0
    ensures var k := c < 0;
      && Descends(s, key, KidOf(s, x, k), x, k, FromOf(s, x, k), ToOf(s, x, k))
      && (KidOf(s, x, k) in NodesOf(s) || KidOf(s, x, k) == s.nil)
      && 0 <= ToOf(s, x, k) - FromOf(s, x, k) < hi - lo
  {
    hide Pos, RootOk, Hangs;
    CompareIsPos(key, s.g[x].key);
    assert NodeOk(s, x);
    var p := s.g[x].p;
    assert s.ns[p] == x;
  }

  /** A node carries an entry of the map. */
  lemma DescentHits(s: Shape, m: map<Bytes, Bytes>, x: Node)
    requires Tree(s) && Holds(s, m) && x in NodesOf(s)
    ensures KeyOf(s, x) in m && m[KeyOf(s, x)] == ValueOf(s, x)
  {
    hide Pos, Ordered, RootOk, Hangs, KidOk;
    assert NodeOk(s, x);
  }

  lemma DescentMisses(s: Shape, m: map<Bytes, Bytes>, key: Bytes, y: Node?, l: bool, lo: nat, hi: nat, z: Node)
    requires Tree(s) && Holds(s, m) && Descends(s, key, s.nil, y, l, lo, hi)
    ensures key !in m && y != null && (y != s.nil <==> y in NodesOf(s))
    ensures y != s.nil ==> (Compare(key, KeyOf(s, y)) < 0) == l
    ensures z !in NodesOf(s) && z != s.nil ==> if y != s.nil then CanGraft(s, y, l, z, key) else s.root == s.nil
  {
    hide Pos, Ordered, RootOk, Hangs, NodeOk;
    if y in s.g { CompareIsPos(key, s.g[y].key); }
  }

  // ----- a new node

  /** The only node of a tree. */
  ghost function Single(s: Shape, z: Node, key: Bytes, value: Bytes): Shape {
    Shape(z, s.nil, map[z := Rec(true, s.nil, s.nil, s.nil, key, value, 0, 1, 0, 0)], [z])
  }

  lemma SingleLoose(s: Shape, z: Node, key: Bytes, value: Bytes)
    requires Tree(s) && s.root == s.nil && z != s.nil
    ensures s.g == map[]
    ensures var s' := Single(s, z, key, value); Loose(s', z) && NodesOf(s') == NodesOf(s) + {z}
  {
    hide Pos;
    EmptyRoot(s);
    var s' := Single(s, z, key, value);
    assert NodeOk(s', z) && BalOk(s', NoGap, z) && RedOk(s', z, z);
  }

  lemma SingleHolds(s: Shape, m: map<Bytes, Bytes>, z: Node, key: Bytes, value: Bytes)
    requires Tree(s) && s.root == s.nil && z != s.nil && Holds(s, m)
    ensures m == map[] && Holds(Single(s, z, key, value), m[key := value])
  {
    hide Pos;
    EmptyRoot(s);
    var s' := Single(s, z, key, value);
    assert s'.ns[0] == z;
  }

  lemma GraftHolds(s: Shape, m: map<Bytes, Bytes>, y: Node, l: bool, z: Node, key: Bytes, value: Bytes)
    requires CanGraft(s, y, l, z, key) && Holds(s, m) && key !in m
    ensures Holds(Grafted(s, y, l, z, key, value), m[key := value])
  {
    hide Pos, Tree, Grafted, KeyFits;
    var s', m' := Grafted(s, y, l, z, key, value), m[key := value];
    var i := Slot(s.g[y], l);
    GraftedSize(s, y, l, z, key, value);
    forall j | 0 <= j < |s'.ns| ensures s'.ns[j] in s'.g && s'.g[s'.ns[j]].p == j
      && s'.g[s'.ns[j]].key in m' && m'[s'.g[s'.ns[j]].key] == s'.g[s'.ns[j]].value
    {
      GraftedListing(s, y, l, z, key, value, j);
    }
    forall k | k in m' ensures exists j :: 0 <= j < |s'.ns| && s'.g[s'.ns[j]].key == k {
      if k == key {
        GraftedListing(s, y, l, z, key, value, i);
      } else {
        var j :| 0 <= j < |s.ns| && s.g[s.ns[j]].key == k;
        GraftedListing(s, y, l, z, key, value, if j < i then j else j + 1);
      }
    }
  }

  lemma GraftedSize(s: Shape, y: Node, l: bool, z: Node, key: Bytes, value: Bytes)
    requires CanGraft(s, y, l, z, key)
    ensures |Grafted(s, y, l, z, key, value).ns| == |s.ns| + 1
    ensures Grafted(s, y, l, z, key, value).nil == s.nil && Grafted(s, y, l, z, key, value).root == s.root
    ensures NodesOf(Grafted(s, y, l, z, key, value)) == NodesOf(s) + {z}
  {
    hide Pos, Tree, Grafted, KeyFits;
    GraftedAt(s, y, l, z, key, value, y);
  }

  lemma GraftPicture(s: Shape, y: Node, l: bool, z: Node, key: Bytes, value: Bytes)
    requires CanGraft(s, y, l, z, key)
    ensures SamePicture(s.g[y := s.g[y].WithKid(l, z)][z := NewRec(s, y, key, value, 0)],
      Grafted(s, y, l, z, key, value).g)
  {
    hide Pos, Tree, Grafted, KeyFits;
    var g, s' := s.g[y := s.g[y].WithKid(l, z)][z := NewRec(s, y, key, value, 0)], Grafted(s, y, l, z, key, value);
    GraftedAt(s, y, l, z, key, value, y);
    forall n | n in g ensures s'.g[n].(a := g[n].a, b := g[n].b, p := g[n].p, bh := g[n].bh) == g[n] {
      if n != z { GraftedAt(s, y, l, z, key, value, n); }
    }
  }

  lemma AddSeen(g: map<Node, Rec>, z: Node, r: Rec)
    requires Pictures(g) && Mirrors(z, r)
    ensures Pictures(g[z := r])
  {
    var g' := g[z := r];
    forall n | n in g' ensures Mirrors(n, g'[n]) {
      if n != z { Seen(g, n); }
    }
  }

  lemma OneSeen(z: Node, r: Rec)
    requires Mirrors(z, r)
    ensures Pictures(map[z := r])
  {}

  /** Hangs the node `z` below `y`. */
  method HangNode(ghost s: Shape, nil: Node, y: Node, l: bool, z: Node)
    requires PicturesShape(s) && nil == s.nil && z !in NodesOf(s) && CanGraft(s, y, l, z, z.key)
    modifies y`left, y`right, z`left, z`right, z`parent, z`red
    ensures PicturesShape(Grafted(s, y, l, z, z.key, z.value))
  {
    hide Pos, Tree, Pictures, Grafted, KeyFits;
    z.parent := y;
    SetKid(s.g, y, l, z);
    z.left := nil;
    z.right := nil;
    z.red := true;
    GraftPicture(s, y, l, z, z.key, z.value);
    AddSeen(s.g[y := s.g[y].WithKid(l, z)], z, NewRec(s, y, z.key, z.value, 0));
    Reshade(s.g[y := s.g[y].WithKid(l, z)][z := NewRec(s, y, z.key, z.value, 0)],
      Grafted(s, y, l, z, z.key, z.value).g);
  }

  /** Makes `z` the root of an empty tree. */
  method PlantNode(ghost s: Shape, nil: Node, z: Node)
    requires nil == s.nil && z != nil
    modifies z`left, z`right, z`parent, z`red
    ensures PicturesShape(Single(s, z, z.key, z.value))
  {
    hide Pictures;
    z.parent := nil;
    z.left := nil;
    z.right := nil;
    z.red := true;
    OneSeen(z, Single(s, z, z.key, z.value).g[z]);
  }

  // ----- neighbours in key order

  ghost function FirstOf(s: Shape, n: Node?): nat {
    if n in s.g then s.g[n].a else 0
  }

  ghost function EndOf(s: Shape, n: Node?): nat {
    if n in s.g then s.g[n].b else 0
  }

  ghost function PlaceOf(s: Shape, n: Node?): nat {
    if n in s.g then s.g[n].p else 0
  }

  /** The node listed after `n`, or the sentinel. */
  ghost function NextOf(s: Shape, n: Node?): Node? {
    if n in s.g && s.g[n].p + 1 < |s.ns| then s.ns[s.g[n].p + 1] else s.nil
  }

  lemma LeftStep(s: Shape, x: Node)
    requires Tree(s) && x in NodesOf(s)
    ensures var c := KidOf(s, x, true);
      if c == s.nil then FirstOf(s, x) == PlaceOf(s, x)
      else c in NodesOf(s) && FirstOf(s, c) == FirstOf(s, x) && SizeOf(s, c) < SizeOf(s, x)
  {
    hide Pos, Ordered, Listed, RootOk, Hangs;
    assert NodeOk(s, x);
    var c := s.g[x].left;
    assert c != s.nil ==> NodeOk(s, c);
  }

  lemma RightStart(s: Shape, x: Node, y: Node)
    requires Tree(s) && x in NodesOf(s)
    ensures var c := KidOf(s, x, false);
      if c == s.nil then EndOf(s, x) == PlaceOf(s, x) + 1
      else c in NodesOf(s) && FirstOf(s, c) == PlaceOf(s, x) + 1
    ensures y in NodesOf(s) && PlaceOf(s, y) == PlaceOf(s, x) + 1 ==> y == NextOf(s, x)
    ensures ParentOf(s, x) == s.nil || ParentOf(s, x) in NodesOf(s)
  {
    hide Pos, Ordered, Listed;
    RootHasNoParent(s);
    assert NodeOk(s, x);
    assert y in s.g ==> NodeOk(s, y);
    assert x != s.root ==> Hangs(s, x);
  }

  lemma ClimbStep(s: Shape, x0: Node, x: Node)
    requires Tree(s) && x0 in NodesOf(s) && x in NodesOf(s) && EndOf(s, x) == PlaceOf(s, x0) + 1
    ensures var y := ParentOf(s, x);
      && (y == s.nil ==> NextOf(s, x0) == s.nil)
      && (y != s.nil ==> y in NodesOf(s) && (ParentOf(s, y) == s.nil || ParentOf(s, y) in NodesOf(s)))
      && (y != s.nil && KidOf(s, y, false) == x ==>
        EndOf(s, y) == EndOf(s, x) && SizeOf(s, x) < SizeOf(s, y) <= Total(s))
      && (y != s.nil && KidOf(s, y, false) != x ==> y == NextOf(s, x0))
  {
    hide Pos, Ordered;
    RootHasNoParent(s);
    var y := s.g[x].parent;
    if x != s.root {
      assert Hangs(s, x);
      assert NodeOk(s, y) && NodeOk(s, x);
      assert y != s.root ==> Hangs(s, y);
    }
  }

  // ----- taking a node out

  lemma SpliceChosen(s: Shape, z: Node, y: Node, k: bool)
    requires RBShape.Valid(s) && z in NodesOf(s) && k == (KidOf(s, y, true) != s.nil)
    requires
      if KidOf(s, z, true) == s.nil || KidOf(s, z, false) == s.nil then y == z
      else y == NextOf(s, z) && KidOf(s, y, true) == s.nil
    ensures CanSplice(s, z, y, KidOf(s, y, k), k) && y in NodesOf(s)
    ensures var x := KidOf(s, y, k); x == s.nil || x in NodesOf(s)
  {
    hide Pos, Ordered, BalOk, RedOk;
    assert NodeOk(s, z);
    if y != z {
      assert z in s.g && s.g[z].right in s.g && NodeOk(s, s.g[z].right);
      assert s.g[z].p + 1 < |s.ns|;
      assert y == s.ns[s.g[z].p + 1];
    }
    KidParents(s, y);
  }

  lemma SpliceAround(s: Shape, z: Node, y: Node, x: Node?, k: bool)
    requires CanSplice(s, z, y, x, k)
    ensures s.nil !in s.g && z in s.g && y in s.g && s.g[y].p < |s.ns| && (x == s.nil || x in s.g) && x != y
    ensures var q := s.g[y].parent;
      && q != y && (q == s.nil || (q in s.g && q != x && (s.g[q].left == y || s.g[q].right == y)))
      && (q == s.nil <==> y == s.root)
  {
    hide Pos, Tree, BalOk, RedOk;
    SpliceFacts(s, z, y, x, k);
    RootHasNoParent(s);
    if y != s.root { ParentHasKid(s, y); }
  }

  ghost function SpliceEdits(s: Shape, z: Node, y: Node, x: Node?): map<Node, Rec>
    requires y in s.g && z in s.g
  {
    var q := s.g[y].parent;
    var g1: map<Node, Rec> := if x in s.g then s.g[x := s.g[x].(parent := q)] else s.g;
    var g2: map<Node, Rec> := if q in g1 then g1[q := g1[q].WithKid(g1[q].left == y, x)] else g1;
    g2[z := g2[z].(key := g2[y].key, value := g2[y].value)]
  }

  /** The fields of a node after the edits. */
  ghost function SpliceView(s: Shape, z: Node, y: Node, x: Node?, n: Node): Rec
    requires n in s.g && y in s.g
  {
    var r, q := s.g[n], s.g[y].parent;
    r.(
      parent := if n == x then q else r.parent,
      left := if n == q && r.left == y then x else r.left,
      right := if n == q && r.left != y then x else r.right,
      key := if n == z then s.g[y].key else r.key,
      value := if n == z then s.g[y].value else r.value)
  }

  lemma SpliceEditsAt(s: Shape, z: Node, y: Node, x: Node?, n: Node)
    requires z in s.g && y in s.g && n in s.g && x != y && s.g[y].parent != y && (x in s.g ==> s.g[y].parent != x)
    ensures SpliceEdits(s, z, y, x).Keys == s.g.Keys
    ensures n != y ==> SpliceEdits(s, z, y, x)[n] == SpliceView(s, z, y, x, n)
  {}

  lemma SpliceSeen(s: Shape, z: Node, y: Node, x: Node?, k: bool, n: Node)
    requires CanSplice(s, z, y, x, k) && n in s.g && n != y && x != y && s.g[y].parent != y
    requires x in s.g ==> s.g[y].parent != x
    ensures var s' := Spliced(s, z, y, x);
      && n in s'.g
      && (var e := SpliceView(s, z, y, x, n); s'.g[n].(a := e.a, b := e.b, p := e.p, bh := e.bh) == e)
  {
    hide Pos, Tree, BalOk, RedOk, Spliced;
    SplicedAt(s, z, y, x, k, n);
  }

  lemma SplicePicture(s: Shape, z: Node, y: Node, x: Node?, k: bool)
    requires CanSplice(s, z, y, x, k)
    ensures z in s.g && SamePicture(SpliceEdits(s, z, y, x) - {y}, Spliced(s, z, y, x).g)
  {
    hide Pos, Valid, Spliced, SpliceEdits, SpliceView;
    SpliceAround(s, z, y, x, k);
    SplicedKeys(s, z, y, x);
    SpliceEditsAt(s, z, y, x, y);
    var e, s' := SpliceEdits(s, z, y, x) - {y}, Spliced(s, z, y, x);
    forall n | n in e ensures n in s'.g && s'.g[n].(a := e[n].a, b := e[n].b, p := e[n].p, bh := e[n].bh) == e[n] {
      SpliceEditsAt(s, z, y, x, n);
      SpliceSeen(s, z, y, x, k, n);
    }
  }

  /** Puts `x` into the place of `y`; when `y` is not `z`, they swap payloads. */
  method SpliceOut(ghost s: Shape, nil: Node, z: Node, y: Node, x: Node, ghost k: bool) returns (top: bool)
    requires PicturesShape(s) && CanSplice(s, z, y, x, k) && nil == s.nil
    modifies NodesOf(s), nil`parent
    ensures PicturesShape(Spliced(s, z, y, x)) && x.parent == ParentOf(s, y) && (top <==> y == s.root)
    ensures y.red == old(y.red)
  {
    hide Pos, Tree, Pictures, Spliced, CanSplice;
    SpliceAround(s, z, y, x, k);
    Seen(s.g, y);
    var q := y.parent;
    ghost var g: map<Node, Rec> := s.g;
    if x == nil {
      x.parent := q;
    } else {
      SetParent(g, x, q);
      g := g[x := g[x].(parent := q)];
    }
    top := q == nil;
    if q != nil {
      Seen(g, q);
      var side := y == q.left;
      SetKid(g, q, side, x);
      g := g[q := g[q].WithKid(side, x)];
    }
    assert x.parent == q;
    ghost var e := g;
    if y != z {
      Seen(g, y);
      Seen(g, z);
      var key, value := z.key, z.value;
      SetPayload(g, z, y.key, y.value);
      g := g[z := g[z].(key := g[y].key, value := g[y].value)];
      e := g;
      SetPayload(g, y, key, value);
      g := g[y := g[y].(key := key, value := value)];
    }
    assert g - {y} == SpliceEdits(s, z, y, x) - {y};
    SplicePicture(s, z, y, x, k);
    Forget(g, y);
    Reshade(g - {y}, Spliced(s, z, y, x).g);
  }

  /** The list without the entry of `z`. */
  lemma SpliceHolds(s: Shape, m: map<Bytes, Bytes>, z: Node, y: Node, x: Node?, k: bool)
    requires CanSplice(s, z, y, x, k) && Holds(s, m)
    ensures Holds(Spliced(s, z, y, x), m - {KeyOf(s, z)})
  {
    hide Pos, Tree, BalOk, RedOk, Spliced, Holds;
    var s', m' := Spliced(s, z, y, x), m - {KeyOf(s, z)};
    SplicedNs(s, z, y, x);
    var p := s.g[z].p;
    KeysDiffer(s, z);
    forall j | 0 <= j < |s'.ns| ensures s'.ns[j] in s'.g && s'.g[s'.ns[j]].p == j
      && s'.g[s'.ns[j]].key in m' && m'[s'.g[s'.ns[j]].key] == s'.g[s'.ns[j]].value
    {
      SplicedListing(s, z, y, x, k, j);
      HoldsAt(s, m, if j < p then j else j + 1);
    }
    forall c | c in m' ensures exists j :: 0 <= j < |s'.ns| && s'.g[s'.ns[j]].key == c {
      var j := HoldsKey(s, m, c);
      SplicedListing(s, z, y, x, k, if j < p then j else j - 1);
    }
    HoldsIs(s', m');
  }

  lemma HoldsAt(s: Shape, m: map<Bytes, Bytes>, j: nat)
    requires Holds(s, m) && j < |s.ns|
    ensures s.ns[j] in s.g && s.g[s.ns[j]].key in m && m[s.g[s.ns[j]].key] == s.g[s.ns[j]].value
  {}

  lemma HoldsKey(s: Shape, m: map<Bytes, Bytes>, c: Bytes) returns (j: nat)
    requires Holds(s, m) && c in m
    ensures j < |s.ns| && s.ns[j] in s.g && s.g[s.ns[j]].key == c
  {
    j :| 0 <= j < |s.ns| && s.g[s.ns[j]].key == c;
  }

  lemma HoldsIs(s: Shape, m: map<Bytes, Bytes>)
    requires forall j :: 0 <= j < |s.ns| ==> s.ns[j] in s.g && s.g[s.ns[j]].p == j && s.g[s.ns[j]].key in m
    requires forall j :: 0 <= j < |s.ns| ==> m[s.g[s.ns[j]].key] == s.g[s.ns[j]].value
    requires forall k :: k in m ==> exists j :: 0 <= j < |s.ns| && s.g[s.ns[j]].key == k
    ensures Holds(s, m)
  {}

  /** No other node has the key of `z`. */
  lemma KeysDiffer(s: Shape, z: Node)
    requires Tree(s) && z in s.g
    ensures s.g[z].p < |s.ns|
    ensures forall j :: 0 <= j < |s.ns| ==> s.ns[j] in s.g && (s.g[s.ns[j]].key == s.g[z].key <==> j == s.g[z].p)
  {
    hide Pos, KidOk, Hangs, RootOk;
    assert NodeOk(s, z);
    var p := s.g[z].p;
    forall j | 0 <= j < |s.ns| ensures s.ns[j] in s.g && (s.g[s.ns[j]].key == s.g[z].key <==> j == p) {
      assert j < p ==> Pos(s.g[s.ns[j]].key) < Pos(s.g[s.ns[p]].key);
      assert p < j ==> Pos(s.g[s.ns[p]].key) < Pos(s.g[s.ns[j]].key);
    }
  }

  // ----- closing the gap

  /** What is linked around a gap. */
  lemma ShortLinks(s: Shape, x: Node?, par: Node?, l: bool)
    requires Short(s, x, par, l) && x != s.root
    ensures par in NodesOf(s) && s.nil !in NodesOf(s) && !IsRed(s, s.nil)
    ensures KidOf(s, par, l) == x && KidOf(s, par, !l) != x
    ensures x in NodesOf(s) || x == s.nil
    ensures x in NodesOf(s) ==> ParentOf(s, x) == par
    ensures SizeOf(s, par) <= Total(s)
    ensures var w := KidOf(s, par, !l);
      && w in NodesOf(s) && w != par
      && (KidOf(s, w, true) in NodesOf(s) || KidOf(s, w, true) == s.nil)
      && (KidOf(s, w, false) in NodesOf(s) || KidOf(s, w, false) == s.nil)
  {
    hide Pos, Tree, BalOk, RedOk;
    GapFacts(s, x, par, l);
    KidParents(s, par);
    KidParents(s, s.g[par].Kid(!l));
    SizeGrows(s, par);
  }

  lemma ShortRoot(s: Shape, x: Node?, par: Node?, l: bool)
    requires Short(s, x, par, l)
    ensures x in NodesOf(s) || x == s.nil
    ensures s.nil !in NodesOf(s) && !IsRed(s, s.nil)
  {
    hide Pos, Balanced, RedsBut;
  }

  lemma RedSiblingStep(s: Shape, x: Node?, par: Node, l: bool)
    requires Short(s, x, par, l) && x != s.root && IsRed(s, KidOf(s, par, !l))
    ensures var w := KidOf(s, par, !l);
      && par in s.g && w in s.g && w != par
      && (var t := Traded(s, w, par);
          && Tree(t) && CanTurn(t, par, l) && SameEntries(s, t) && NodesOf(t) == NodesOf(s) && t.root == s.root
            && t.nil == s.nil
          && CanRotate(t, par, l)
          && (var s' := Rotated(t, par, l);
              Short(s', x, par, l) && x != s'.root && !IsRed(s', KidOf(s', par, !l)) && IsRed(s', par)
                && IsRed(s', x) == IsRed(s, x)))
  {
    hide Pos, Tree, BalOk, RedOk, Rotated;
    GapFacts(s, x, par, l);
    var w := s.g[par].Kid(!l);
    RedSibling(s, x, par, l);
    TradedLinks(s, w, par);
    PaintedEntries(s, Traded(s, w, par));
    RotatedNodes(Traded(s, w, par), par, l);
  }

  lemma MoveUpStep(s: Shape, x: Node?, par: Node, l: bool)
    requires Short(s, x, par, l) && x != s.root && !IsRed(s, x) && !IsRed(s, KidOf(s, par, !l))
    requires var w := KidOf(s, par, !l); !IsRed(s, KidOf(s, w, true)) && !IsRed(s, KidOf(s, w, false))
    ensures var w := KidOf(s, par, !l);
      && par in s.g && w in s.g && w != par && s.g[w].bh > 0 && s.g[par].bh > 0
      && (var s' := Reddened(s, w, par);
          && SameEntries(s, s') && NodesOf(s') == NodesOf(s) && s'.root == s.root && s'.nil == s.nil
          && Short(s', par, ParentOf(s', par), KidOf(s', ParentOf(s', par), true) == par)
          && ParentOf(s', par) == ParentOf(s, par) && IsRed(s', par) == IsRed(s, par)
          && (par != s.root ==> SizeOf(s, par) < SizeOf(s', ParentOf(s', par)) <= Total(s)))
  {
    hide Pos, Tree, BalOk, RedOk, Short;
    GapBasics(s, x, par, l);
    var w, up := s.g[par].Kid(!l), s.g[par].parent;
    MoveUp(s, x, par, l, up, KidOf(s, up, true) == par);
    PaintedEntries(s, Reddened(s, w, par));
    SizeGrows(s, par);
    RootHasNoParent(s);
    if par != s.root { ParentOfNonRoot(s, par); }
  }

  lemma GapBasics(s: Shape, x: Node?, par: Node, l: bool)
    requires Short(s, x, par, l) && x != s.root
    ensures Tree(s) && par in s.g
    ensures var w := s.g[par].Kid(!l); w in s.g && w != par
    ensures !IsRed(s, x) && !IsRed(s, KidOf(s, par, !l)) && IsRed(s, KidOf(s, KidOf(s, par, !l), !l)) ==>
      OuterNephew(s, x, par, l)
  {
    hide Pos, Tree, BalOk, RedOk;
    GapFacts(s, x, par, l);
  }

  lemma InnerNephewStep(s: Shape, x: Node?, par: Node, l: bool)
    requires Short(s, x, par, l) && x != s.root && !IsRed(s, x) && !IsRed(s, KidOf(s, par, !l))
    requires var w := KidOf(s, par, !l); IsRed(s, KidOf(s, w, l)) && !IsRed(s, KidOf(s, w, !l))
    ensures var w := KidOf(s, par, !l);
      var i := KidOf(s, w, l);
      && par in s.g && w in s.g && i in s.g && i != w
      && (var t := Traded(s, i, w);
          && Tree(t) && CanTurn(t, w, !l) && SameEntries(s, t) && NodesOf(t) == NodesOf(s) && t.root == s.root
            && t.nil == s.nil
          && CanRotate(t, w, !l) && OuterNephew(Rotated(t, w, !l), x, par, l))
  {
    hide Pos, Tree, BalOk, RedOk, Rotated, Balanced;
    GapFacts(s, x, par, l);
    InnerNephewFacts(s, x, par, l);
    var w := s.g[par].Kid(!l);
    var i := s.g[w].Kid(l);
    InnerNephewTurn(s, x, par, l);
    TradedLinks(s, i, w);
    PaintedEntries(s, Traded(s, i, w));
  }

  lemma OuterNephewStep(s: Shape, x: Node?, par: Node, l: bool)
    requires OuterNephew(s, x, par, l)
    ensures var w := KidOf(s, par, !l);
      var o := KidOf(s, w, !l);
      && par in s.g && w in s.g && o in s.g && w != par && o != w && o != par
      && (var t := Shared(s, par, w, o);
          && Tree(t) && CanTurn(t, par, l) && SameEntries(s, t) && NodesOf(t) == NodesOf(s) && t.root == s.root
            && t.nil == s.nil
          && CanRotate(t, par, l) && RBShape.Valid(Rotated(t, par, l)))
  {
    hide Pos, Tree, BalOk, RedOk, Rotated;
    GapFacts(s, x, par, l);
    OuterNephewFacts(s, x, par, l);
    var w := s.g[par].Kid(!l);
    var o := s.g[w].Kid(!l);
    CloseGap(s, x, par, l);
    SharedFacts(s, par, w, o);
    PaintedEntries(s, Shared(s, par, w, o));
  }

  /** A sound tree has its gap, so to speak, above the root. */
  lemma ClosedIsShort(s: Shape, l: bool)
    requires RBShape.Valid(s)
    ensures Short(s, s.root, s.nil, l)
  {
    hide Pos, BalOk, NodeOk;
    forall n | n in s.g && n != s.root ensures RedOk(s, s.root, n) {
      assert RedOk(s, null, n);
    }
  }

  lemma GapEnds(s: Shape, x: Node?, par: Node?, l: bool)
    requires Short(s, x, par, l) && (x == s.root || IsRed(s, x))
    ensures if x in NodesOf(s) then RBShape.Valid(Blackened(s, x)) else RBShape.Valid(s)
    ensures x in NodesOf(s) ==>
      var s' := Blackened(s, x); SameEntries(s, s') && NodesOf(s') == NodesOf(s) && s'.root == s.root && s'.nil == s.nil
  {
    hide Pos, Tree, BalOk, RedOk, Balanced, RedsBut;
    BlackenEnds(s, x, par, l);
    if x in s.g { PaintedEntries(s, Blackened(s, x)); }
  }

  class RBTree {
    var root: Node
    const nil: Node
    var count: int
    ghost var shape: Shape
    ghost var m: map<Bytes, Bytes>

    ghost function Repr(): set<object>
      reads this
    {
      {this, nil} + NodesOf(shape)
    }

    ghost predicate Linked()
      reads this, nil, NodesOf(shape)
    {
      PicturesShape(shape) && root == shape.root && nil == shape.nil && nil !in NodesOf(shape) && !nil.red
    }

    ghost predicate Valid()
      reads this, nil, NodesOf(shape)
    {
      Linked() && RBShape.Valid(shape) && Holds(shape, m)
    }

    constructor ()
      ensures Valid() && m == map[] && count == 0 && fresh(Repr())
    {
      var sentinel := new Node([], []);
      nil := sentinel;
      root, count := sentinel, 0;
      shape := Shape(sentinel, sentinel, map[], []);
      m := map[];
    }

    method Rotate(x: Node, l: bool)
      requires Linked() && Tree(shape) && CanTurn(shape, x, l)
      modifies this`root, this`shape, NodesOf(shape)
      ensures Linked() && CanRotate(old(shape), x, l) && shape == Rotated(old(shape), x, l)
      ensures Tree(shape) && SameEntries(old(shape), shape) && NodesOf(shape) == old(NodesOf(shape))
    {
      hide Pos, Tree, Rotated, PicturesShape, SameEntries, CanTurn, CanRotate;
      ghost var s := shape;
      RotatedEntries(s, x, l);
      RotatedNodes(s, x, l);
      var y, top := TurnNodes(s, nil, x, l);
      if top {
        root := y;
      }
      shape := Rotated(s, x, l);
    }

    /** Restores the rules for red nodes after `z0` has been hung in. */
    method InsertFixup(z0: Node)
      requires Linked() && Loose(shape, z0)
      modifies this`root, this`shape, NodesOf(shape)
      ensures Linked() && RBShape.Valid(shape) && SameEntries(old(shape), shape)
      ensures NodesOf(shape) == old(NodesOf(shape))
    {
      hide Pos, Loose, PicturesShape, SameEntries, Total, SizeOf, ParentOf, NodesOf, IsRed, RBShape.Valid, Blackened;
      var z := z0;
      SameEntriesRefl(shape);
      LooseLook(shape, nil, z);
      LooseBound(shape, z);
      while z.parent.red
        invariant Linked() && Loose(shape, z) && SameEntries(old(shape), shape) && NodesOf(shape) == old(NodesOf(shape))
        invariant z in NodesOf(shape) && z.parent != null && z.parent.red == IsRed(shape, ParentOf(shape, z))
        invariant SizeOf(shape, z) <= old(Total(shape))
        decreases if IsRed(shape, ParentOf(shape, z)) then 1 + old(Total(shape)) - SizeOf(shape, z) else 0
      {
        ghost var s := shape;
        z := SettleOnce(z);
        SameEntriesTrans(old(shape), s, shape);
        SameTotal(old(shape), s);
        SameTotal(old(shape), shape);
        LooseBound(shape, z);
        LooseLook(shape, nil, z);
      }
      LooseLook(shape, nil, z);
      LooseEnds(shape, z);
      ghost var s := shape;
      PaintBlack(s, root);
      shape := Blackened(s, root);
      SameEntriesTrans(old(shape), s, shape);
    }

    /** The node with the given key, or the sentinel. */
    method SearchNode(key: Bytes) returns (node: Node)
      requires Valid()
      ensures if key in m then node in NodesOf(shape) && node.key == key && m[key] == node.value else node == nil
      ensures node in NodesOf(shape) ==> KeyOf(shape, node) == key
    {
      hide Pos, Tree, PicturesShape, NodesOf, Descends, KidOf, FromOf, ToOf, KeyOf, ValueOf, Holds, Total, IsRed;
      hide CanGraft;
      DescentStarts(shape, key);
      node := root;
      ghost var y: Node?, l, lo: nat, hi: nat := nil, true, 0, Total(shape);
      while node != nil
        invariant node in NodesOf(shape) || node == nil
        invariant Descends(shape, key, node, y, l, lo, hi)
        decreases hi - lo
      {
        Look(shape, node);
        var c := Compare(key, node.key);
        if c == 0 {
          DescentHits(shape, m, node);
          return;
        }
        DescentStep(shape, key, node, y, l, lo, hi, c);
        y, l, lo, hi := node, c < 0, FromOf(shape, node, c < 0), ToOf(shape, node, c < 0);
        node := if c < 0 then node.left else node.right;
      }
      DescentMisses(shape, m, key, y, l, lo, hi, node);
    }

    /** Hangs `z` in as a red leaf and rebalances; a node whose key is present is ignored. */
    method InsertNode(z: Node)
      requires Valid() && z !in Repr()
      modifies this`root, this`shape, this`m, NodesOf(shape), z
      ensures Valid()
      ensures old(z.key) in old(m) ==> m == old(m) && shape == old(shape)
      ensures old(z.key) !in old(m) ==>
        m == old(m)[old(z.key) := old(z.value)] && NodesOf(shape) == old(NodesOf(shape)) + {z}
    {
      hide Pos, Tree, PicturesShape, NodesOf, Descends, KidOf, FromOf, ToOf, KeyOf, ValueOf, Holds, Total, IsRed,
        CanGraft, Balanced, RedsApart, Grafted, Single, SameEntries, Loose;
      ghost var s := shape;
      DescentStarts(s, z.key);
      var y, x := nil, root;
      ghost var l, lo: nat, hi: nat := true, 0, Total(s);
      while x != nil
        invariant Valid() && shape == s && m == old(m) && z.key == old(z.key) && z.value == old(z.value)
        invariant x in NodesOf(s) || x == nil
        invariant Descends(s, z.key, x, y, l, lo, hi)
        decreases hi - lo
      {
        Look(s, x);
        var c := Compare(z.key, x.key);
        if c == 0 {
          DescentHits(s, m, x);
          return;
        }
        DescentStep(s, z.key, x, y, l, lo, hi, c);
        y, l, lo, hi := x, c < 0, FromOf(s, x, c < 0), ToOf(s, x, c < 0);
        x := if c < 0 then x.left else x.right;
      }
      DescentMisses(s, m, z.key, y, l, lo, hi, z);
      if y == nil {
        PlantNode(s, nil, z);
        root := z;
      } else {
        Look(s, y);
        HangNode(s, nil, y, Compare(z.key, y.key) < 0, z);
      }
      HungLoose(s, m, y, l, z, z.key, z.value);
      shape := Hung(s, y, l, z, z.key, z.value);
      m := m[z.key := z.value];
      s := shape;
      InsertFixup(z);
      StillHolds(s, shape, m);
    }

    /** `kvs_rbtree_set`: adds the entry unless its key is present, and counts the call either way. */
    method Set(key: Bytes, value: Bytes)
      requires Valid()
      modifies Repr()
      ensures Valid() && forall o :: o in Repr() && o !in old(Repr()) ==> fresh(o)
      ensures m == if key in old(m) then old(m) else old(m)[key := value]
      ensures key in old(m) ==> shape == old(shape)
      ensures count == old(count) + 1
    {
      hide Pos, PicturesShape, Holds, RBShape.Valid;
      var node := new Node(key, value);
      InsertNode(node);
      count := count + 1;
    }

    /** `kvs_rbtree_get`: the stored value, or nothing. */
    method Get(key: Bytes) returns (found: bool, value: Bytes)
      requires Valid()
      ensures found == (key in m)
      ensures found ==> value == m[key]
    {
      hide Pos, PicturesShape, NodesOf, Holds, RBShape.Valid;
      var node := SearchNode(key);
      found, value := node != nil, node.value;
    }

    /** `kvs_rbtree_modify`: replaces the value of a present key. */
    method Modify(key: Bytes, value: Bytes) returns (status: int)
      requires Valid()
      modifies Repr()
      ensures Valid() && Repr() == old(Repr()) && count == old(count)
      ensures status == if key in old(m) then 0 else -1
      ensures m == if key in old(m) then old(m)[key := value] else old(m)
    {
      hide Pos, PicturesShape, NodesOf, Holds, RBShape.Valid, Revalued, KeyOf;
      var node := SearchNode(key);
      if node == nil {
        return -1;
      }
      ghost var s := shape;
      RevaluedValid(s, m, node, value);
      Look(s, node);
      PutValue(s, node, value);
      shape := Revalued(s, node, value);
      m := m[key := value];
      return 0;
    }

    // ----- deletion

    /** `rbtree_mini`: the first node in the stretch below `x0`. */
    method Mini(x0: Node) returns (x: Node)
      requires Linked() && Tree(shape) && x0 in NodesOf(shape)
      ensures x in NodesOf(shape) && PlaceOf(shape, x) == FirstOf(shape, x0) && KidOf(shape, x, true) == nil
    {
      hide Pos, Tree, PicturesShape, NodesOf, KidOf, FirstOf, PlaceOf, SizeOf, IsRed;
      x := x0;
      Look(shape, x);
      LeftStep(shape, x);
      while x.left != nil
        invariant x in NodesOf(shape) && x.left == KidOf(shape, x, true) && FirstOf(shape, x) == FirstOf(shape, x0)
        decreases SizeOf(shape, x)
      {
        LeftStep(shape, x);
        x := x.left;
        Look(shape, x);
      }
      LeftStep(shape, x);
    }

    /** `rbtree_successor`: the node listed after `x0`, or the sentinel. */
    method Successor(x0: Node) returns (y: Node)
      requires Linked() && Tree(shape) && x0 in NodesOf(shape)
      ensures y == NextOf(shape, x0)
      ensures KidOf(shape, x0, false) != nil ==> KidOf(shape, y, true) == nil
    {
      hide Pos, Tree, PicturesShape, NodesOf, KidOf, ParentOf, FirstOf, EndOf, PlaceOf, NextOf, SizeOf, Total, IsRed;
      var x := x0;
      Look(shape, x);
      RightStart(shape, x, x);
      y := x.parent;
      if x.right != nil {
        y := Mini(x.right);
        RightStart(shape, x0, y);
        return;
      }
      ClimbStep(shape, x0, x);
      if y != nil { Look(shape, y); }
      while y != nil && x == y.right
        invariant x in NodesOf(shape) && EndOf(shape, x) == PlaceOf(shape, x0) + 1
        invariant y == ParentOf(shape, x) && (y == nil || (y in NodesOf(shape) && y.right == KidOf(shape, y, false)))
        decreases Total(shape) - SizeOf(shape, x)
      {
        ClimbStep(shape, x0, x);
        Look(shape, y);
        x := y;
        y := y.parent;
        if y != nil { Look(shape, y); }
      }
      ClimbStep(shape, x0, x);
    }

    /** A red sibling turns black and rises; the new sibling of the gap is black. */
    method TurnRedSibling(ghost x: Node, par: Node, w: Node, l: bool)
      requires Linked() && Short(shape, x, par, l) && x != shape.root && IsRed(shape, KidOf(shape, par, !l))
      requires w == KidOf(shape, par, !l)
      modifies this`root, this`shape, NodesOf(shape)
      ensures Linked() && Short(shape, x, par, l) && x != shape.root && SameEntries(old(shape), shape)
      ensures NodesOf(shape) == old(NodesOf(shape))
      ensures !IsRed(shape, KidOf(shape, par, !l)) && IsRed(shape, par) && IsRed(shape, x) == old(IsRed(shape, x))
    {
      hide Pos, Tree, Short, PicturesShape, SameEntries, CanTurn, CanRotate, Rotated, Traded, KidOf, IsRed;
      ghost var s := shape;
      RedSiblingStep(s, x, par, l);
      ghost var t := Traded(s, w, par);
      PaintTraded(s, w, par);
      shape := t;
      Rotate(par, l);
      SameEntriesTrans(s, t, shape);
    }

    /** A black sibling whose inner child is red: afterwards the outer one is. */
    method TurnInnerNephew(ghost x: Node, ghost par: Node, w: Node, i: Node, l: bool)
      requires Linked() && Short(shape, x, par, l) && x != shape.root && !IsRed(shape, x)
      requires !IsRed(shape, KidOf(shape, par, !l))
      requires w == KidOf(shape, par, !l) && i == KidOf(shape, w, l) && IsRed(shape, i)
      requires !IsRed(shape, KidOf(shape, w, !l))
      modifies this`root, this`shape, NodesOf(shape)
      ensures Linked() && OuterNephew(shape, x, par, l) && SameEntries(old(shape), shape)
      ensures NodesOf(shape) == old(NodesOf(shape))
    {
      hide Pos, Tree, Short, PicturesShape, SameEntries, CanTurn, CanRotate, Rotated, Traded, KidOf, IsRed, OuterNephew;
      ghost var s := shape;
      InnerNephewStep(s, x, par, l);
      ghost var t := Traded(s, i, w);
      PaintTraded(s, i, w);
      shape := t;
      Rotate(w, !l);
      SameEntriesTrans(s, t, shape);
    }

    /** A black sibling whose outer child is red: one rotation closes the gap. */
    method TurnOuterNephew(ghost x: Node, par: Node, w: Node, l: bool)
      requires Linked() && OuterNephew(shape, x, par, l) && w == KidOf(shape, par, !l)
      modifies this`root, this`shape, NodesOf(shape)
      ensures Linked() && RBShape.Valid(shape) && SameEntries(old(shape), shape)
      ensures NodesOf(shape) == old(NodesOf(shape))
    {
      hide Pos, Tree, Short, PicturesShape, SameEntries, CanTurn, CanRotate, Rotated, Shared, KidOf, IsRed, OuterNephew;
      hide RBShape.Valid;
      ghost var s := shape;
      OuterNephewStep(s, x, par, l);
      Look(s, w);
      var o := if l then w.right else w.left;
      ghost var t := Shared(s, par, w, o);
      PaintShared(s, par, w, o);
      shape := t;
      Rotate(par, l);
      SameEntriesTrans(s, t, shape);
    }

    /** A black sibling with a red child: at most two rotations close the gap. */
    method BorrowRed(ghost x: Node, par: Node, sibling: Node, l: bool)
      requires Linked() && Short(shape, x, par, l) && x != shape.root && !IsRed(shape, x)
      requires !IsRed(shape, KidOf(shape, par, !l))
      requires sibling == KidOf(shape, par, !l)
      requires IsRed(shape, KidOf(shape, sibling, true)) || IsRed(shape, KidOf(shape, sibling, false))
      modifies this`root, this`shape, NodesOf(shape)
      ensures Linked() && RBShape.Valid(shape) && SameEntries(old(shape), shape)
      ensures NodesOf(shape) == old(NodesOf(shape))
    {
      hide Pos, Tree, Short, PicturesShape, SameEntries, KidOf, IsRed, NodesOf, RBShape.Valid, OuterNephew;
      ghost var s, u := shape, shape;
      var w := sibling;
      ShortLinks(s, x, par, l);
      GapBasics(s, x, par, l);
      Look(s, w);
      SameEntriesRefl(s);
      var i := if l then w.left else w.right;
      var o := if l then w.right else w.left;
      if i != nil { Look(s, i); }
      if o != nil { Look(s, o); }
      if !o.red {
        TurnInnerNephew(x, par, w, i, l);
        u := shape;
        NephewLinks(u, x, par, l);
        Look(u, par);
        w := if l then par.right else par.left;
      }
      TurnOuterNephew(x, par, w, l);
      SameEntriesTrans(s, u, shape);
    }

    /** A black sibling: the gap moves up or is closed. */
    method CloseBlack(x: Node, q: Node, w: Node, l: bool) returns (up: Node, ghost upper: Node?, ghost ul: bool)
      requires Linked() && Short(shape, x, q, l) && x != shape.root && !IsRed(shape, x)
      requires !IsRed(shape, KidOf(shape, q, !l)) && w == KidOf(shape, q, !l)
      modifies this`root, this`shape, NodesOf(shape)
      ensures Linked() && Short(shape, up, upper, ul) && SameEntries(old(shape), shape)
      ensures NodesOf(shape) == old(NodesOf(shape))
      ensures up != root ==> up.parent == upper
      ensures up == root || IsRed(shape, up) || old(SizeOf(shape, q)) < SizeOf(shape, upper) <= old(Total(shape))
      ensures up == root || (up == q && IsRed(shape, up) == old(IsRed(shape, q)))
    {
      hide Pos, Tree, Short, PicturesShape, SameEntries, Reddened, KidOf, ParentOf, IsRed, NodesOf, RBShape.Valid;
      hide SizeOf, Total;
      ghost var t := shape;
      ShortLinks(t, x, q, l);
      Look(t, w);
      if w.left != nil { Look(t, w.left); }
      if w.right != nil { Look(t, w.right); }
      if !w.left.red && !w.right.red {
        MoveUpStep(t, x, q, l);
        PaintReddened(t, w, q);
        shape := Reddened(t, w, q);
        up, upper, ul := q, ParentOf(shape, q), KidOf(shape, ParentOf(shape, q), true) == q;
        Look(shape, q);
      } else {
        BorrowRed(x, q, w, l);
        up, upper, ul := root, nil, true;
        ClosedIsShort(shape, ul);
      }
    }

    /** One round of the deletion fix-up at `x`, below which a black node is missing. */
    method CloseOnce(x: Node, ghost par: Node?, ghost l: bool) returns (up: Node, ghost upper: Node?, ghost ul: bool)
      requires Linked() && Short(shape, x, par, l) && x.parent == par && x != root && !IsRed(shape, x)
      modifies this`root, this`shape, NodesOf(shape)
      ensures Linked() && Short(shape, up, upper, ul) && SameEntries(old(shape), shape)
      ensures NodesOf(shape) == old(NodesOf(shape))
      ensures up != root ==> up.parent == upper
      ensures up == root || IsRed(shape, up) || old(SizeOf(shape, par)) < SizeOf(shape, upper) <= old(Total(shape))
    {
      hide Pos, Tree, Short, PicturesShape, SameEntries, KidOf, ParentOf, IsRed, NodesOf, SizeOf, Total;
      ghost var s := shape;
      ShortLinks(s, x, par, l);
      var q := x.parent;
      Look(s, q);
      var side := x == q.left;
      var w := if side then q.right else q.left;
      Look(s, w);
      SameEntriesRefl(s);
      if w.red {
        TurnRedSibling(x, q, w, side);
        ShortLinks(shape, x, q, side);
        Look(shape, q);
        w := if side then q.right else q.left;
      }
      ghost var t := shape;
      up, upper, ul := CloseBlack(x, q, w, side);
      SameEntriesTrans(s, t, shape);
    }

    /** `rbtree_delete_fixup`: moves the gap up until a red node or the root can absorb it. */
    method DeleteFixup(x0: Node, ghost par0: Node?, ghost l0: bool)
      requires Linked() && Short(shape, x0, par0, l0) && x0.parent == par0
      modifies this`root, this`shape, NodesOf(shape), nil`red
      ensures Linked() && RBShape.Valid(shape) && SameEntries(old(shape), shape)
      ensures NodesOf(shape) == old(NodesOf(shape))
    {
      hide Pos, Tree, Short, PicturesShape, SameEntries, IsRed, NodesOf, RBShape.Valid, SizeOf, Total, Blackened;
      var x := x0;
      ghost var par, l := par0, l0;
      SameEntriesRefl(shape);
      ShortRoot(shape, x, par, l);
      if x != nil { Look(shape, x); }
      ParentFits(shape, x, par, l);
      while x != root && !x.red
        invariant Linked() && Short(shape, x, par, l) && SameEntries(old(shape), shape)
        invariant NodesOf(shape) == old(NodesOf(shape))
        invariant x != root ==> x.parent == par
        invariant x.red == IsRed(shape, x)
        invariant x != root ==> SizeOf(shape, par) <= old(Total(shape))
        decreases if x == root || IsRed(shape, x) then 0 else 1 + old(Total(shape)) - SizeOf(shape, par)
      {
        ghost var s := shape;
        SameTotal(old(shape), s);
        x, par, l := CloseOnce(x, par, l);
        SameEntriesTrans(old(shape), s, shape);
        SameTotal(old(shape), shape);
        ShortRoot(shape, x, par, l);
        ParentFits(shape, x, par, l);
        if x != nil { Look(shape, x); }
      }
      ShortRoot(shape, x, par, l);
      GapEnds(shape, x, par, l);
      ghost var s := shape;
      if x == nil {
        x.red := false;
      } else {
        PaintBlack(s, x);
        shape := Blackened(s, x);
        SameEntriesTrans(old(shape), s, shape);
      }
    }

    /** `rbtree_delete`: takes the entry of `z` out; the node that goes is `z` or its successor. */
    method DeleteNode(z: Node) returns (y: Node)
      requires Valid() && z in NodesOf(shape)
      modifies this`root, this`shape, this`m, NodesOf(shape), nil
      ensures Valid() && m == old(m) - {old(KeyOf(shape, z))} && NodesOf(shape) == old(NodesOf(shape)) - {y}
    {
      hide Pos, Tree, Short, PicturesShape, SameEntries, IsRed, NodesOf, KidOf, ParentOf, KeyOf, NextOf, Balanced;
      hide RedsApart, Spliced, CanSplice, Holds;
      ghost var s := shape;
      Look(s, z);
      if z.left == nil || z.right == nil {
        y := z;
      } else {
        y := Successor(z);
        NextIsNode(s, z);
      }
      Look(s, y);
      var x := nil;
      if y.left != nil {
        x := y.left;
      } else if y.right != nil {
        x := y.right;
      }
      ghost var k := y.left != nil;
      SpliceChosen(s, z, y, k);
      SpliceHolds(s, m, z, y, x, k);
      SpliceEffect(s, z, y, x, k);
      ghost var l := KidOf(s, ParentOf(s, y), true) == y;
      var red := y.red;
      var top := SpliceOut(s, nil, z, y, x, k);
      if top {
        root := x;
      }
      shape := Spliced(s, z, y, x);
      m := m - {KeyOf(s, z)};
      ghost var t := shape;
      if !red {
        DeleteFixup(x, ParentOf(s, y), l);
        StillHolds(t, shape, m);
      }
    }

    /** `kvs_rbtree_delete`: removes exactly the given key. */
    method Delete(key: Bytes) returns (status: int)
      requires Valid()
      modifies Repr()
      ensures Valid() && Repr() <= old(Repr())
      ensures status == if key in old(m) then 0 else -1
      ensures m == old(m) - {key}
      ensures count == old(count) - (if key in old(m) then 1 else 0)
    {
      hide Pos, PicturesShape, NodesOf, Holds, RBShape.Valid, KeyOf;
      var node := SearchNode(key);
      if node == nil {
        return -1;
      }
      var cur := DeleteNode(node);
      count := count - 1;
      return 0;
    }

    /** One round of the insertion fix-up at a red node `z` with a red parent. */
    method SettleOnce(z: Node) returns (up: Node)
      requires Linked() && Loose(shape, z) && IsRed(shape, ParentOf(shape, z))
      modifies this`root, this`shape, NodesOf(shape)
      ensures Linked() && Loose(shape, up) && SameEntries(old(shape), shape) && NodesOf(shape) == old(NodesOf(shape))
      ensures IsRed(shape, ParentOf(shape, up)) ==> old(SizeOf(shape, z)) < SizeOf(shape, up) <= old(Total(shape))
    {
      hide Pos, Loose, Clash, PicturesShape, SameEntries, CanTurn, CanRotate, OuterCase, Rotated, Traded, Recoloured;
      hide Total, SizeOf, ParentOf, KidOf, NodesOf, IsRed;
      ghost var s := shape;
      ghost var p0, q0, l0 := ClashFound(s, z);
      ClashLinks(s, z, p0, q0, l0);
      Look(s, z);
      var p := z.parent;
      Look(s, p);
      var q := p.parent;
      Look(s, q);
      var l := p == q.left;
      var y := if l then q.right else q.left;
      if y != nil { Look(s, y); }
      if y.red {
        RecolourStep(s, z, p, q, l);
        PaintRecoloured(s, p, y, q);
        shape := Recoloured(s, p, y, q);
        up := q;
      } else {
        up := z;
        ghost var t := s;
        SameEntriesRefl(s);
        if z == (if l then p.right else p.left) {
          InnerStep(s, z, p, q, l);
          up := p;
          Rotate(up, l);
          p := z;
          t := shape;
        }
        FinishClash(up, p, q, l);
        SameEntriesTrans(s, t, shape);
      }
    }

    /** Recolours parent and grandparent and rotates the grandparent. */
    method FinishClash(z: Node, p: Node, q: Node, l: bool)
      requires Linked() && OuterCase(shape, z, p, q, l)
      modifies this`root, this`shape, NodesOf(shape)
      ensures Linked() && Loose(shape, z) && SameEntries(old(shape), shape) && NodesOf(shape) == old(NodesOf(shape))
      ensures !IsRed(shape, ParentOf(shape, z))
    {
      hide Pos, Tree, Loose, Clash, PicturesShape, SameEntries, CanTurn, CanRotate, OuterCase, Rotated, Traded, Total;
      hide SizeOf, ParentOf, KidOf, IsRed;
      ghost var s := shape;
      OuterStep(s, z, p, q, l);
      ghost var t := Traded(s, p, q);
      PaintTraded(s, p, q);
      shape := t;
      Rotate(q, !l);
      SameEntriesTrans(s, t, shape);
    }
  }

  lemma NephewLinks(s: Shape, x: Node?, par: Node, l: bool)
    requires OuterNephew(s, x, par, l)
    ensures par in NodesOf(s) && KidOf(s, par, !l) in NodesOf(s)
  {}

  lemma ParentFits(s: Shape, x: Node?, par: Node?, l: bool)
    requires Short(s, x, par, l)
    ensures x != s.root ==> SizeOf(s, par) <= Total(s)
  {
    hide Pos, Tree, Balanced, RedsBut;
    if x != s.root { SizeGrows(s, par); }
  }

  lemma NextIsNode(s: Shape, z: Node)
    requires Tree(s) && z in NodesOf(s) && KidOf(s, z, false) != s.nil
    ensures NextOf(s, z) in NodesOf(s)
  {
    hide Pos, Ordered, RootOk, Hangs;
    assert NodeOk(s, z);
    assert NodeOk(s, s.g[z].right);
  }

  /** What splicing a node out leaves: a sound tree, or one with a gap. */
  lemma SpliceEffect(s: Shape, z: Node, y: Node, x: Node?, k: bool)
    requires CanSplice(s, z, y, x, k)
    ensures y in s.g && s.g[y].p < |s.ns|
    ensures var s' := Spliced(s, z, y, x);
      && NodesOf(s') == NodesOf(s) - {y} && s'.nil == s.nil && s'.nil !in NodesOf(s')
      && s'.root == (if y == s.root then x else s.root)
      && (if IsRed(s, y) then RBShape.Valid(s') else Short(s', x, ParentOf(s, y), KidOf(s, ParentOf(s, y), true) == y))
  {
    hide Pos, Tree, Balanced, RedsApart, Spliced, Short;
    SpliceAround(s, z, y, x, k);
    SplicedKeys(s, z, y, x);
    SplicedPlace(s, z, y, x, k, KidOf(s, ParentOf(s, y), true) == y);
    if s.g[y].red {
      SplicedRedNode(s, z, y, x, k);
    } else {
      SplicedShort(s, z, y, x, k, KidOf(s, ParentOf(s, y), true) == y);
    }
  }

  // ----- a new value

  ghost function Revalued(s: Shape, n: Node?, value: Bytes): Shape {
    if n in s.g then s.(g := s.g[n := s.g[n].(value := value)]) else s
  }

  lemma RevaluedNode(s: Shape, n: Node, value: Bytes, x: Node)
    requires RBShape.Valid(s) && n in s.g && x in s.g
    ensures var s' := Revalued(s, n, value);
      x in s'.g && NodeOk(s', x) && BalOk(s', NoGap, x) && RedOk(s', null, x) && (x != s'.root ==> Hangs(s', x))
  {
    hide Pos, Ordered, Listed, RootOk;
    assert NodeOk(s, x) && BalOk(s, NoGap, x) && RedOk(s, null, x);
    assert x != s.root ==> Hangs(s, x);
  }

  lemma RevaluedValid(s: Shape, m: map<Bytes, Bytes>, n: Node, value: Bytes)
    requires RBShape.Valid(s) && Holds(s, m) && n in NodesOf(s)
    ensures var s' := Revalued(s, n, value);
      RBShape.Valid(s') && Holds(s', m[KeyOf(s, n) := value]) && NodesOf(s') == NodesOf(s) && s'.root == s.root
        && s'.nil == s.nil
  {
    hide Pos, NodeOk, BalOk, RedOk, Hangs, Listed, Ordered, RootOk, Holds;
    var s' := Revalued(s, n, value);
    RevaluedRest(s, n, value);
    forall x | x in s'.g ensures NodeOk(s', x) && BalOk(s', NoGap, x) && RedOk(s', null, x)
      && (x != s'.root ==> Hangs(s', x)) {
      RevaluedNode(s, n, value, x);
    }
    RevaluedHolds(s, m, n, value);
  }

  lemma RevaluedRest(s: Shape, n: Node, value: Bytes)
    requires Tree(s) && n in s.g
    ensures var s' := Revalued(s, n, value); Listed(s') && Ordered(s') && RootOk(s') && s'.g.Keys == s.g.Keys
  {
    hide Pos, NodeOk, Hangs;
    var s' := Revalued(s, n, value);
    assert forall x :: x in s.g ==> s'.g[x].key == s.g[x].key && s'.g[x].p == s.g[x].p;
  }

  lemma RevaluedHolds(s: Shape, m: map<Bytes, Bytes>, n: Node, value: Bytes)
    requires RBShape.Valid(s) && Holds(s, m) && n in NodesOf(s)
    ensures Holds(Revalued(s, n, value), m[KeyOf(s, n) := value])
  {
    hide Pos, KidOk, BalOk, RedOk, Hangs;
    assert NodeOk(s, n);
    var s', m' := Revalued(s, n, value), m[KeyOf(s, n) := value];
    var p := s.g[n].p;
    forall j | 0 <= j < |s.ns| ensures s.g[s.ns[j]].key == s.g[n].key ==> j == p {
      assert j < p ==> Pos(s.g[s.ns[j]].key) < Pos(s.g[s.ns[p]].key);
      assert p < j ==> Pos(s.g[s.ns[p]].key) < Pos(s.g[s.ns[j]].key);
    }
    forall k | k in m' ensures exists j :: 0 <= j < |s'.ns| && s'.g[s'.ns[j]].key == k {
      var j :| 0 <= j < |s.ns| && s.g[s.ns[j]].key == (if k == s.g[n].key then s.g[s.ns[p]].key else k);
      assert s'.g[s'.ns[j]].key == k;
    }
  }

  method PutValue(ghost s: Shape, n: Node, value: Bytes)
    requires PicturesShape(s) && n in NodesOf(s)
    modifies n
    ensures PicturesShape(Revalued(s, n, value))
  {
    hide Pictures;
    Seen(s.g, n);
    SetPayload(s.g, n, n.key, value);
  }

  lemma LooseBound(s: Shape, z: Node)
    requires Loose(s, z)
    ensures SizeOf(s, z) <= Total(s)
  {
    hide Pos, Tree, Balanced, RedsApart;
    SizeGrows(s, z);
  }

  lemma SameTotal(s: Shape, s': Shape)
    requires SameEntries(s, s')
    ensures Total(s') == Total(s)
  {}

  /** The tree once `z` hangs below `y`, or alone. */
  ghost function Hung(s: Shape, y: Node?, l: bool, z: Node, key: Bytes, value: Bytes): Shape {
    if y != null && CanGraft(s, y, l, z, key) then Grafted(s, y, l, z, key, value) else Single(s, z, key, value)
  }

  lemma HungLoose(s: Shape, m: map<Bytes, Bytes>, y: Node, l: bool, z: Node, key: Bytes, value: Bytes)
    requires RBShape.Valid(s) && Holds(s, m) && key !in m && z !in NodesOf(s) && z != s.nil
    requires if y != s.nil then CanGraft(s, y, l, z, key) else s.root == s.nil
    ensures var s' := Hung(s, y, l, z, key, value);
      && Loose(s', z) && Holds(s', m[key := value]) && NodesOf(s') == NodesOf(s) + {z} && s'.nil == s.nil
      && s' == (if y != s.nil then Grafted(s, y, l, z, key, value) else Single(s, z, key, value))
      && s'.root == (if y != s.nil then s.root else z)
  {
    hide Pos, Tree, Grafted, KeyFits, BalOk, RedOk, Holds;
    if y != s.nil {
      Graft(s, y, l, z, key, value);
      GraftHolds(s, m, y, l, z, key, value);
      GraftedSize(s, y, l, z, key, value);
    } else {
      YNotIn(s);
      SingleLoose(s, z, key, value);
      SingleHolds(s, m, z, key, value);
    }
  }

  lemma YNotIn(s: Shape)
    requires Tree(s)
    ensures s.nil !in s.g
  {}

  lemma StillHolds(s: Shape, s': Shape, m: map<Bytes, Bytes>)
    requires Holds(s, m) && SameEntries(s, s') && RBShape.Valid(s')
    ensures Holds(s', m)
  {
    hide Pos;
    HoldsSame(s, s', m);
  }

  lemma RotatedNodes(s: Shape, x: Node, l: bool)
    requires Tree(s) && CanTurn(s, x, l)
    ensures CanRotate(s, x, l) && NodesOf(Rotated(s, x, l)) == NodesOf(s) && Rotated(s, x, l).nil == s.nil
    ensures Rotated(s, x, l).root == (if x == s.root then Riser(s, x, l) else s.root)
    ensures s.nil !in NodesOf(s)
  {
    hide Pos, Tree, Rotated;
    RotatedTree(s, x, l);
    RotatedAt(s, x, l, x);
    KidParents(s, x);
  }
}
