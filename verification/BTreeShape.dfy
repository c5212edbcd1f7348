/**
  The shape of a B+tree as a value: what every node holds, the key range it is
  responsible for, the leaf chain, and the map the tree represents. The invariant is
  local to a node and its children, so each edit of a few nodes has a short proof.
 */
module BTreeShape {
  import opened Bytes
  import opened BTreeNodes

  /** A node's fields, its key range `lo <= key < hi` and its distance `rank` from the leaves. */
  datatype Rec = Rec(
    leaf: bool,
    keys: seq<Bytes>,
    vals: seq<Value>,
    kids: seq<Node?>,
    parent: Node?,
    next: Node?,
    prev: Node?,
    lo: real,
    hi: real,
    rank: nat)
  {
    /** Whether key `k` belongs to the range of this node. */
    ghost predicate Covers(k: Bytes) {
      lo <= Pos(k) < hi
    }

    /** Range of the `i`-th child: from the separator on its left to the one on its right. */
    ghost function Lower(i: nat): real
      requires i <= |keys|
    {
      if i == 0 then lo else Pos(keys[i - 1])
    }

    ghost function Upper(i: nat): real
      requires i <= |keys|
    {
      if i == |keys| then hi else Pos(keys[i])
    }
  }

  const BOTTOM := -1.0
  const TOP := 2.0

  datatype Shape = Shape(root: Node, g: map<Node, Rec>, leaves: seq<Node>, m: map<Bytes, Value>)

  ghost predicate LeafOk(r: Rec) {
    && r.leaf && r.rank == 0 && r.kids == [] && |r.vals| == |r.keys|
    && r.lo < r.hi
    && Sorted(r.keys)
    && forall i :: 0 <= i < |r.keys| ==> r.lo <= Pos(r.keys[i]) < r.hi
  }

  ghost predicate ChildOk(g: map<Node, Rec>, n: Node, i: nat)
    requires n in g && i <= |g[n].keys| && i < |g[n].kids|
  {
    var c := g[n].kids[i];
    && c in g
    && g[c].parent == n
    && g[c].rank + 1 == g[n].rank
    && g[c].lo == g[n].Lower(i)
    && g[c].hi == g[n].Upper(i)
  }

  ghost predicate InnerOk(g: map<Node, Rec>, n: Node)
    requires n in g
  {
    var r := g[n];
    && !r.leaf && r.rank > 0 && r.vals == [] && |r.kids| == |r.keys| + 1
    && r.lo < r.hi
    && Sorted(r.keys)
    && (forall i :: 0 <= i < |r.keys| ==> r.lo < Pos(r.keys[i]) < r.hi)
    && forall i {:trigger ChildOk(g, n, i)} :: 0 <= i <= |r.keys| ==> ChildOk(g, n, i)
  }

  ghost predicate NodeOk(g: map<Node, Rec>, n: Node)
    requires n in g
  {
    if g[n].leaf then LeafOk(g[n]) else InnerOk(g, n)
  }

  ghost predicate NodesOk(g: map<Node, Rec>) {
    forall n {:trigger NodeOk(g, n)} :: n in g ==> NodeOk(g, n)
  }

  /** `n` hangs below its parent. */
  ghost predicate Hangs(g: map<Node, Rec>, n: Node)
    requires n in g
  {
    g[n].parent in g && !g[g[n].parent].leaf && n in g[g[n].parent].kids
  }

  ghost predicate AllHang(g: map<Node, Rec>, root: Node) {
    forall n {:trigger Hangs(g, n)} :: n in g && n != root ==> Hangs(g, n)
  }

  ghost predicate RootOk(g: map<Node, Rec>, root: Node) {
    && root in g && g[root].parent == null
    && g[root].lo == BOTTOM && g[root].hi == TOP
    && forall n :: n in g ==> g[n].rank <= g[root].rank
  }

  /** The `i`-th leaf is linked to its neighbours, and its range starts where the previous one ends. */
  ghost predicate LinkOk(g: map<Node, Rec>, leaves: seq<Node>, i: nat)
    requires i < |leaves|
  {
    var n := leaves[i];
    && n in g && g[n].leaf
    && g[n].prev == (if i == 0 then null else leaves[i - 1])
    && g[n].next == (if i == |leaves| - 1 then null else leaves[i + 1])
    && (if i == 0 then g[n].lo == BOTTOM else leaves[i - 1] in g && g[n].lo == g[leaves[i - 1]].hi)
    && (i == |leaves| - 1 ==> g[n].hi == TOP)
  }

  ghost predicate Before(g: map<Node, Rec>, a: Node, b: Node) {
    a in g && b in g && g[a].hi <= g[b].lo
  }

  /** The leaves, left to right, are linked both ways and their ranges tile the key space. */
  ghost predicate Chain(g: map<Node, Rec>, leaves: seq<Node>) {
    && |leaves| > 0
    && (forall i {:trigger LinkOk(g, leaves, i)} :: 0 <= i < |leaves| ==> LinkOk(g, leaves, i))
    && (forall i, j {:trigger Before(g, leaves[i], leaves[j])} :: 0 <= i < j < |leaves| ==>
      Before(g, leaves[i], leaves[j]))
    && forall n :: n in g && g[n].leaf ==> n in leaves
  }

  ghost predicate LeafHolds(r: Rec, m: map<Bytes, Value>) {
    && |r.vals| == |r.keys|
    && (forall i :: 0 <= i < |r.keys| ==> r.keys[i] in m && m[r.keys[i]] == r.vals[i])
    && forall k :: k in m && r.Covers(k) ==> k in r.keys
  }

  /** The leaves hold exactly the entries of `m`, each in the leaf whose range covers it. */
  ghost predicate Holds(g: map<Node, Rec>, m: map<Bytes, Value>) {
    forall n {:trigger LeafHolds(g[n], m)} :: n in g && g[n].leaf ==> LeafHolds(g[n], m)
  }

  ghost predicate Inv(s: Shape) {
    && RootOk(s.g, s.root)
    && NodesOk(s.g)
    && AllHang(s.g, s.root)
    && Chain(s.g, s.leaves)
    && Holds(s.g, s.m)
  }

  /** No key is covered by two leaves. */
  lemma LeavesApart(s: Shape, a: Node, b: Node, k: Bytes)
    requires Chain(s.g, s.leaves)
    requires a in s.g && s.g[a].leaf && s.g[a].Covers(k)
    requires b in s.g && s.g[b].leaf && s.g[b].Covers(k)
    ensures a == b
  {
    hide Pos;
    var i :| 0 <= i < |s.leaves| && s.leaves[i] == a;
    var j :| 0 <= j < |s.leaves| && s.leaves[j] == b;
    assert i < j ==> Before(s.g, s.leaves[i], s.leaves[j]);
    assert j < i ==> Before(s.g, s.leaves[j], s.leaves[i]);
  }

  /** `g'` differs from `g` at `n` only, and there not in what a neighbour of `n` can see. */
  ghost predicate SameOutside(g: map<Node, Rec>, g': map<Node, Rec>, n: Node) {
    && n in g && n in g'
    && g' == g[n := g'[n]]
    && g'[n].(keys := g[n].keys, vals := g[n].vals, kids := g[n].kids) == g[n]
  }

  lemma SameOutsideNodeOk(g: map<Node, Rec>, g': map<Node, Rec>, n: Node, x: Node)
    requires SameOutside(g, g', n) && x in g && NodeOk(g, x) && x != n
    ensures NodeOk(g', x)
  {
    hide Pos, Sorted;
    if !g[x].leaf {
      forall i | 0 <= i <= |g[x].keys| ensures ChildOk(g', x, i) {
        assert ChildOk(g, x, i);
      }
    }
  }

  lemma SameOutsideChain(g: map<Node, Rec>, g': map<Node, Rec>, n: Node, leaves: seq<Node>)
    requires SameOutside(g, g', n) && Chain(g, leaves)
    ensures Chain(g', leaves)
  {
    forall i | 0 <= i < |leaves| ensures LinkOk(g', leaves, i) {
      assert LinkOk(g, leaves, i);
      if i > 0 { assert LinkOk(g, leaves, i - 1); }
    }
    forall i, j | 0 <= i < j < |leaves| ensures Before(g', leaves[i], leaves[j]) {
      assert Before(g, leaves[i], leaves[j]);
    }
  }

  /** Rewriting one leaf together with the part of the map that its range covers. */
  lemma LeafChange(s: Shape, n: Node, ks: seq<Bytes>, vs: seq<Value>, m': map<Bytes, Value>, s': Shape)
    requires Inv(s) && n in s.g && s.g[n].leaf
    requires s' == Shape(s.root, s.g[n := s.g[n].(keys := ks, vals := vs)], s.leaves, m')
    requires LeafOk(s'.g[n]) && LeafHolds(s'.g[n], m')
    requires forall k :: !s.g[n].Covers(k) ==> (k in m' <==> k in s.m) && (k in s.m ==> m'[k] == s.m[k])
    ensures Inv(s')
  {
    hide Pos, Sorted, LeafOk, InnerOk, Chain;
    forall x | x in s'.g ensures NodeOk(s'.g, x) {
      assert NodeOk(s.g, x);
      if x != n { SameOutsideNodeOk(s.g, s'.g, n, x); }
    }
    forall x | x in s'.g && x != s.root ensures Hangs(s'.g, x) {
      assert Hangs(s.g, x);
    }
    SameOutsideChain(s.g, s'.g, n, s.leaves);
    forall x | x in s'.g && s'.g[x].leaf ensures LeafHolds(s'.g[x], m') {
      if x != n { LeafChangeElsewhere(s, n, m', x); }
    }
  }

  lemma LeafChangeElsewhere(s: Shape, n: Node, m': map<Bytes, Value>, x: Node)
    requires Chain(s.g, s.leaves) && Holds(s.g, s.m)
    requires n in s.g && s.g[n].leaf && x in s.g && s.g[x].leaf && x != n
    requires NodeOk(s.g, x)
    requires forall k :: !s.g[n].Covers(k) ==> (k in m' <==> k in s.m) && (k in s.m ==> m'[k] == s.m[k])
    ensures LeafHolds(s.g[x], m')
  {
    hide Pos, Chain;
    var r := s.g[x];
    assert LeafHolds(r, s.m);
    forall k | r.Covers(k) ensures !s.g[n].Covers(k) {
      if s.g[n].Covers(k) { LeavesApart(s, x, n, k); }
    }
    forall i | 0 <= i < |r.keys| ensures r.keys[i] in m' && m'[r.keys[i]] == r.vals[i] {
      assert r.Covers(r.keys[i]);
    }
  }

  // ----- frames: what a node, the chain and the map depend on

  /** What a parent sees of a child. */
  ghost predicate SameFace(a: Rec, b: Rec) {
    a.parent == b.parent && a.rank == b.rank && a.lo == b.lo && a.hi == b.hi
  }

  lemma NodeFrame(g: map<Node, Rec>, g': map<Node, Rec>, x: Node)
    requires x in g && x in g' && NodeOk(g, x)
    requires g'[x].(parent := g[x].parent, next := g[x].next, prev := g[x].prev) == g[x]
    requires forall c :: c in g[x].kids && c in g ==> c in g' && SameFace(g[c], g'[c])
    ensures NodeOk(g', x)
  {
    hide Pos, Sorted;
    if !g[x].leaf {
      forall i | 0 <= i <= |g[x].keys| ensures ChildOk(g', x, i) {
        assert ChildOk(g, x, i);
        assert g[x].kids[i] in g[x].kids;
      }
    }
  }

  lemma ChainFrame(g: map<Node, Rec>, g': map<Node, Rec>, leaves: seq<Node>)
    requires Chain(g, leaves)
    requires forall n :: n in g' && g'[n].leaf ==> n in g && g[n].leaf
    requires forall n :: n in g && g[n].leaf ==> n in g' && g'[n].(parent := g[n].parent) == g[n]
    ensures Chain(g', leaves)
  {
    forall i | 0 <= i < |leaves| ensures LinkOk(g', leaves, i) {
      assert LinkOk(g, leaves, i);
      if i > 0 { assert LinkOk(g, leaves, i - 1); }
    }
    forall i, j | 0 <= i < j < |leaves| ensures Before(g', leaves[i], leaves[j]) {
      assert Before(g, leaves[i], leaves[j]);
      assert LinkOk(g, leaves, i) && LinkOk(g, leaves, j);
    }
  }

  lemma HoldsFrame(g: map<Node, Rec>, g': map<Node, Rec>, m: map<Bytes, Value>)
    requires Holds(g, m)
    requires forall n :: n in g' && g'[n].leaf ==> n in g && g[n].leaf && g'[n].(parent := g[n].parent) == g[n]
    ensures Holds(g', m)
  {
    hide Pos;
    forall n | n in g' && g'[n].leaf ensures LeafHolds(g'[n], m) {
      assert LeafHolds(g[n], m);
    }
  }

  /** The slot of `n` in its parent. */
  lemma SlotOf(g: map<Node, Rec>, n: Node) returns (i: nat)
    requires n in g && Hangs(g, n) && NodeOk(g, g[n].parent)
    ensures i <= |g[g[n].parent].keys| && i < |g[g[n].parent].kids|
    ensures g[g[n].parent].kids[i] == n
    ensures ChildOk(g, g[n].parent, i)
  {
    hide Pos, Sorted;
    var p := g[n].parent;
    i :| 0 <= i < |g[p].kids| && g[p].kids[i] == n;
    assert ChildOk(g, p, i);
  }

  // ----- a node that has been split, but whose right half has no parent yet

  /** The graph as the parent of `left` still sees it. */
  ghost function Unsplit(g: map<Node, Rec>, left: Node, right: Node): map<Node, Rec>
    requires left in g && right in g
  {
    (g - {right})[left := g[left].(hi := g[right].hi)]
  }

  ghost predicate Pending(s: Shape, left: Node, right: Node) {
    && left in s.g && right in s.g && left != right && right != s.root
    && s.g[left].leaf == s.g[right].leaf
    && s.g[left].rank == s.g[right].rank
    && s.g[left].hi == s.g[right].lo
    && NodeOk(s.g, left) && NodeOk(s.g, right)
    && PendingRest(s, left, right)
    && RootOk(Unsplit(s.g, left, right), s.root)
    && (forall n {:trigger Hangs(s.g, n)} :: n in s.g && n != s.root && n != right ==> Hangs(s.g, n))
    && Chain(s.g, s.leaves)
    && Holds(s.g, s.m)
  }

  ghost predicate PendingRest(s: Shape, left: Node, right: Node)
    requires left in s.g && right in s.g && left != right
  {
    var u := Unsplit(s.g, left, right);
    forall n {:trigger NodeOk(u, n)} :: n in s.g && n != left && n != right ==> NodeOk(u, n)
  }

  ghost function AttachedParent(r: Rec, i: nat, sep: Bytes, right: Node): Rec
    requires i <= |r.keys| && i < |r.kids|
  {
    r.(keys := Insert(r.keys, i, sep), kids := Insert(r.kids, i + 1, right))
  }

  /** Different slots of a node hold different children. */
  lemma KidsDistinct(g: map<Node, Rec>, p: Node, i: nat, j: nat)
    requires p in g && InnerOk(g, p) && i < j <= |g[p].keys|
    ensures g[p].kids[i] != g[p].kids[j]
  {
    hide Pos;
    assert ChildOk(g, p, i) && ChildOk(g, p, j);
    assert g[p].Lower(i) < g[p].Lower(j);
  }

  lemma InsertIndex<T>(s: seq<T>, i: nat, x: T, r: seq<T>)
    requires i <= |s| && r == Insert(s, i, x)
    ensures |r| == |s| + 1 && r[i] == x
    ensures forall j {:trigger r[j]} :: 0 <= j < i ==> r[j] == s[j]
    ensures forall j {:trigger r[j]} :: i < j <= |s| ==> r[j] == s[j - 1]
  {}

  lemma RemoveIndex<T>(s: seq<T>, i: nat, r: seq<T>)
    requires i < |s| && r == Remove(s, i)
    ensures |r| == |s| - 1
    ensures forall j {:trigger r[j]} :: 0 <= j < i ==> r[j] == s[j]
    ensures forall j {:trigger r[j]} :: i <= j < |r| ==> r[j] == s[j + 1]
  {}

  lemma SortedInsert(ks: seq<Bytes>, i: nat, k: Bytes)
    requires Sorted(ks) && i <= |ks|
    requires i > 0 ==> Pos(ks[i - 1]) < Pos(k)
    requires i < |ks| ==> Pos(k) < Pos(ks[i])
    ensures Sorted(Insert(ks, i, k))
  {
    hide Pos;
    var r := Insert(ks, i, k);
    assert forall j :: 0 <= j < |r| ==> r[j] == if j < i then ks[j] else if j == i then k else ks[j - 1];
  }

  /** `s'` is `s` with `right` hung below `p`, to the right of slot `i`, where `left` is. */
  ghost predicate AttachStep(s: Shape, left: Node, right: Node, p: Node, sep: Bytes, i: nat, s': Shape) {
    && Pending(s, left, right) && left != s.root && Pos(sep) == s.g[right].lo
    && p == s.g[left].parent && p in s.g && p != right
    && i <= |s.g[p].keys| && i < |s.g[p].kids| && s.g[p].kids[i] == left
    && s' == s.(g := s.g[right := s.g[right].(parent := p)][p := AttachedParent(s.g[p], i, sep, right)])
  }

  /** What `Attach` starts from: the slot of the left half and the bounds around the new separator. */
  lemma AttachSlot(s: Shape, left: Node, right: Node, p: Node, sep: Bytes, i: nat, s': Shape)
    requires AttachStep(s, left, right, p, sep, i, s')
    ensures p != left && !s.g[p].leaf
    ensures InnerOk(Unsplit(s.g, left, right), p)
    ensures s.g[p].Lower(i) == s.g[left].lo < Pos(sep) < s.g[right].hi == s.g[p].Upper(i)
    ensures s.g[p].rank == s.g[left].rank + 1
  {
    hide Pos, Sorted, Chain, Holds;
    var u := Unsplit(s.g, left, right);
    assert Hangs(s.g, left);
    assert NodeOk(s.g, left) && NodeOk(s.g, right);
    assert p == left ==> ChildOk(s.g, p, i);
    assert p != left ==> NodeOk(u, p);
    assert p != left ==> ChildOk(u, p, i);
  }

  lemma AttachChildOk(s: Shape, left: Node, right: Node, p: Node, sep: Bytes, i: nat, s': Shape, j: nat)
    requires AttachStep(s, left, right, p, sep, i, s')
    requires j <= |s'.g[p].keys|
    requires p != left && !s.g[p].leaf && InnerOk(Unsplit(s.g, left, right), p)
    requires s.g[p].Lower(i) == s.g[left].lo && s.g[right].hi == s.g[p].Upper(i)
    requires s.g[p].rank == s.g[left].rank + 1
    ensures j < |s'.g[p].kids| && ChildOk(s'.g, p, j)
  {
    hide Pos, Sorted, Chain, Holds, LeafOk, RootOk, Hangs, NodeOk, PendingRest, Insert;
    var u := Unsplit(s.g, left, right);
    var r, r' := s.g[p], s'.g[p];
    InsertIndex(r.keys, i, sep, r'.keys);
    InsertIndex(r.kids, i + 1, right, r'.kids);
    var o := if j <= i then j else j - 1;
    assert ChildOk(u, p, o);
    assert ChildOk(u, p, i);
    if o < i { KidsDistinct(u, p, o, i); } else if o > i { KidsDistinct(u, p, i, o); }
  }

  lemma AttachParentOk(s: Shape, left: Node, right: Node, p: Node, sep: Bytes, i: nat, s': Shape)
    requires AttachStep(s, left, right, p, sep, i, s')
    ensures NodeOk(s'.g, p)
  {
    hide Pos, Sorted, Chain, Holds, LeafOk, RootOk, Hangs, PendingRest, ChildOk;
    AttachSlot(s, left, right, p, sep, i, s');
    var r, r' := s.g[p], s'.g[p];
    SortedInsert(r.keys, i, sep);
    forall j | 0 <= j <= |r'.keys| ensures ChildOk(s'.g, p, j) {
      AttachChildOk(s, left, right, p, sep, i, s', j);
    }
    forall j | 0 <= j < |r'.keys| ensures r'.lo < Pos(r'.keys[j]) < r'.hi {
      assert r'.keys[j] == if j < i then r.keys[j] else if j == i then sep else r.keys[j - 1];
    }
  }

  lemma AttachNodeOk(s: Shape, left: Node, right: Node, p: Node, sep: Bytes, i: nat, s': Shape, x: Node)
    requires AttachStep(s, left, right, p, sep, i, s')
    requires s.g[p].rank == s.g[left].rank + 1
    requires x in s.g && x != p
    ensures NodeOk(s'.g, x)
  {
    hide Pos, Sorted, Chain, Holds, RootOk, LeafHolds;
    var u := Unsplit(s.g, left, right);
    if x == left || x == right {
      forall c | c in s.g[x].kids && c in s.g ensures c in s'.g && SameFace(s.g[c], s'.g[c]) {
        var j :| 0 <= j < |s.g[x].kids| && s.g[x].kids[j] == c;
        assert ChildOk(s.g, x, j);
      }
      NodeFrame(s.g, s'.g, x);
    } else {
      assert NodeOk(u, x);
      forall c | c in u[x].kids && c in u ensures c in s'.g && SameFace(u[c], s'.g[c]) {
        var j :| 0 <= j < |u[x].kids| && u[x].kids[j] == c;
        assert ChildOk(u, x, j);
      }
      NodeFrame(u, s'.g, x);
    }
  }

  lemma AttachHangs(s: Shape, left: Node, right: Node, p: Node, sep: Bytes, i: nat, s': Shape, x: Node)
    requires AttachStep(s, left, right, p, sep, i, s')
    requires !s.g[p].leaf
    requires x in s.g && x != s.root
    ensures Hangs(s'.g, x)
  {
    hide Pos, Sorted, Chain, Holds, RootOk, LeafHolds, NodeOk;
    var ks, ks' := s.g[p].kids, s'.g[p].kids;
    if x == right {
      assert ks'[i + 1] == right;
    } else {
      assert Hangs(s.g, x);
      if s.g[x].parent == p {
        var j :| 0 <= j < |ks| && ks[j] == x;
        assert ks'[if j <= i then j else j + 1] == x;
      }
    }
  }

  lemma AttachRest(s: Shape, left: Node, right: Node, p: Node, sep: Bytes, i: nat, s': Shape)
    requires AttachStep(s, left, right, p, sep, i, s')
    requires p != left && !s.g[p].leaf
    ensures RootOk(s'.g, s.root) && Chain(s'.g, s.leaves) && Holds(s'.g, s.m)
  {
    hide Pos, Sorted, Chain, Holds, LeafHolds, NodeOk, PendingRest, Hangs;
    ChainFrame(s.g, s'.g, s.leaves);
    HoldsFrame(s.g, s'.g, s.m);
    var u := Unsplit(s.g, left, right);
    assert forall x :: x in s'.g && x != right ==> x in u && s'.g[x].rank == u[x].rank;
  }

  /** Hanging the right half below the parent of the left half restores the invariant. */
  lemma Attach(s: Shape, left: Node, right: Node, p: Node, sep: Bytes, i: nat, s': Shape)
    requires AttachStep(s, left, right, p, sep, i, s')
    ensures Inv(s')
  {
    hide Pos, Chain, Holds, RootOk, Hangs, NodeOk, PendingRest;
    AttachSlot(s, left, right, p, sep, i, s');
    AttachRest(s, left, right, p, sep, i, s');
    AttachParentOk(s, left, right, p, sep, i, s');
    forall x | x in s'.g ensures NodeOk(s'.g, x) {
      if x != p { AttachNodeOk(s, left, right, p, sep, i, s', x); }
    }
    forall x | x in s'.g && x != s.root ensures Hangs(s'.g, x) {
      AttachHangs(s, left, right, p, sep, i, s', x);
    }
  }

  // ----- growing and shrinking at the root

  /** `s'` is `s` with a new root above the two halves of the old one. */
  ghost predicate NewRootStep(s: Shape, right: Node, r: Node, sep: Bytes, s': Shape) {
    && Pending(s, s.root, right) && r !in s.g && Pos(sep) == s.g[right].lo
    && s' == s.(
      root := r,
      g := s.g[s.root := s.g[s.root].(parent := r)]
              [right := s.g[right].(parent := r)]
              [r := Rec(false, [sep], [], [s.root, right], null, null, null, BOTTOM, TOP, s.g[s.root].rank + 1)])
  }

  lemma NewRootNodeOk(s: Shape, right: Node, r: Node, sep: Bytes, s': Shape, x: Node)
    requires NewRootStep(s, right, r, sep, s') && x in s'.g
    ensures NodeOk(s'.g, x)
  {
    hide Pos, Chain, Holds, LeafHolds;
    var u := Unsplit(s.g, s.root, right);
    assert NodeOk(s.g, s.root) && NodeOk(s.g, right);
    if x == r {
      assert ChildOk(s'.g, r, 0) && ChildOk(s'.g, r, 1);
    } else if x == s.root || x == right {
      forall c | c in s.g[x].kids && c in s.g ensures c in s'.g && SameFace(s.g[c], s'.g[c]) {
        var j :| 0 <= j < |s.g[x].kids| && s.g[x].kids[j] == c;
        assert ChildOk(s.g, x, j);
      }
      NodeFrame(s.g, s'.g, x);
    } else {
      assert NodeOk(u, x);
      forall c | c in u[x].kids && c in u ensures c in s'.g && SameFace(u[c], s'.g[c]) {
        var j :| 0 <= j < |u[x].kids| && u[x].kids[j] == c;
        assert ChildOk(u, x, j);
      }
      NodeFrame(u, s'.g, x);
    }
  }

  lemma NewRootRest(s: Shape, right: Node, r: Node, sep: Bytes, s': Shape)
    requires NewRootStep(s, right, r, sep, s')
    ensures RootOk(s'.g, r) && Chain(s'.g, s.leaves) && Holds(s'.g, s.m)
  {
    hide Pos, Chain, Holds, LeafHolds, NodeOk, PendingRest, Hangs;
    ChainFrame(s.g, s'.g, s.leaves);
    HoldsFrame(s.g, s'.g, s.m);
    var u := Unsplit(s.g, s.root, right);
    assert forall x :: x in s.g && x != right ==> x in u && s.g[x].rank == u[x].rank;
  }

  lemma NewRootHangs(s: Shape, right: Node, r: Node, sep: Bytes, s': Shape, x: Node)
    requires NewRootStep(s, right, r, sep, s') && x in s'.g && x != r
    ensures Hangs(s'.g, x)
  {
    hide Pos, Chain, Holds, LeafHolds, NodeOk, PendingRest, RootOk;
    assert s'.g[r].kids[0] == s.root && s'.g[r].kids[1] == right;
    assert x != s.root && x != right ==> Hangs(s.g, x);
  }

  /** A new root above the two halves of the old one restores the invariant. */
  lemma NewRoot(s: Shape, right: Node, r: Node, sep: Bytes, s': Shape)
    requires NewRootStep(s, right, r, sep, s')
    ensures Inv(s')
  {
    hide Pos, Chain, Holds, LeafHolds, NodeOk, PendingRest, RootOk, Hangs;
    forall x | x in s'.g ensures NodeOk(s'.g, x) {
      NewRootNodeOk(s, right, r, sep, s', x);
    }
    forall x | x in s'.g && x != r ensures Hangs(s'.g, x) {
      NewRootHangs(s, right, r, sep, s', x);
    }
    NewRootRest(s, right, r, sep, s');
  }

  /** `s'` is `s` without a root that has a single child. */
  ghost predicate CollapseStep(s: Shape, c: Node, s': Shape) {
    && Inv(s) && !s.g[s.root].leaf && s.g[s.root].keys == [] && s.g[s.root].kids == [c] && c in s.g
    && s' == s.(root := c, g := (s.g - {s.root})[c := s.g[c].(parent := null)])
  }

  /** Ranks decrease from the root down. */
  lemma BelowRoot(s: Shape, x: Node)
    requires Inv(s) && x in s.g && x != s.root
    ensures s.g[x].rank < s.g[s.root].rank
  {
    hide Pos, Sorted, Chain, Holds;
    assert Hangs(s.g, x);
    assert NodeOk(s.g, s.g[x].parent);
    var i := SlotOf(s.g, x);
  }

  lemma CollapseNode(s: Shape, c: Node, s': Shape, x: Node)
    requires CollapseStep(s, c, s') && x in s'.g
    ensures NodeOk(s'.g, x) && (x != c ==> Hangs(s'.g, x)) && s'.g[x].rank < s.g[s.root].rank
  {
    hide Pos, Sorted, Chain, Holds;
    assert NodeOk(s.g, x) && NodeOk(s.g, s.root);
    assert ChildOk(s.g, s.root, 0);
    BelowRoot(s, x);
    forall d | d in s.g[x].kids && d in s.g ensures d in s'.g && SameFace(s.g[d], s'.g[d]) {
      var j :| 0 <= j < |s.g[x].kids| && s.g[x].kids[j] == d;
      assert ChildOk(s.g, x, j);
    }
    NodeFrame(s.g, s'.g, x);
    assert Hangs(s.g, x);
    if x != c && s.g[x].parent == s.root {
      var i := SlotOf(s.g, x);
    }
  }

  lemma Collapse(s: Shape, c: Node, s': Shape)
    requires CollapseStep(s, c, s')
    ensures Inv(s')
  {
    hide Pos, Chain, Holds, LeafHolds, Hangs, InnerOk, LeafOk;
    assert NodeOk(s.g, s.root);
    CollapseRoot(s, c, s');
    forall x | x in s'.g ensures NodeOk(s'.g, x) && (x != c ==> Hangs(s'.g, x)) {
      CollapseNode(s, c, s', x);
    }
    ChainFrame(s.g, s'.g, s.leaves);
    HoldsFrame(s.g, s'.g, s.m);
  }

  lemma CollapseRoot(s: Shape, c: Node, s': Shape)
    requires CollapseStep(s, c, s')
    ensures RootOk(s'.g, c) && s'.g[c].rank + 1 == s.g[s.root].rank
  {
    hide Pos, Chain, Holds, LeafHolds, Hangs;
    assert NodeOk(s.g, s.root);
    assert ChildOk(s.g, s.root, 0);
    forall x | x in s'.g ensures s'.g[x].rank < s.g[s.root].rank {
      CollapseNode(s, c, s', x);
    }
  }

  // ----- splitting a node in two, and fusing two halves

  ghost function Relink(g: map<Node, Rec>, x: Node?, to: Node): map<Node, Rec> {
    if x in g then g[x := g[x].(prev := to)] else g
  }

  ghost function LeftHalf(r: Rec, i: nat, right: Node): Rec
    requires i < |r.keys| == |r.vals|
  {
    r.(keys := r.keys[..i], vals := r.vals[..i], hi := Pos(r.keys[i]), next := right)
  }

  ghost function RightHalf(r: Rec, i: nat, left: Node): Rec
    requires i < |r.keys| == |r.vals|
  {
    Rec(true, r.keys[i..], r.vals[i..], [], null, r.next, left, Pos(r.keys[i]), r.hi, 0)
  }

  /** `s'` is `s` with the entries of leaf `n`, the `j`-th of the chain, from `i` on moved to a new leaf. */
  ghost predicate LeafSplitStep(s: Shape, n: Node, right: Node, i: nat, j: nat, s': Shape) {
    && Inv(s) && n in s.g && s.g[n].leaf && right !in s.g
    && 0 < i < |s.g[n].keys| == |s.g[n].vals|
    && j < |s.leaves| && s.leaves[j] == n
    && s' == s.(
      g := Relink(s.g[n := LeftHalf(s.g[n], i, right)][right := RightHalf(s.g[n], i, n)], s.g[n].next, right),
      leaves := Insert(s.leaves, j + 1, right))
  }

  lemma SortedSlice(ks: seq<Bytes>, i: nat)
    requires Sorted(ks) && i <= |ks|
    ensures Sorted(ks[..i]) && Sorted(ks[i..])
  {
    hide Pos;
  }

  lemma LeftHalfOk(r: Rec, i: nat, right: Node, m: map<Bytes, Value>)
    requires LeafOk(r) && LeafHolds(r, m) && 0 < i < |r.keys|
    ensures LeafOk(LeftHalf(r, i, right)) && LeafHolds(LeftHalf(r, i, right), m)
  {
    hide Pos;
    var h := LeftHalf(r, i, right);
    assert Pos(r.keys[0]) < Pos(r.keys[i]);
    SortedSlice(r.keys, i);
    forall k | k in m && h.Covers(k) ensures k in h.keys {
      var t :| 0 <= t < |r.keys| && r.keys[t] == k;
      assert t < i;
      assert h.keys[t] == k;
    }
  }

  lemma RightHalfOk(r: Rec, i: nat, n: Node)
    requires LeafOk(r) && 0 < i < |r.keys|
    ensures LeafOk(RightHalf(r, i, n))
  {
    hide Pos, Sorted;
    var h := RightHalf(r, i, n);
    SortedSlice(r.keys, i);
    assert Pos(r.keys[i]) < r.hi;
    assert Pos(r.keys[0]) < Pos(r.keys[i]) by { SortedAt(r.keys, 0, i); }
    forall t | 0 <= t < |h.keys| ensures h.lo <= Pos(h.keys[t]) < h.hi {
      assert h.keys[t] == r.keys[t + i];
      SortedAt(r.keys, i, t + i);
    }
  }

  lemma SortedAt(ks: seq<Bytes>, i: nat, j: nat)
    requires Sorted(ks) && i <= j < |ks|
    ensures i < j ==> Pos(ks[i]) < Pos(ks[j])
  {
    hide Pos;
  }

  lemma RightHalfHolds(r: Rec, i: nat, n: Node, m: map<Bytes, Value>)
    requires LeafOk(r) && LeafHolds(r, m) && 0 < i < |r.keys|
    ensures LeafHolds(RightHalf(r, i, n), m)
  {
    hide Pos, Sorted;
    var h := RightHalf(r, i, n);
    forall t | 0 <= t < |h.keys| ensures h.keys[t] in m && m[h.keys[t]] == h.vals[t] {
      assert h.keys[t] == r.keys[t + i] && h.vals[t] == r.vals[t + i];
    }
    forall k | k in m && h.Covers(k) ensures k in h.keys {
      var t :| 0 <= t < |r.keys| && r.keys[t] == k;
      if t < i { SortedAt(r.keys, t, i); }
      assert h.keys[t - i] == k;
    }
  }

  ghost predicate Ranged(g: map<Node, Rec>) {
    forall n :: n in g && g[n].leaf ==> g[n].lo < g[n].hi
  }

  lemma InvRanged(s: Shape)
    requires NodesOk(s.g)
    ensures Ranged(s.g)
  {
    hide Pos, Sorted;
    forall n | n in s.g && s.g[n].leaf ensures s.g[n].lo < s.g[n].hi {
      assert NodeOk(s.g, n);
    }
  }

  lemma PendingRanged(s: Shape, left: Node, right: Node)
    requires Pending(s, left, right)
    ensures Ranged(s.g)
  {
    hide Pos, Sorted, Chain, Holds, RootOk, Hangs;
    var u := Unsplit(s.g, left, right);
    forall n | n in s.g && s.g[n].leaf ensures s.g[n].lo < s.g[n].hi {
      if n != left && n != right { assert NodeOk(u, n); }
    }
  }

  /** No leaf occurs twice in the chain. */
  lemma LeavesDistinct(s: Shape, i: nat, j: nat)
    requires Chain(s.g, s.leaves) && Ranged(s.g) && i < |s.leaves| && j < |s.leaves|
    ensures s.leaves[i] in s.g && s.g[s.leaves[i]].leaf
    ensures i != j ==> s.leaves[i] != s.leaves[j]
  {
    assert LinkOk(s.g, s.leaves, i);
    assert i < j ==> Before(s.g, s.leaves[i], s.leaves[j]);
    assert j < i ==> Before(s.g, s.leaves[j], s.leaves[i]);
  }

  /** The successor of the `j`-th leaf. */
  lemma NextLeaf(s: Shape, j: nat)
    requires Chain(s.g, s.leaves) && Ranged(s.g) && j < |s.leaves|
    ensures s.leaves[j] in s.g
    ensures j + 1 < |s.leaves| ==>
      s.g[s.leaves[j]].next == s.leaves[j + 1] && s.leaves[j + 1] in s.g && s.leaves[j + 1] != s.leaves[j]
    ensures j + 1 == |s.leaves| ==> s.g[s.leaves[j]].next == null
  {
    assert LinkOk(s.g, s.leaves, j);
    if j + 1 < |s.leaves| { LeavesDistinct(s, j, j + 1); LeavesDistinct(s, j + 1, j); }
  }

  /** The records that a leaf split leaves alone, and those it does not. */
  lemma LeafSplitAt(s: Shape, n: Node, right: Node, i: nat, j: nat, s': Shape, t: nat)
    requires LeafSplitStep(s, n, right, i, j, s') && t < |s.leaves|
    ensures right != n && right in s'.g && s.leaves[t] in s.g && s.leaves[t] in s'.g && s.leaves[t] != right
    ensures t == j ==> s'.g[n] == LeftHalf(s.g[n], i, right)
    ensures t == j ==> s'.g[right] == RightHalf(s.g[n], i, n)
    ensures t == j + 1 ==> s'.g[s.leaves[t]] == s.g[s.leaves[t]].(prev := right)
    ensures t != j && t != j + 1 ==> s'.g[s.leaves[t]] == s.g[s.leaves[t]]
  {
    hide Pos, Hangs, NodeOk, RootOk, Holds, LeafHolds, Chain, LeftHalf, RightHalf;
    InvRanged(s);
    NextLeaf(s, j);
    LeavesDistinct(s, t, j);
    if j + 1 < |s.leaves| { LeavesDistinct(s, t, j + 1); }
  }

  lemma LeafSplitLink(s: Shape, n: Node, right: Node, i: nat, j: nat, s': Shape, t: nat)
    requires LeafSplitStep(s, n, right, i, j, s') && t < |s'.leaves|
    ensures LinkOk(s'.g, s'.leaves, t)
  {
    hide Pos, Hangs, NodeOk, RootOk, Holds, LeafHolds, Relink, Insert;
    InsertIndex(s.leaves, j + 1, right, s'.leaves);
    var o := if t <= j then t else t - 1;
    assert LinkOk(s.g, s.leaves, o) && LinkOk(s.g, s.leaves, j);
    LeafSplitAt(s, n, right, i, j, s', j);
    LeafSplitAt(s, n, right, i, j, s', o);
    if o > 0 { LeafSplitAt(s, n, right, i, j, s', o - 1); }
    var l, x := s'.leaves, s'.leaves[t];
    assert t > 0 ==> l[t - 1] == if t - 1 <= j then s.leaves[t - 1] else if t == j + 2 then right else s.leaves[t - 2];
    assert t > 0 ==> s'.g[x].prev == l[t - 1];
    assert t + 1 < |l| ==> s'.g[x].next == l[t + 1];
  }

  lemma LeafSplitBefore(s: Shape, n: Node, right: Node, i: nat, j: nat, s': Shape, a: nat, b: nat)
    requires LeafSplitStep(s, n, right, i, j, s') && a < b < |s'.leaves|
    ensures Before(s'.g, s'.leaves[a], s'.leaves[b])
  {
    hide Pos, Sorted, Hangs, RootOk, Holds, LeafHolds, Relink, Insert;
    InsertIndex(s.leaves, j + 1, right, s'.leaves);
    var c := if a <= j then a else a - 1;
    var d := if b <= j then b else b - 1;
    LeafSplitAt(s, n, right, i, j, s', j);
    LeafSplitAt(s, n, right, i, j, s', c);
    LeafSplitAt(s, n, right, i, j, s', d);
    assert NodeOk(s.g, n);
    assert c < d ==> Before(s.g, s.leaves[c], s.leaves[d]);
    var x, y := s'.leaves[a], s'.leaves[b];
    assert x == if a == j + 1 then right else s.leaves[c];
    assert y == if b == j + 1 then right else s.leaves[d];
    assert a != j + 1 && b != j + 1 ==> c < d;
  }

  lemma LeafSplitChain(s: Shape, n: Node, right: Node, i: nat, j: nat, s': Shape)
    requires LeafSplitStep(s, n, right, i, j, s')
    ensures Chain(s'.g, s'.leaves)
  {
    hide Pos, Hangs, NodeOk, RootOk, Holds, LinkOk, Before;
    forall t | 0 <= t < |s'.leaves| ensures LinkOk(s'.g, s'.leaves, t) {
      LeafSplitLink(s, n, right, i, j, s', t);
    }
    forall a, b | 0 <= a < b < |s'.leaves| ensures Before(s'.g, s'.leaves[a], s'.leaves[b]) {
      LeafSplitBefore(s, n, right, i, j, s', a, b);
    }
    forall x | x in s'.g && s'.g[x].leaf ensures x in s'.leaves {
      assert s'.leaves[j + 1] == right;
      if x != right {
        var t :| 0 <= t < |s.leaves| && s.leaves[t] == x;
        assert s'.leaves[if t <= j then t else t + 1] == x;
      }
    }
  }

  lemma LeafSplitNodes(s: Shape, n: Node, right: Node, i: nat, j: nat, s': Shape)
    requires LeafSplitStep(s, n, right, i, j, s')
    ensures NodeOk(s'.g, n) && NodeOk(s'.g, right) && s.g[n].rank == 0
    ensures s'.g[n] == LeftHalf(s.g[n], i, right) && s'.g[right] == RightHalf(s.g[n], i, n)
    ensures Holds(s'.g, s.m)
  {
    hide Pos, Hangs, RootOk, Chain, LeftHalf, RightHalf, InnerOk;
    LeafSplitAt(s, n, right, i, j, s', j);
    var r := s.g[n];
    assert NodeOk(s.g, n);
    assert LeafHolds(r, s.m);
    LeftHalfOk(r, i, right, s.m);
    RightHalfOk(r, i, n);
    RightHalfHolds(r, i, n, s.m);
    forall x | x in s'.g && s'.g[x].leaf ensures LeafHolds(s'.g[x], s.m) {
      if x != n && x != right { assert LeafHolds(s.g[x], s.m); }
    }
  }

  lemma LeafSplitRest(s: Shape, n: Node, right: Node, i: nat, j: nat, s': Shape, x: Node)
    requires LeafSplitStep(s, n, right, i, j, s') && x in s.g && n in s'.g && right in s'.g
    requires s'.g[n] == LeftHalf(s.g[n], i, right) && s'.g[right] == RightHalf(s.g[n], i, n)
    ensures x != n ==> NodeOk(Unsplit(s'.g, n, right), x)
    ensures x != s.root ==> Hangs(s'.g, x)
  {
    hide Pos, Sorted, RootOk, Chain, Holds, LeafHolds, InnerOk, LeafOk;
    var u := Unsplit(s'.g, n, right);
    assert NodeOk(s.g, x);
    if x != n { NodeFrame(s.g, u, x); }
    assert x != s.root ==> Hangs(s.g, x);
  }

  /** Splitting a leaf leaves its right half waiting for a parent. */
  lemma LeafSplit(s: Shape, n: Node, right: Node, i: nat, j: nat, s': Shape)
    requires LeafSplitStep(s, n, right, i, j, s')
    ensures Pending(s', n, right)
  {
    hide Pos, Hangs, Holds, NodeOk, Chain;
    LeafSplitNodes(s, n, right, i, j, s');
    LeafSplitChain(s, n, right, i, j, s');
    forall x | x in s.g ensures (x != n ==> NodeOk(Unsplit(s'.g, n, right), x)) && (x != s.root ==> Hangs(s'.g, x)) {
      LeafSplitRest(s, n, right, i, j, s', x);
    }
  }

  ghost function InnerLeft(r: Rec, i: nat): Rec
    requires i < |r.keys| && |r.kids| == |r.keys| + 1
  {
    r.(keys := r.keys[..i], kids := r.kids[..i + 1], hi := Pos(r.keys[i]))
  }

  ghost function InnerRight(r: Rec, i: nat): Rec
    requires i < |r.keys| && |r.kids| == |r.keys| + 1
  {
    r.(keys := r.keys[i + 1..], kids := r.kids[i + 1..], lo := Pos(r.keys[i]), parent := null, next := null,
      prev := null)
  }

  /** Gives every node of `cs` the parent `to`. */
  ghost function Adopt(g: map<Node, Rec>, cs: seq<Node?>, to: Node): map<Node, Rec> {
    map x | x in g :: if x in cs then g[x].(parent := to) else g[x]
  }

  /** `s'` is `s` with the children of `p` right of separator `i` moved to a new node. */
  ghost predicate InnerSplitStep(s: Shape, p: Node, right: Node, i: nat, s': Shape) {
    && Inv(s) && p in s.g && !s.g[p].leaf && right !in s.g
    && i < |s.g[p].keys| && |s.g[p].kids| == |s.g[p].keys| + 1
    && s' == s.(
      g := Adopt(s.g, InnerRight(s.g[p], i).kids, right)[p := InnerLeft(s.g[p], i)][right := InnerRight(s.g[p], i)])
  }

  /** Which child of `p` moves. */
  lemma InnerSplitKid(s: Shape, p: Node, right: Node, i: nat, s': Shape, j: nat)
    requires InnerSplitStep(s, p, right, i, s') && j <= |s.g[p].keys|
    ensures var c := s.g[p].kids[j];
      && c in s.g && c != p && c != right && c in s'.g
      && ChildOk(s.g, p, j)
      && s'.g[c] == if j <= i then s.g[c] else s.g[c].(parent := right)
  {
    hide Pos, Sorted, Chain, Holds, RootOk, Hangs;
    assert NodeOk(s.g, p);
    assert ChildOk(s.g, p, j);
    var c := s.g[p].kids[j];
    var moved := InnerRight(s.g[p], i).kids;
    if j <= i {
      if c in moved {
        var t :| 0 <= t < |moved| && moved[t] == c;
        KidsDistinct(s.g, p, j, i + 1 + t);
      }
    } else {
      assert moved[j - i - 1] == c;
    }
  }

  lemma InnerSplitHalves(s: Shape, p: Node, right: Node, i: nat, s': Shape)
    requires InnerSplitStep(s, p, right, i, s')
    ensures NodeOk(s'.g, p) && NodeOk(s'.g, right)
  {
    hide Pos, Chain, Holds, RootOk, Hangs, Adopt;
    assert NodeOk(s.g, p);
    var r := s.g[p];
    forall j | 0 <= j <= i ensures ChildOk(s'.g, p, j) {
      InnerSplitKid(s, p, right, i, s', j);
    }
    forall j | 0 <= j <= |r.keys| - i - 1 ensures ChildOk(s'.g, right, j) {
      InnerSplitKid(s, p, right, i, s', i + 1 + j);
      assert s'.g[right].kids[j] == r.kids[i + 1 + j];
    }
  }

  lemma InnerSplitRest(s: Shape, p: Node, right: Node, i: nat, s': Shape, x: Node)
    requires InnerSplitStep(s, p, right, i, s') && x in s.g
    ensures x != p ==> NodeOk(Unsplit(s'.g, p, right), x)
    ensures x != s.root ==> Hangs(s'.g, x)
  {
    hide Pos, Sorted, Chain, Holds, RootOk;
    var u := Unsplit(s'.g, p, right);
    assert NodeOk(s.g, x) && NodeOk(s.g, p);
    if x != p {
      forall c | c in s.g[x].kids && c in s.g ensures c in u && SameFace(s.g[c], u[c]) {
        var t :| 0 <= t < |s.g[x].kids| && s.g[x].kids[t] == c;
        assert ChildOk(s.g, x, t);
        InnerSplitMoved(s, p, right, i, s', c);
      }
      NodeFrame(s.g, u, x);
    }
    if x != s.root {
      assert Hangs(s.g, x);
      InnerSplitMoved(s, p, right, i, s', x);
      if s.g[x].parent == p {
        var t := SlotOf(s.g, x);
        InnerSplitKid(s, p, right, i, s', t);
        if t <= i { assert s'.g[p].kids[t] == x; } else { assert s'.g[right].kids[t - i - 1] == x; }
      }
    }
  }

  lemma InnerSplitMoved(s: Shape, p: Node, right: Node, i: nat, s': Shape, c: Node)
    requires InnerSplitStep(s, p, right, i, s') && c in s.g
    ensures c in s'.g
    ensures c != p && s.g[c].parent != p ==> s'.g[c] == s.g[c]
    ensures c != p ==> s'.g[c].(parent := s.g[c].parent) == s.g[c]
  {
    hide Pos, Sorted, Chain, Holds, RootOk, Hangs;
    var moved := InnerRight(s.g[p], i).kids;
    if c in moved {
      var t :| 0 <= t < |moved| && moved[t] == c;
      InnerSplitKid(s, p, right, i, s', i + 1 + t);
    }
  }

  /** Splitting an inner node leaves its right half waiting for a parent. */
  lemma InnerSplit(s: Shape, p: Node, right: Node, i: nat, s': Shape)
    requires InnerSplitStep(s, p, right, i, s')
    ensures Pending(s', p, right)
  {
    hide Pos, Hangs, Holds, NodeOk, Chain, LeafHolds, Adopt;
    InnerSplitHalves(s, p, right, i, s');
    forall x | x in s.g ensures
      && x in s'.g
      && (x != p ==> NodeOk(Unsplit(s'.g, p, right), x))
      && (x != s.root ==> Hangs(s'.g, x))
      && (x != p ==> s'.g[x].(parent := s.g[x].parent) == s.g[x])
    {
      InnerSplitMoved(s, p, right, i, s', x);
      InnerSplitRest(s, p, right, i, s', x);
    }
    InnerSplitKeys(s, p, right, i, s');
    ChainFrame(s.g, s'.g, s.leaves);
    HoldsFrame(s.g, s'.g, s.m);
    InnerSplitRoot(s, p, right, i, s');
  }

  lemma InnerSplitKeys(s: Shape, p: Node, right: Node, i: nat, s': Shape)
    requires InnerSplitStep(s, p, right, i, s')
    ensures s'.g.Keys == s.g.Keys + {right}
  {
    hide Pos, Sorted, Chain, Holds, RootOk, Hangs, NodeOk;
  }

  lemma InnerSplitRoot(s: Shape, p: Node, right: Node, i: nat, s': Shape)
    requires InnerSplitStep(s, p, right, i, s')
    ensures RootOk(Unsplit(s'.g, p, right), s.root)
  {
    hide Pos, Sorted, Chain, Holds, Hangs, NodeOk, Adopt;
    InnerSplitKeys(s, p, right, i, s');
    var u := Unsplit(s'.g, p, right);
    forall x | x in s.g ensures x in u && u[x].(parent := s.g[x].parent).rank == s.g[x].rank && u[x].lo == s.g[x].lo
      && u[x].hi == s.g[x].hi {
      InnerSplitMoved(s, p, right, i, s', x);
    }
    InnerSplitMoved(s, p, right, i, s', s.root);
  }

  /** `s'` is `s` with separator `j` of `p` dropped together with the child on its right. */
  ghost predicate DetachStep(s: Shape, p: Node, left: Node, right: Node, j: nat, s': Shape) {
    && Inv(s) && p in s.g && !s.g[p].leaf
    && j < |s.g[p].keys| && |s.g[p].kids| == |s.g[p].keys| + 1
    && s.g[p].kids[j] == left && s.g[p].kids[j + 1] == right
    && s' == s.(g := s.g[p := s.g[p].(keys := Remove(s.g[p].keys, j), kids := Remove(s.g[p].kids, j + 1))])
  }

  lemma DetachFacts(s: Shape, p: Node, left: Node, right: Node, j: nat, s': Shape)
    requires DetachStep(s, p, left, right, j, s')
    ensures left in s.g && right in s.g && left != right && left != p && right != p && right != s.root && left != s.root
    ensures InnerOk(s.g, p) && ChildOk(s.g, p, j) && ChildOk(s.g, p, j + 1)
    ensures s.g[left].hi == s.g[right].lo == Pos(s.g[p].keys[j])
    ensures s.g[left].leaf == s.g[right].leaf
    ensures s'.g[left] == s.g[left] && s'.g[right] == s.g[right]
    ensures NodeOk(s.g, left) && NodeOk(s.g, right)
  {
    hide Pos, Sorted, Chain, Holds, Hangs;
    assert NodeOk(s.g, p);
    assert ChildOk(s.g, p, j) && ChildOk(s.g, p, j + 1);
    KidsDistinct(s.g, p, j, j + 1);
    assert NodeOk(s.g, left) && NodeOk(s.g, right);
  }

  lemma DetachParent(s: Shape, p: Node, left: Node, right: Node, j: nat, s': Shape)
    requires DetachStep(s, p, left, right, j, s')
    ensures left in s'.g && right in s'.g && p in Unsplit(s'.g, left, right)
    ensures NodeOk(Unsplit(s'.g, left, right), p)
  {
    hide Pos, Chain, Holds, Hangs, RootOk, NodesOk, LeafOk, Remove;
    DetachFacts(s, p, left, right, j, s');
    var u := Unsplit(s'.g, left, right);
    var r, r' := s.g[p], u[p];
    RemoveIndex(r.keys, j, r'.keys);
    RemoveIndex(r.kids, j + 1, r'.kids);
    forall t | 0 <= t <= |r'.keys| ensures ChildOk(u, p, t) {
      var o := if t <= j then t else t + 1;
      assert ChildOk(s.g, p, o);
      if o < j { KidsDistinct(s.g, p, o, j); } else if o > j { KidsDistinct(s.g, p, j, o); }
      if o < j + 1 { KidsDistinct(s.g, p, o, j + 1); } else if o > j + 1 { KidsDistinct(s.g, p, j + 1, o); }
    }
  }

  lemma DetachRest(s: Shape, p: Node, left: Node, right: Node, j: nat, s': Shape, x: Node)
    requires DetachStep(s, p, left, right, j, s') && x in s.g && left in s'.g && right in s'.g
    ensures x == left || x == right ==> NodeOk(s'.g, x)
    ensures x != left && x != right && x != p ==> NodeOk(Unsplit(s'.g, left, right), x)
    ensures x != s.root && x != right ==> Hangs(s'.g, x)
  {
    hide Pos, Sorted, Chain, Holds, RootOk, Remove;
    DetachFacts(s, p, left, right, j, s');
    var u := Unsplit(s'.g, left, right);
    assert NodeOk(s.g, x);
    if x == left || x == right {
      NodeFrame(s.g, s'.g, x);
    } else if x != p {
      forall c | c in s.g[x].kids && c in s.g ensures c in u && SameFace(s.g[c], u[c]) {
        var t :| 0 <= t < |s.g[x].kids| && s.g[x].kids[t] == c;
        assert ChildOk(s.g, x, t);
      }
      NodeFrame(s.g, u, x);
    }
    if x != s.root && x != right {
      assert Hangs(s.g, x);
      if s.g[x].parent == p {
        RemoveIndex(s.g[p].kids, j + 1, s'.g[p].kids);
        var t := SlotOf(s.g, x);
        assert s'.g[p].kids[if t <= j then t else t - 1] == x;
      }
    }
  }

  /** Taking a child off its parent is the converse of `Attach`. */
  lemma Detach(s: Shape, p: Node, left: Node, right: Node, j: nat, s': Shape)
    requires DetachStep(s, p, left, right, j, s')
    ensures Pending(s', left, right)
  {
    hide Pos, Hangs, Holds, NodeOk, Chain, LeafHolds, Remove;
    DetachFacts(s, p, left, right, j, s');
    DetachParent(s, p, left, right, j, s');
    forall x | x in s.g ensures
      && (x == left || x == right ==> NodeOk(s'.g, x))
      && (x != left && x != right && x != p ==> NodeOk(Unsplit(s'.g, left, right), x))
      && (x != s.root && x != right ==> Hangs(s'.g, x))
    {
      DetachRest(s, p, left, right, j, s', x);
    }
    ChainFrame(s.g, s'.g, s.leaves);
    HoldsFrame(s.g, s'.g, s.m);
  }

  /** Two leaves whose ranges meet are neighbours in the chain. */
  lemma Adjacent(s: Shape, left: Node, right: Node) returns (a: nat)
    requires Chain(s.g, s.leaves) && Ranged(s.g)
    requires left in s.g && right in s.g && s.g[left].leaf && s.g[right].leaf && s.g[left].hi == s.g[right].lo
    ensures a + 1 < |s.leaves| && s.leaves[a] == left && s.leaves[a + 1] == right
  {
    a :| 0 <= a < |s.leaves| && s.leaves[a] == left;
    var b :| 0 <= b < |s.leaves| && s.leaves[b] == right;
    assert b < a ==> Before(s.g, s.leaves[b], s.leaves[a]);
    assert a < b;
    assert LinkOk(s.g, s.leaves, a + 1);
    assert a + 1 < b ==> Before(s.g, s.leaves[a + 1], s.leaves[b]);
  }

  ghost function FusedLeaf(l: Rec, r: Rec): Rec {
    l.(keys := l.keys + r.keys, vals := l.vals + r.vals, hi := r.hi, next := r.next)
  }

  /** `s'` is `s` with leaf `right` emptied into its left neighbour and taken out of the chain. */
  ghost predicate LeafFuseStep(s: Shape, left: Node, right: Node, a: nat, s': Shape) {
    && Pending(s, left, right) && s.g[left].leaf
    && a + 1 < |s.leaves| && s.leaves[a] == left && s.leaves[a + 1] == right
    && s' == s.(
      g := Relink((s.g - {right})[left := FusedLeaf(s.g[left], s.g[right])], s.g[right].next, left),
      leaves := Remove(s.leaves, a + 1))
  }

  lemma SortedConcat(a: seq<Bytes>, b: seq<Bytes>, at: real)
    requires Sorted(a) && Sorted(b)
    requires forall i :: 0 <= i < |a| ==> Pos(a[i]) < at
    requires forall i :: 0 <= i < |b| ==> at <= Pos(b[i])
    ensures Sorted(a + b)
  {
    hide Pos;
  }

  lemma FusedLeafOk(l: Rec, r: Rec)
    requires LeafOk(l) && LeafOk(r) && l.hi == r.lo
    ensures LeafOk(FusedLeaf(l, r))
  {
    hide Pos, Sorted;
    SortedConcat(l.keys, r.keys, r.lo);
  }

  lemma FusedLeafHolds(l: Rec, r: Rec, m: map<Bytes, Value>)
    requires l.hi == r.lo && LeafHolds(l, m) && LeafHolds(r, m)
    ensures LeafHolds(FusedLeaf(l, r), m)
  {
    hide Pos;
    var f := FusedLeaf(l, r);
    forall k | k in m && f.Covers(k) ensures k in f.keys {
      assert l.Covers(k) || r.Covers(k);
    }
  }

  lemma LeafFuseAt(s: Shape, left: Node, right: Node, a: nat, s': Shape, t: nat)
    requires LeafFuseStep(s, left, right, a, s') && t < |s.leaves|
    ensures left in s'.g && right !in s'.g && s.leaves[t] in s.g
    ensures s'.g[left] == FusedLeaf(s.g[left], s.g[right])
    ensures t != a + 1 ==> s.leaves[t] in s'.g
    ensures t == a + 2 ==> s'.g[s.leaves[t]] == s.g[s.leaves[t]].(prev := left)
    ensures t < a || t > a + 2 ==> s'.g[s.leaves[t]] == s.g[s.leaves[t]]
  {
    hide Pos, Sorted, NodeOk, Hangs, RootOk, Holds, LeafHolds, Chain, FusedLeaf, PendingRest;
    PendingRanged(s, left, right);
    NextLeaf(s, a + 1);
    LeavesDistinct(s, t, a);
    LeavesDistinct(s, t, a + 1);
    if a + 2 < |s.leaves| { LeavesDistinct(s, t, a + 2); LeavesDistinct(s, a + 2, a); }
  }

  lemma LeafFuseLink(s: Shape, left: Node, right: Node, a: nat, s': Shape, t: nat)
    requires LeafFuseStep(s, left, right, a, s') && t < |s'.leaves|
    ensures LinkOk(s'.g, s'.leaves, t)
  {
    hide Pos, Sorted, NodeOk, Hangs, RootOk, Holds, LeafHolds, Relink, Remove, PendingRest;
    RemoveIndex(s.leaves, a + 1, s'.leaves);
    var o := if t <= a then t else t + 1;
    assert LinkOk(s.g, s.leaves, o) && LinkOk(s.g, s.leaves, a) && LinkOk(s.g, s.leaves, a + 1);
    LeafFuseAt(s, left, right, a, s', o);
    if o > 0 { LeafFuseAt(s, left, right, a, s', o - 1); }
    var l, x := s'.leaves, s'.leaves[t];
    assert t > 0 ==> l[t - 1] == if t - 1 <= a then s.leaves[t - 1] else s.leaves[t];
    assert t > 0 ==> s'.g[x].prev == l[t - 1];
    assert t + 1 < |l| ==> s'.g[x].next == l[t + 1];
  }

  lemma LeafFuseBefore(s: Shape, left: Node, right: Node, a: nat, s': Shape, b: nat, c: nat)
    requires LeafFuseStep(s, left, right, a, s') && b < c < |s'.leaves|
    ensures Before(s'.g, s'.leaves[b], s'.leaves[c])
  {
    hide Pos, Sorted, NodeOk, Hangs, RootOk, Holds, LeafHolds, Relink, Remove, PendingRest;
    RemoveIndex(s.leaves, a + 1, s'.leaves);
    var d := if b <= a then b else b + 1;
    var e := if c <= a then c else c + 1;
    LeafFuseAt(s, left, right, a, s', d);
    LeafFuseAt(s, left, right, a, s', e);
    assert Before(s.g, s.leaves[d], s.leaves[e]);
    assert b == a ==> Before(s.g, s.leaves[a + 1], s.leaves[e]);
  }

  lemma LeafFuseChain(s: Shape, left: Node, right: Node, a: nat, s': Shape)
    requires LeafFuseStep(s, left, right, a, s')
    ensures Chain(s'.g, s'.leaves)
  {
    hide Pos, Hangs, NodeOk, RootOk, Holds, LinkOk, Before, PendingRest;
    forall t | 0 <= t < |s'.leaves| ensures LinkOk(s'.g, s'.leaves, t) {
      LeafFuseLink(s, left, right, a, s', t);
    }
    forall b, c | 0 <= b < c < |s'.leaves| ensures Before(s'.g, s'.leaves[b], s'.leaves[c]) {
      LeafFuseBefore(s, left, right, a, s', b, c);
    }
    forall x | x in s'.g && s'.g[x].leaf ensures x in s'.leaves {
      var t :| 0 <= t < |s.leaves| && s.leaves[t] == x;
      assert s'.leaves[if t <= a then t else t - 1] == x;
    }
  }

  lemma LeafFuseNodes(s: Shape, left: Node, right: Node, a: nat, s': Shape, x: Node)
    requires LeafFuseStep(s, left, right, a, s') && x in s'.g
    ensures NodeOk(s'.g, x)
    ensures x != s.root ==> Hangs(s'.g, x)
    ensures s'.g[x].leaf ==> LeafHolds(s'.g[x], s.m)
  {
    hide Pos, Sorted, RootOk, Chain, FusedLeaf;
    LeafFuseAt(s, left, right, a, s', a);
    var u := Unsplit(s.g, left, right);
    assert LeafHolds(s.g[left], s.m) && LeafHolds(s.g[right], s.m);
    FusedLeafOk(s.g[left], s.g[right]);
    FusedLeafHolds(s.g[left], s.g[right], s.m);
    LeafFuseFace(s, left, right, a, s');
    if x != left {
      assert NodeOk(u, x);
      NodeFrame(u, s'.g, x);
      if s.g[x].leaf { assert LeafHolds(s.g[x], s.m); }
    }
    if x != s.root {
      assert Hangs(s.g, x);
    }
  }

  lemma LeafFuseFace(s: Shape, left: Node, right: Node, a: nat, s': Shape)
    requires LeafFuseStep(s, left, right, a, s')
    ensures s'.g.Keys == s.g.Keys - {right}
    ensures forall c :: c in Unsplit(s.g, left, right) ==> c in s'.g && SameFace(Unsplit(s.g, left, right)[c], s'.g[c])
    ensures forall c :: c in s'.g && c != left ==> s'.g[c].(prev := s.g[c].prev) == s.g[c]
  {
    hide Pos, Sorted, RootOk, Chain, Holds, NodeOk, Hangs;
  }

  /** Emptying a leaf into its left neighbour restores the invariant. */
  lemma LeafFuse(s: Shape, left: Node, right: Node, a: nat, s': Shape)
    requires LeafFuseStep(s, left, right, a, s')
    ensures Inv(s')
  {
    hide Pos, Hangs, NodeOk, Chain, LeafHolds, PendingRest;
    LeafFuseChain(s, left, right, a, s');
    LeafFuseFace(s, left, right, a, s');
    forall x | x in s'.g ensures NodeOk(s'.g, x) && (x != s.root ==> Hangs(s'.g, x))
      && (s'.g[x].leaf ==> LeafHolds(s'.g[x], s.m)) {
      LeafFuseNodes(s, left, right, a, s', x);
    }
  }

  ghost function FusedInner(l: Rec, r: Rec, sep: Bytes): Rec {
    l.(keys := l.keys + [sep] + r.keys, kids := l.kids + r.kids, hi := r.hi)
  }

  /** `s'` is `s` with inner node `right` emptied, under `sep`, into its left neighbour. */
  ghost predicate InnerFuseStep(s: Shape, left: Node, right: Node, sep: Bytes, s': Shape) {
    && Pending(s, left, right) && !s.g[left].leaf && Pos(sep) == s.g[right].lo
    && s' == s.(g := Adopt(s.g - {right}, s.g[right].kids, left)[left := FusedInner(s.g[left], s.g[right], sep)])
  }

  lemma InnerFuseAny(s: Shape, left: Node, right: Node, sep: Bytes, s': Shape, x: Node)
    requires InnerFuseStep(s, left, right, sep, s') && x in s.g && x != left && x != right
    ensures x in s'.g
    ensures s'.g[x] == if x in s.g[right].kids then s.g[x].(parent := left) else s.g[x]
    ensures x in s.g[right].kids <==> s.g[x].parent == right
    ensures x in s.g[right].kids ==> s.g[x].rank + 1 == s.g[right].rank
  {
    hide Pos, Sorted, Chain, Holds, RootOk;
    if x in s.g[right].kids {
      var t :| 0 <= t < |s.g[right].kids| && s.g[right].kids[t] == x;
      assert ChildOk(s.g, right, t);
    }
    if s.g[x].parent == right {
      InnerFuseRootParent(s, left, right);
      assert Hangs(s.g, x);
    }
  }

  lemma InnerFuseRootParent(s: Shape, left: Node, right: Node)
    requires Pending(s, left, right)
    ensures s.root in s.g && s.g[s.root].parent == null
  {
    hide Pos, Sorted, Chain, Holds, Hangs, NodeOk;
  }

  lemma InnerFuseLeft(s: Shape, left: Node, right: Node, sep: Bytes, s': Shape)
    requires InnerFuseStep(s, left, right, sep, s')
    ensures NodeOk(s'.g, left)
  {
    hide Pos, Sorted, Chain, Holds, RootOk, Hangs, Adopt, PendingRest;
    var l, r, f := s.g[left], s.g[right], s'.g[left];
    SortedFuse(l, r, sep);
    forall t | 0 <= t <= |f.keys| ensures ChildOk(s'.g, left, t) {
      if t <= |l.keys| {
        assert ChildOk(s.g, left, t);
        assert f.kids[t] == l.kids[t];
        InnerFuseAny(s, left, right, sep, s', f.kids[t]);
      } else {
        assert ChildOk(s.g, right, t - |l.keys| - 1);
        assert f.kids[t] == r.kids[t - |l.keys| - 1];
        InnerFuseAny(s, left, right, sep, s', f.kids[t]);
      }
    }
  }

  lemma SortedFuse(l: Rec, r: Rec, sep: Bytes)
    requires Sorted(l.keys) && Sorted(r.keys) && l.hi == r.lo == Pos(sep)
    requires l.lo < l.hi && r.lo < r.hi
    requires forall i :: 0 <= i < |l.keys| ==> l.lo < Pos(l.keys[i]) < l.hi
    requires forall i :: 0 <= i < |r.keys| ==> r.lo < Pos(r.keys[i]) < r.hi
    ensures var f := FusedInner(l, r, sep);
      Sorted(f.keys) && forall i :: 0 <= i < |f.keys| ==> f.lo < Pos(f.keys[i]) < f.hi
  {
    hide Pos;
    var f := FusedInner(l, r, sep);
    assert forall i :: 0 <= i < |f.keys| ==>
      f.keys[i] == if i < |l.keys| then l.keys[i] else if i == |l.keys| then sep else r.keys[i - |l.keys| - 1];
  }

  lemma InnerFuseRest(s: Shape, left: Node, right: Node, sep: Bytes, s': Shape, x: Node)
    requires InnerFuseStep(s, left, right, sep, s') && x in s.g && x != right
    ensures x in s'.g
    ensures x != left ==> NodeOk(s'.g, x)
    ensures x != s.root ==> Hangs(s'.g, x)
  {
    hide Pos, Sorted, Chain, Holds, RootOk, Adopt;
    var u := Unsplit(s.g, left, right);
    if x != left {
      assert NodeOk(u, x);
      InnerFuseAny(s, left, right, sep, s', x);
      forall c | c in u[x].kids && c in u ensures c in s'.g && SameFace(u[c], s'.g[c]) {
        var t :| 0 <= t < |u[x].kids| && u[x].kids[t] == c;
        assert ChildOk(u, x, t);
        if c != left { InnerFuseAny(s, left, right, sep, s', c); }
      }
      NodeFrame(u, s'.g, x);
    }
    if x != s.root {
      assert Hangs(s.g, x);
      InnerFuseHangs(s, left, right, sep, s', x);
    }
  }

  lemma InnerFuseHangs(s: Shape, left: Node, right: Node, sep: Bytes, s': Shape, x: Node)
    requires InnerFuseStep(s, left, right, sep, s') && x in s.g && x != right && x != s.root
    ensures x in s'.g && Hangs(s'.g, x)
  {
    hide Pos, Sorted, Chain, Holds, RootOk, Adopt, LeafOk, InnerOk;
    assert Hangs(s.g, x);
    var p := s.g[x].parent;
    InnerFuseParent(s, left, right, sep, s');
    if x != left { InnerFuseAny(s, left, right, sep, s', x); }
    if p != left && p != right { InnerFuseAny(s, left, right, sep, s', p); }
    if p == left || p == right {
      var ks := s.g[p].kids;
      var t :| 0 <= t < |ks| && ks[t] == x;
      assert s'.g[left].kids[if p == left then t else |s.g[left].kids| + t] == x;
    }
  }

  lemma InnerFuseParent(s: Shape, left: Node, right: Node, sep: Bytes, s': Shape)
    requires InnerFuseStep(s, left, right, sep, s')
    ensures left in s'.g && s'.g[left] == FusedInner(s.g[left], s.g[right], sep)
    ensures s'.g.Keys == s.g.Keys - {right}
    ensures left != s.root ==> s.g[left].parent != right
  {
    hide Pos, Sorted, Chain, Holds, RootOk, LeafOk;
    if left != s.root && s.g[left].parent == right {
      assert Hangs(s.g, left);
      assert NodeOk(s.g, right);
      var i := SlotOf(s.g, left);
    }
  }

  /** Emptying an inner node into its left neighbour restores the invariant. */
  lemma InnerFuse(s: Shape, left: Node, right: Node, sep: Bytes, s': Shape)
    requires InnerFuseStep(s, left, right, sep, s')
    ensures Inv(s')
  {
    hide Pos, Hangs, NodeOk, Chain, Holds, LeafHolds, PendingRest, Adopt, RootOk;
    InnerFuseLeft(s, left, right, sep, s');
    InnerFuseParent(s, left, right, sep, s');
    forall x | x in s'.g ensures NodeOk(s'.g, x) && (x != s.root ==> Hangs(s'.g, x)) && s'.g[x].leaf == s.g[x].leaf
      && s'.g[x].rank == s.g[x].rank {
      InnerFuseRest(s, left, right, sep, s', x);
      if x != left { InnerFuseAny(s, left, right, sep, s', x); }
    }
    InnerFuseEnds(s, left, right, sep, s');
  }

  lemma InnerFuseEnds(s: Shape, left: Node, right: Node, sep: Bytes, s': Shape)
    requires InnerFuseStep(s, left, right, sep, s')
    ensures RootOk(s'.g, s.root) && Chain(s'.g, s.leaves) && Holds(s'.g, s.m)
  {
    hide Pos, Hangs, NodeOk, Chain, Holds, LeafHolds, PendingRest, Adopt;
    InnerFuseParent(s, left, right, sep, s');
    InnerFuseRootParent(s, left, right);
    var u := Unsplit(s.g, left, right);
    forall x | x in s.g && x != left && x != right ensures
      x in s'.g && x in u && u[x] == s.g[x] && s'.g[x].(parent := s.g[x].parent) == s.g[x]
        && (s.g[x].parent != right ==> s'.g[x] == s.g[x])
    {
      InnerFuseAny(s, left, right, sep, s', x);
    }
    assert s.root == left ==> s'.g[left].parent == s.g[left].parent;
    assert forall x :: x in s'.g ==>
      x in u && s'.g[x].rank == u[x].rank && s'.g[x].lo == u[x].lo && s'.g[x].hi == u[x].hi;
    ChainFrame(s.g, s'.g, s.leaves);
    HoldsFrame(s.g, s'.g, s.m);
  }
}
