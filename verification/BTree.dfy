/** The B+tree engine: nodes linked in the heap, edited in place. */
module BTreeEngine {
  import opened Bytes
  import opened BTreeNodes
  import opened BTreeShape
  import opened BTreeHeap
  import opened BTreeSteps
  import opened BTreeLinks
  import opened BTreeClimb
  import opened Sets

  datatype Status = Ok | ErrMem | ErrNotFound | ErrNotSupported

  lemma WaitingFacts(s: Shape, left: Node, right: Node, t: Tally, order: nat)
    requires Pending(s, left, right) && TallyOk(s, t) && PicturesShape(s, order)
    ensures {left, right} <= Footprint(NodesOf(s))
    ensures t.root == s.root && s.root in s.g && right in s.g && left in s.g
    ensures left.parent == null <==> left == s.root
    ensures RankOf(s, left) < t.height
  {
    hide Pos, Pending, Footprint, Pictures;
    PendingFacts(s, left, right);
    Owns(NodesOf(s), left);
    Owns(NodesOf(s), right);
    Seen(s.g, order, left);
  }

  lemma SlotFacts(s: Shape, left: Node, right: Node, p: Node, sep: Bytes, i: nat, order: nat)
    requires Waits(s, left, right, p, sep, i) && PicturesShape(s, order)
    ensures {right, p, p.keys, p.children} <= Footprint(NodesOf(s))
    ensures (set c | c in s.g[p].kids && c in s.g) <= Footprint(NodesOf(s))
    ensures p == left.parent && p.keyCount == FillOf(s, p) && p.maxKeys == order
    ensures right in s.g && p in s.g && FillOf(s, p) <= order
  {
    hide Pos, Pending, Footprint, Pictures, InnerOk;
    PendingFacts(s, left, right);
    Owns(NodesOf(s), right);
    Owns(NodesOf(s), p);
    Seen(s.g, order, left);
    Seen(s.g, order, p);
    forall c | c in s.g[p].kids && c in s.g ensures c in Footprint(NodesOf(s)) {
      Owns(NodesOf(s), c);
    }
  }

  lemma SlotDefined(s: Shape, left: Node, right: Node, p: Node, sep: Bytes, i: nat)
    requires Waits(s, left, right, p, sep, i)
    ensures right in s.g && p in s.g && i <= |s.g[p].keys| && |s.g[p].kids| == |s.g[p].keys| + 1
    ensures FillOf(s, p) == |s.g[p].keys|
  {}

  /** What an insertion does to the map: an empty value is stored as null, unless the leaf has to split. */
  ghost predicate InsertResult(m: map<Bytes, Value>, m': map<Bytes, Value>, k: Bytes, v: Bytes, st: Status) {
    if k in m then m' == m[k := CopyValue(v)] && st == (if v == [] then ErrMem else Ok)
    else if st == Ok then m' == m[k := CopyValue(v)]
    else st == ErrMem && v == [] && m' == m
  }

  lemma LeafFacts(s: Shape, n: Node, order: nat)
    requires Inv(s) && LeafIn(s, n) && PicturesShape(s, order)
    ensures {n, n.keys, n.values, n.children} <= Footprint(NodesOf(s))
    ensures n.next != null ==> n.next in Footprint(NodesOf(s))
    ensures n.keyCount == FillOf(s, n) <= order && n.maxKeys == order && n.next == s.g[n].next && n.isLeaf
  {
    hide Pos, Footprint, Pictures, Inv;
    NextFacts(s, n);
    Seen(s.g, order, n);
    Owns(NodesOf(s), n);
    if s.g[n].next != null { Owns(NodesOf(s), s.g[n].next); }
  }

  /** A node of the tree is a leaf or an inner node, as its flag says. */
  lemma KindSeen(s: Shape, n: Node, order: nat)
    requires n in NodesOf(s) && PicturesShape(s, order)
    ensures if n.isLeaf then LeafIn(s, n) else InnerIn(s, n)
  {
    hide Pictures;
    Seen(s.g, order, n);
  }

  lemma RootCovers(s: Shape, k: Bytes)
    requires Inv(s)
    ensures s.root in NodesOf(s) && CoversIn(s, s.root, k)
  {
    hide Chain, Holds, NodesOk, Hangs;
  }

  lemma FitsDefined(s: Shape, n: Node, i: nat, k: Bytes)
    requires Fits(s, n, i, k)
    ensures n in s.g && s.g[n].leaf && i <= |s.g[n].keys| == |s.g[n].vals| && FillOf(s, n) == |s.g[n].keys|
  {}

  // ----- deletion

  lemma NodeFacts(s: Shape, n: Node, order: nat)
    requires n in NodesOf(s) && PicturesShape(s, order)
    ensures {n, n.keys, n.values, n.children} <= Footprint(NodesOf(s))
    ensures n.keyCount == FillOf(s, n) <= order && n.maxKeys == order && n.parent == s.g[n].parent
    ensures n.isLeaf == s.g[n].leaf
    ensures if n.isLeaf then LeafIn(s, n) else InnerIn(s, n)
  {
    hide Pictures, Footprint;
    Seen(s.g, order, n);
    Owns(NodesOf(s), n);
  }

  /** The root is the one node without a parent. */
  lemma ParentFacts(s: Shape, n: Node, t: Tally)
    requires Inv(s) && n in NodesOf(s) && TallyOk(s, t)
    ensures s.g[n].parent == null <==> n == s.root
    ensures n != s.root ==> s.g[n].parent in NodesOf(s) && RankOf(s, s.g[n].parent) == RankOf(s, n) + 1 < t.height
    ensures RankOf(s, n) < t.height
  {
    hide Pos, Chain, Holds, Hangs, NodesOk;
    if n != s.root { HangsFacts(s, n); }
  }

  /** The neighbours of a node among the children of its parent. */
  lemma SlotSeen(s: Shape, p: Node, i: nat, n: Node, order: nat)
    requires Inv(s) && PicturesShape(s, order) && IsSlot(s, p, i, n)
    ensures !p.isLeaf && p.children.Length == order + 1 && p.keyCount == FillOf(s, p) && i <= p.keyCount <= order
    ensures i > 0 ==> p.children[i - 1] != null && Siblings(s, p, i - 1, p.children[i - 1], n)
    ensures i < p.keyCount ==> p.children[i + 1] != null && Siblings(s, p, i, n, p.children[i + 1])
  {
    hide Pos, Inv, Pictures, NodeOk;
    Seen(s.g, order, p);
    assert forall x :: 0 <= x <= p.keyCount ==> p.children[x] == s.g[p].kids[x];
    KidsBelow(s, p);
    if i > 0 { SiblingFacts(s, p, i - 1, s.g[p].kids[i - 1], n); }
    if i < p.keyCount { SiblingFacts(s, p, i, n, s.g[p].kids[i + 1]); }
  }

  lemma SiblingsIn(s: Shape, p: Node, j: nat, left: Node, right: Node)
    requires Siblings(s, p, j, left, right)
    ensures left in NodesOf(s) && right in NodesOf(s) && p in NodesOf(s)
    ensures LeafIn(s, left) <==> LeafIn(s, right)
  {}

  /** Arithmetic of `btree_fix_after_delete`: a merged node never overflows. */
  lemma MergeFits(order: nat, few: nat, other: nat)
    requires MIN_ORDER <= order && few < MinFill(order) && other <= (order + 1) / 2
    ensures few + other + 1 <= order
  {}

  lemma UnderfullNotFilled(s: Shape, n: Node, order: nat)
    requires n in NodesOf(s) && n != s.root && FillOf(s, n) < MinFill(order)
    ensures !Filled(s, order)
  {}

  lemma LeafPairFacts(s: Shape, p: Node, j: nat, left: Node, right: Node, order: nat)
    requires Inv(s) && PicturesShape(s, order) && Siblings(s, p, j, left, right)
    requires LeafIn(s, left) || LeafIn(s, right)
    ensures {left, left.keys, left.values, left.children} <= Footprint(NodesOf(s))
    ensures {right, right.keys, right.values, right.children} <= Footprint(NodesOf(s))
    ensures {p, p.keys, p.values, p.children} <= Footprint(NodesOf(s))
    ensures left in s.g && right in s.g && p in s.g && s.g[left].leaf && j < |s.g[p].keys|
    ensures |s.g[left].keys| == |s.g[left].vals| == FillOf(s, left) <= order
    ensures |s.g[right].keys| == |s.g[right].vals| == FillOf(s, right) <= order
  {
    hide Pos, Footprint, Pictures, Inv;
    Owns(NodesOf(s), left);
    Owns(NodesOf(s), right);
    Owns(NodesOf(s), p);
    NextFacts(s, left);
    NextFacts(s, right);
    Seen(s.g, order, left);
    Seen(s.g, order, right);
  }

  /** After borrowing, both leaves have the minimum fill. */
  lemma BorrowFill(s: Shape, p: Node, j: nat, left: Node, right: Node, n: Node, i: nat, order: nat)
    requires MIN_ORDER <= order && Siblings(s, p, j, left, right) && s.g[left].leaf
    requires n == right ==> FillOf(s, left) > (order + 1) / 2 && i == FillOf(s, left) - 1
    requires n == left ==> FillOf(s, right) > (order + 1) / 2 && i == FillOf(s, left) + 1
    requires n == left || n == right
    ensures FilledBut(s, order, n) ==> i >= MinFill(order) && |s.g[left].keys| + |s.g[right].keys| - i >= MinFill(order)
  {}

  lemma MergeLeafFacts(s: Shape, p: Node, j: nat, left: Node, right: Node, order: nat) returns (a: nat)
    requires Inv(s) && PicturesShape(s, order) && Siblings(s, p, j, left, right) && LeafIn(s, left)
    ensures a + 1 < |s.leaves| && s.leaves[a] == left && s.leaves[a + 1] == right
    ensures s.g[right].next != left && s.g[right].next != right && s.g[right].next != p
    ensures s.g[right].next == null <==> a + 2 == |s.leaves|
    ensures s.g[right].next != null ==> s.g[right].next in s.g && s.g[right].next in Footprint(NodesOf(s))
    ensures right.next == s.g[right].next
  {
    hide Pos, Footprint, Pictures, Inv;
    a := FindNeighbours(s, p, j, left, right);
    Seen(s.g, order, right);
    if s.g[right].next != null { Owns(NodesOf(s), s.g[right].next); }
  }

  lemma MergeInnerFacts(s: Shape, p: Node, j: nat, left: Node, right: Node, order: nat)
    requires Inv(s) && PicturesShape(s, order) && Siblings(s, p, j, left, right) && InnerIn(s, left)
    ensures {left, left.keys, left.values, left.children} <= Footprint(NodesOf(s))
    ensures {p, p.keys, p.values, p.children} <= Footprint(NodesOf(s))
    ensures (set c | c in s.g[right].kids && c in s.g) <= Footprint(NodesOf(s))
    ensures left in s.g && right in s.g && p in s.g && !s.g[left].leaf
    ensures |s.g[left].keys| == FillOf(s, left) && |s.g[right].keys| == FillOf(s, right)
  {
    hide Pos, Footprint, Pictures, Inv;
    Owns(NodesOf(s), left);
    Owns(NodesOf(s), p);
    forall c | c in s.g[right].kids && c in s.g ensures c in Footprint(NodesOf(s)) {
      Owns(NodesOf(s), c);
    }
  }

  lemma RootSeen(s: Shape, t: Tally, order: nat)
    requires Inv(s) && PicturesShape(s, order) && TallyOk(s, t) && InnerIn(s, s.root) && FillOf(s, s.root) == 0
    ensures s.root.children.Length > 0
    ensures var c := s.root.children[0]; c != null && OnlyChild(s, c) && c != s.root && c in Footprint(NodesOf(s))
  {
    hide Pos, Footprint, Pictures, Inv;
    Seen(s.g, order, s.root);
    InnerSorted(s, s.root);
    KidsBelow(s, s.root);
    var c := s.g[s.root].kids[0];
    assert s.root.children[0] == s.root.Children()[0];
    assert c in s.g[s.root].kids;
    Owns(NodesOf(s), c);
  }

  /** An inner node is counted among the nodes but not among the leaves. */
  lemma InnerCount(s: Shape, n: Node, t: Tally)
    requires Inv(s) && TallyOk(s, t) && InnerIn(s, n)
    ensures t.leaves < t.nodes
  {
    hide Pos, Holds, Hangs, RootOk, NodeOk;
    InvRanged(s);
    LeafSetSize(s, |s.leaves|);
    assert s.leaves[..|s.leaves|] == s.leaves;
    forall x | x in NodeSet(s.leaves) ensures x in s.g && x != n {
      var j :| 0 <= j < |s.leaves| && s.leaves[j] == x;
      LeavesDistinct(s, j, j);
    }
    SubsetSize(NodeSet(s.leaves) + {n}, s.g.Keys);
  }

  lemma TallyRoot(s: Shape, t: Tally)
    requires TallyOk(s, t)
    ensures t.root == s.root && s.root in NodesOf(s)
  {}

  lemma OnlyChildIn(s: Shape, c: Node)
    requires OnlyChild(s, c)
    ensures c in s.g && s.root in s.g && !s.g[s.root].leaf
  {}

  lemma NoFixNeeded(s: Shape, n: Node, order: nat)
    requires n in NodesOf(s)
    requires if n == s.root then LeafIn(s, n) || FillOf(s, n) > 0 else FillOf(s, n) >= MinFill(order)
    ensures FilledBut(s, order, n) ==> Filled(s, order)
  {}

  lemma SlotParent(s: Shape, p: Node, i: nat, n: Node)
    requires IsSlot(s, p, i, n) && Inv(s)
    ensures p in NodesOf(s) && InnerIn(s, p) && p != n
  {
    hide Pos, Sorted, Chain, Holds, Hangs, RootOk;
    assert NodeOk(s.g, p);
    assert ChildOk(s.g, p, i);
  }

  lemma LeafStays(s: Shape, n: Node)
    requires LeafIn(s, n)
    ensures n in NodesOf(s)
  {}

  lemma LonelyNotFilled(s: Shape, p: Node, n: Node, order: nat)
    requires MIN_ORDER <= order && InnerIn(s, p) && p != n && FillOf(s, p) == 0
    ensures !FilledBut(s, order, n)
  {}

  lemma NotMine(ns: set<Node>, t: BTree)
    ensures t !in Footprint(ns)
  {}

  ghost function EmptyShape(leaf: Node): Shape {
    Shape(leaf, map[leaf := Blank(true)], [leaf], map[])
  }

  lemma EmptyFacts(leaf: Node, order: nat)
    ensures var s := EmptyShape(leaf);
      && Inv(s) && TallyOk(s, Tally(leaf, leaf, leaf, 0, 1, 1, 1)) && Filled(s, order) && SepsOf(s) == {}
  {
    var s := EmptyShape(leaf);
    assert NodeOk(s.g, leaf);
    assert LinkOk(s.g, s.leaves, 0);
  }

  class BTree {
    const order: nat
    var root: Node
    var firstLeaf: Node
    var lastLeaf: Node
    var totalKeys: nat
    var height: nat
    var internalNodes: nat
    var leafNodes: nat
    ghost var shape: Shape

    /** The end pointers and the counters. */
    ghost function Count(): Tally
      reads this
    {
      Tally(root, firstLeaf, lastLeaf, totalKeys, leafNodes, leafNodes + internalNodes, height)
    }

    ghost function Repr(): set<object>
      reads this
    {
      {this} + Footprint(NodesOf(shape))
    }

    /** The heap shows the shape, and the counters are its true values. */
    ghost predicate Linked()
      reads this, Footprint(NodesOf(shape))
    {
      MIN_ORDER <= order && PicturesShape(shape, order) && TallyOk(shape, Count())
    }

    ghost predicate Valid()
      reads this, Footprint(NodesOf(shape))
    {
      Linked() && Inv(shape)
    }

    /** Valid except that `right`, split off `left`, does not hang in the tree yet. */
    ghost predicate Waiting(left: Node, right: Node)
      reads this, Footprint(NodesOf(shape))
    {
      Linked() && Pending(shape, left, right)
    }

    constructor (order: nat)
      requires MIN_ORDER <= order <= MAX_ORDER
      ensures Valid() && MapOf(shape) == map[] && Filled(shape, order) && fresh(Repr()) && this.order == order
      ensures SepsOf(shape) == {} && leafNodes == 1 && height == 1 && AtLeast(shape, (order + 1) / 2 - 1)
    {
      hide Inv, TallyOk, Filled, SepsOf;
      var leaf := new Node(true, order);
      this.order := order;
      root, firstLeaf, lastLeaf := leaf, leaf, leaf;
      totalKeys, height, internalNodes, leafNodes := 0, 1, 0, 1;
      shape := EmptyShape(leaf);
      new;
      EmptyFacts(leaf, order);
      FilledIs(shape, order);
    }

    /** A new root above the two halves of the old one. */
    method GrowRoot(right: Node, sep: Bytes)
      requires Waiting(root, right) && StartsAt(shape, right, sep)
      modifies Repr()
      ensures Valid() && MapOf(shape) == old(MapOf(shape))
      ensures leafNodes == old(leafNodes)
      ensures forall o :: o in Repr() && o !in old(Repr()) ==> fresh(o)
      ensures old(Filled(shape, order)) && old(FillOf(shape, root)) >= MinFill(order) ==> Filled(shape, order)
      ensures SepsOf(shape) == old(Climbed(shape, SepsOf(shape), root, sep, order))
    {
      hide SepsOf, Climbed;
      hide Pos, Inv, Pending, PicturesShape, Footprint, GrownRoot, TallyOk, NodesOf, MapOf, StartsAt, Filled, FillOf;
      hide MinFill;
      ghost var s := shape;
      WaitingFacts(s, root, right, Count(), order);
      var r := LinkRoot(s, root, right, sep, order);
      GrowRootStep(s, right, r, sep, Count(), order);
      GrownClimb(s, right, r, sep, order);
      ghost var s' := GrownRoot(s, right, r, sep);
      NotMine(NodesOf(s'), this);
      FootprintGrows(NodesOf(s), r);
      root := r;
      height := height + 1;
      internalNodes := internalNodes + 1;
      shape := s';
    }

    /** Puts a separator and the right half into a parent that has room. */
    method AddChild(ghost left: Node, right: Node, p: Node, sep: Bytes, ghost i: nat)
      requires Linked() && Waits(shape, left, right, p, sep, i) && FillOf(shape, p) < order
      modifies Repr()
      ensures Valid() && MapOf(shape) == old(MapOf(shape))
      ensures leafNodes == old(leafNodes)
      ensures forall o :: o in Repr() && o !in old(Repr()) ==> fresh(o)
      ensures old(Filled(shape, order)) ==> Filled(shape, order)
      ensures SepsOf(shape) == old(Climbed(shape, SepsOf(shape), left, sep, order))
    {
      hide SepsOf, Climbed;
      hide Pos, Inv, Pending, PicturesShape, Footprint, Attached, TallyOk, NodesOf, MapOf, Waits, Filled, FillOf;
      hide MinFill;
      ghost var s := shape;
      SlotFacts(s, left, right, p, sep, i, order);
      SlotDefined(s, left, right, p, sep, i);
      LinkChild(s, left, right, p, sep, i, order);
      AttachShapeStep(s, left, right, p, sep, i, Count(), order);
      AttachedClimb(s, left, right, p, sep, i, order);
      ghost var s' := Attached(s, right, p, sep, i);
      NotMine(NodesOf(s'), this);
      shape := s';
    }

    /** Hangs the right half of a split node below the parent of the left half. */
    method InsertToParent(left: Node, right: Node, sep: Bytes)
      requires Waiting(left, right) && StartsAt(shape, right, sep)
      modifies Repr()
      ensures Valid() && MapOf(shape) == old(MapOf(shape))
      ensures leafNodes == old(leafNodes)
      ensures forall o :: o in Repr() && o !in old(Repr()) ==> fresh(o)
      ensures old(Filled(shape, order)) && old(FillOf(shape, left)) >= MinFill(order) ==> Filled(shape, order)
      ensures SepsOf(shape) == old(Climbed(shape, SepsOf(shape), left, sep, order))
      decreases height - RankOf(shape, left), 1
    {
      hide SepsOf, Climbed;
      hide Pos, Inv, Pending, PicturesShape, Footprint, TallyOk, NodesOf, MapOf, StartsAt, Waits, Filled, FillOf;
      hide MinFill, RankOf;
      ghost var s := shape;
      WaitingFacts(s, left, right, Count(), order);
      if left.parent == null {
        GrowRoot(right, sep);
      } else {
        var p := left.parent;
        ghost var i, q := FindSlot(s, left, right, sep);
        SlotFacts(s, left, right, q, sep, i, order);
        if p.keyCount < p.maxKeys {
          AddChild(left, right, p, sep, i);
        } else {
          SplitInternal(left, right, p, sep, i);
        }
      }
    }

    /** Splits a full inner node while a child is added to it. */
    method CutInternal(ghost left: Node, right: Node, p: Node, sep: Bytes, ghost i: nat) returns (r: Node, up: Bytes)
      requires Linked() && Waits(shape, left, right, p, sep, i) && FillOf(shape, p) == order
      modifies Repr()
      ensures Waiting(p, r) && StartsAt(shape, r, up) && MapOf(shape) == old(MapOf(shape))
      ensures leafNodes == old(leafNodes)
      ensures FillOf(shape, p) == order / 2 && FillOf(shape, r) == order - order / 2
      ensures forall o :: o in Repr() && o !in old(Repr()) ==> fresh(o)
      ensures (old(Filled(shape, order)) ==> Filled(shape, order)) && FillOf(shape, p) >= MinFill(order)
      ensures height == old(height) && RankOf(shape, p) == old(RankOf(shape, left)) + 1 <= height
      ensures Climbed(shape, SepsOf(shape), p, up, order) == old(Climbed(shape, SepsOf(shape), left, sep, order))
    {
      hide SepsOf, Climbed;
      hide Pos, Inv, Pending, PicturesShape, Footprint, TallyOk, NodesOf, MapOf, Waits, Filled, FillOf, MinFill, RankOf;
      hide Overflowed, Promoted, StartsAt;
      ghost var s := shape;
      SlotFacts(s, left, right, p, sep, i, order);
      SlotDefined(s, left, right, p, sep, i);
      r, up := LinkOverflow(s, left, right, p, sep, i, order);
      OverflowStep(s, left, right, p, sep, i, r, Count(), order);
      ClimbOn(s, left, right, p, sep, i, r, order);
      InnerHalves(s, left, right, p, sep, i, r, order);
      ghost var s' := Overflowed(s, right, p, sep, i, r, order);
      NotMine(NodesOf(s'), this);
      FootprintGrows(NodesOf(s), r);
      internalNodes := internalNodes + 1;
      shape := s';
      WaitingFacts(s', p, r, Count(), order);
    }

    /** Splits a full inner node, then hangs its right half one level up. */
    method SplitInternal(ghost left: Node, right: Node, p: Node, sep: Bytes, ghost i: nat)
      requires Linked() && Waits(shape, left, right, p, sep, i) && FillOf(shape, p) == order
      modifies Repr()
      ensures Valid() && MapOf(shape) == old(MapOf(shape))
      ensures leafNodes == old(leafNodes)
      ensures forall o :: o in Repr() && o !in old(Repr()) ==> fresh(o)
      ensures old(Filled(shape, order)) ==> Filled(shape, order)
      ensures SepsOf(shape) == old(Climbed(shape, SepsOf(shape), left, sep, order))
      decreases height - RankOf(shape, left), 0
    {
      hide SepsOf, Climbed;
      hide Pos, Inv, Pending, PicturesShape, Footprint, TallyOk, NodesOf, MapOf, Waits, Filled, FillOf, MinFill, RankOf;
      hide StartsAt;
      var r, up := CutInternal(left, right, p, sep, i);
      InsertToParent(p, r, up);
    }

    /** Splits a full leaf while an entry is added to it. */
    method CutLeaf(n: Node, k: Bytes, v: Value, ghost i: nat) returns (r: Node, up: Bytes)
      requires Valid() && Fits(shape, n, i, k) && FillOf(shape, n) == order
      modifies Repr()
      ensures Waiting(n, r) && StartsAt(shape, r, up) && MapOf(shape) == old(MapOf(shape))[k := v]
      ensures leafNodes == old(leafNodes) + 1 && FillOf(shape, n) == (order + 1) / 2
      ensures FillOf(shape, r) == order + 1 - (order + 1) / 2
      ensures forall o :: o in Repr() && o !in old(Repr()) ==> fresh(o)
      ensures (old(Filled(shape, order)) ==> Filled(shape, order)) && FillOf(shape, n) >= MinFill(order)
      ensures Climbed(shape, SepsOf(shape), n, up, order) == old(LeafClimbed(shape, n, i, k, order))
    {
      hide SepsOf, Climbed, LeafClimbed;
      hide Pos, Inv, Pending, PicturesShape, Footprint, TallyOk, NodesOf, MapOf, Filled, FillOf, MinFill;
      hide LeafOverflowed, LeafPromoted, StartsAt;
      ghost var s := shape;
      LeafFacts(s, n, order);
      ghost var j := LeafIndex(s, n);
      var wasLast := n.next == null;
      FitsDefined(s, n, i, k);
      r, up := LinkLeafOverflow(s, n, k, v, i, j, order);
      LeafOverflowStep(s, n, i, k, v, r, j, order);
      LeafOverflowTally(s, n, i, k, v, r, j, Count(), order);
      LeafOverflowFill(s, n, i, k, v, r, j, order);
      LeafClimbOn(s, n, i, k, v, r, j, order);
      LeafHalves(s, n, i, k, v, r, j, order);
      ghost var s' := LeafOverflowed(s, n, i, k, v, r, j, order);
      NotMine(NodesOf(s'), this);
      FootprintGrows(NodesOf(s), r);
      if wasLast {
        lastLeaf := r;
      }
      leafNodes := leafNodes + 1;
      totalKeys := totalKeys + 1;
      shape := s';
    }

    /** Splits a full leaf, then hangs its right half one level up. */
    method SplitLeaf(n: Node, k: Bytes, v: Bytes) returns (st: Status)
      requires Valid() && LeafIn(shape, n) && CoversIn(shape, n, k) && k !in MapOf(shape) && FillOf(shape, n) == order
      modifies Repr()
      ensures Valid() && InsertResult(old(MapOf(shape)), MapOf(shape), k, v, st) && (v != [] ==> st == Ok)
      ensures v == [] ==> st == ErrMem
      ensures st == Ok ==> leafNodes == old(leafNodes) + 1
      ensures forall o :: o in Repr() && o !in old(Repr()) ==> fresh(o)
      ensures old(Filled(shape, order)) ==> Filled(shape, order)
      ensures st == Ok ==> SepsInserted(old(shape), shape, k, order)
    {
      hide SepsOf, Climbed, LeafClimbed, SepsInserted;
      hide Pos, Inv, Pending, PicturesShape, Footprint, TallyOk, NodesOf, MapOf, Filled, FillOf, MinFill, StartsAt;
      hide Fits, LeafIn, CoversIn;
      ghost var s := shape;
      if v == [] {
        return ErrMem;
      }
      var i := PlaceInLeaf(shape, n, k, order);
      FitsDefined(s, n, i, k);
      var r, up := CutLeaf(n, k, CopyValue(v), i);
      InsertToParent(n, r, up);
      InsertedAt(s, shape, n, i, k, order);
      st := Ok;
    }

    /** Adds an entry to a leaf that has room. */
    method AddEntryTo(n: Node, k: Bytes, v: Value)
      requires Valid() && LeafIn(shape, n) && CoversIn(shape, n, k) && k !in MapOf(shape) && FillOf(shape, n) < order
      modifies Repr()
      ensures Valid() && MapOf(shape) == old(MapOf(shape))[k := v]
      ensures leafNodes == old(leafNodes)
      ensures forall o :: o in Repr() && o !in old(Repr()) ==> fresh(o)
      ensures old(Filled(shape, order)) ==> Filled(shape, order)
      ensures SepsInserted(old(shape), shape, k, order)
    {
      hide SepsInserted;
      hide Pos, Inv, PicturesShape, Footprint, TallyOk, NodesOf, MapOf, Filled, FillOf, MinFill, Fits, LeafIn, CoversIn;
      hide EntryAdded;
      ghost var s := shape;
      LeafFacts(s, n, order);
      var i := PlaceInLeaf(s, n, k, order);
      FitsDefined(s, n, i, k);
      LinkEntry(s, n, i, k, v, order);
      AddEntryStep(s, n, i, k, v, Count(), order);
      AddedSeps(s, n, i, k, v, order);
      ghost var s' := EntryAdded(s, n, i, k, v);
      NotMine(NodesOf(s'), this);
      totalKeys := totalKeys + 1;
      shape := s';
    }

    /** Overwrites the value of an entry. */
    method SetValueIn(n: Node, index: nat, k: Bytes, v: Value)
      requires Valid() && FoundAt(shape, n, index, k)
      modifies Repr()
      ensures Valid() && MapOf(shape) == old(MapOf(shape))[k := v]
      ensures leafNodes == old(leafNodes)
      ensures forall o :: o in Repr() && o !in old(Repr()) ==> fresh(o)
      ensures old(Filled(shape, order)) ==> Filled(shape, order)
      ensures SepsInserted(old(shape), shape, k, order)
    {
      hide SepsInserted;
      hide Pos, Inv, PicturesShape, Footprint, TallyOk, NodesOf, MapOf, Filled, FillOf, MinFill, CoversIn, EntrySet;
      ghost var s := shape;
      LeafFacts(s, n, order);
      LinkValue(s, n, index, k, v, order);
      SetEntryStep(s, n, index, k, v, Count(), order);
      OverwrittenSeps(s, n, index, k, v, order);
      ghost var s' := EntrySet(s, n, index, k, v);
      NotMine(NodesOf(s'), this);
      shape := s';
    }

    method InsertIntoLeaf(n: Node, k: Bytes, v: Bytes) returns (st: Status)
      requires Valid() && LeafIn(shape, n) && CoversIn(shape, n, k)
      modifies Repr()
      ensures Valid() && InsertResult(old(MapOf(shape)), MapOf(shape), k, v, st) && (v != [] ==> st == Ok)
      ensures v == [] && k !in old(MapOf(shape)) ==> (st == ErrMem <==> old(LeafCounts(shape, k, order)))
      ensures st == Ok ==>
        leafNodes == old(leafNodes) + if k !in old(MapOf(shape)) && old(LeafCounts(shape, k, order)) then 1 else 0
      ensures forall o :: o in Repr() && o !in old(Repr()) ==> fresh(o)
      ensures old(Filled(shape, order)) ==> Filled(shape, order)
      ensures st == Ok ==> SepsInserted(old(shape), shape, k, order)
    {
      hide SepsInserted;
      hide Pos, Inv, PicturesShape, Footprint, TallyOk, NodesOf, MapOf, Filled, FillOf, MinFill, LeafIn, CoversIn;
      hide FoundAt;
      hide LeafCounts;
      LeafFacts(shape, n, order);
      LeafCountsAt(shape, k, n, order);
      var index := FindInLeaf(shape, n, k, order);
      if index >= 0 {
        SetValueIn(n, index, k, CopyValue(v));
        return if v == [] then ErrMem else Ok;
      }
      if n.keyCount < n.maxKeys {
        AddEntryTo(n, k, CopyValue(v));
        return Ok;
      }
      st := SplitLeaf(n, k, v);
    }

    method InsertRecursive(n: Node, k: Bytes, v: Bytes) returns (st: Status)
      requires Valid() && n in NodesOf(shape) && CoversIn(shape, n, k)
      modifies Repr()
      ensures Valid() && InsertResult(old(MapOf(shape)), MapOf(shape), k, v, st) && (v != [] ==> st == Ok)
      ensures v == [] && k !in old(MapOf(shape)) ==> (st == ErrMem <==> old(LeafCounts(shape, k, order)))
      ensures st == Ok ==>
        leafNodes == old(leafNodes) + if k !in old(MapOf(shape)) && old(LeafCounts(shape, k, order)) then 1 else 0
      ensures forall o :: o in Repr() && o !in old(Repr()) ==> fresh(o)
      ensures old(Filled(shape, order)) ==> Filled(shape, order)
      ensures st == Ok ==> SepsInserted(old(shape), shape, k, order)
      decreases RankOf(shape, n)
    {
      hide SepsInserted;
      hide Pos, Inv, PicturesShape, Footprint, TallyOk, NodesOf, MapOf, Filled, LeafIn, InnerIn, CoversIn, RankOf;
      hide InsertResult, LeafCounts;
      KindSeen(shape, n, order);
      if n.isLeaf {
        st := InsertIntoLeaf(n, k, v);
      } else {
        var c := ChildFor(shape, n, k, order);
        st := InsertRecursive(c, k, v);
      }
    }

    /** `btree_insert_complete`: the map changes at `k` only. */
    method Insert(k: Bytes, v: Bytes) returns (st: Status)
      requires Valid() && k != []
      modifies Repr()
      ensures Valid() && InsertResult(old(MapOf(shape)), MapOf(shape), k, v, st) && (v != [] ==> st == Ok)
      ensures v != [] ==> st == Ok && MapOf(shape) == old(MapOf(shape))[k := Data(v)]
      ensures v == [] && k in old(MapOf(shape)) ==> st == ErrMem && MapOf(shape) == old(MapOf(shape))[k := Null]
      ensures v == [] && k !in old(MapOf(shape)) ==>
        if old(LeafCounts(shape, k, order)) then st == ErrMem && MapOf(shape) == old(MapOf(shape))
        else st == Ok && MapOf(shape) == old(MapOf(shape))[k := Null]
      ensures st == Ok ==>
        leafNodes == old(leafNodes) + if k !in old(MapOf(shape)) && old(LeafCounts(shape, k, order)) then 1 else 0
      ensures forall o :: o in Repr() && o !in old(Repr()) ==> fresh(o)
      ensures old(Filled(shape, order)) ==> Filled(shape, order)
      ensures old(AtLeast(shape, (order + 1) / 2 - 1)) ==> AtLeast(shape, (order + 1) / 2 - 1)
      ensures st == Ok ==> SepsInserted(old(shape), shape, k, order)
    {
      hide Pos, Inv, PicturesShape, Footprint, NodesOf, MapOf, Filled, CoversIn, SepsInserted, LeafCounts;
      hide AtLeast;
      RootCovers(shape, k);
      FilledIs(shape, order);
      st := InsertRecursive(root, k, v);
      FilledIs(shape, order);
    }

    /** `btree_search_internal`: the value of the map, or null. */
    method Search(k: Bytes) returns (v: Value)
      requires Valid()
      ensures v == if k in MapOf(shape) then MapOf(shape)[k] else Null
    {
      hide Pos, Inv, PicturesShape, Footprint, NodesOf, MapOf, CoversIn, LeafIn, InnerIn, RankOf, FoundAt;
      RootCovers(shape, k);
      var current := root;
      while !current.isLeaf
        invariant Valid() && current in NodesOf(shape) && CoversIn(shape, current, k)
        decreases RankOf(shape, current)
      {
        KindSeen(shape, current, order);
        current := ChildFor(shape, current, k, order);
      }
      KindSeen(shape, current, order);
      var index := FindInLeaf(shape, current, k, order);
      v := if index >= 0 then current.values[index] else Null;
    }

    /** Moves the last entry of the left neighbour over, and the separator with it. */
    method BorrowFromLeft(p: Node, j: nat, left: Node, n: Node)
      requires Valid() && Siblings(shape, p, j, left, n) && LeafIn(shape, n)
      requires FillOf(shape, left) > (order + 1) / 2 && FillOf(shape, n) < MinFill(order)
      modifies Repr()
      ensures LentByLeft(old(shape), shape, p, j, left, n) && NodesOf(shape) == old(NodesOf(shape))
      ensures leafNodes == old(leafNodes)
      ensures Valid() && MapOf(shape) == old(MapOf(shape)) && Repr() == old(Repr())
      ensures old(FilledBut(shape, order, n)) ==> Filled(shape, order)
    {
      hide Pos, Inv, PicturesShape, Footprint, TallyOk, NodesOf, MapOf, Siblings, Filled, FilledBut, Redealt;
      hide LentByLeft, LentByRight;
      ghost var s := shape;
      LeafPairFacts(s, p, j, left, n, order);
      LeftLends(s, p, j, left, n);
      LinkBorrowLeft(s, p, j, left, n, order);
      BorrowFill(s, p, j, left, n, n, |s.g[left].keys| - 1, order);
      RedealtStep(s, p, j, left, n, |s.g[left].keys| - 1, n, Count(), order);
      ghost var s' := Redealt(s, p, j, left, n, |s.g[left].keys| - 1);
      NotMine(NodesOf(s'), this);
      shape := s';
    }

    /** Moves the first entry of the right neighbour over, and the separator with it. */
    method BorrowFromRight(p: Node, j: nat, n: Node, right: Node)
      requires Valid() && Siblings(shape, p, j, n, right) && LeafIn(shape, n)
      requires FillOf(shape, right) > (order + 1) / 2 && FillOf(shape, n) < MinFill(order)
      modifies Repr()
      ensures LentByRight(old(shape), shape, p, j, n, right) && NodesOf(shape) == old(NodesOf(shape))
      ensures leafNodes == old(leafNodes)
      ensures Valid() && MapOf(shape) == old(MapOf(shape)) && Repr() == old(Repr())
      ensures old(FilledBut(shape, order, n)) ==> Filled(shape, order)
    {
      hide Pos, Inv, PicturesShape, Footprint, TallyOk, NodesOf, MapOf, Siblings, Filled, FilledBut, Redealt;
      hide LentByLeft, LentByRight;
      ghost var s := shape;
      LeafPairFacts(s, p, j, n, right, order);
      RightLends(s, p, j, n, right);
      LinkBorrowRight(s, p, j, n, right, order);
      BorrowFill(s, p, j, n, right, n, |s.g[n].keys| + 1, order);
      RedealtStep(s, p, j, n, right, |s.g[n].keys| + 1, n, Count(), order);
      ghost var s' := Redealt(s, p, j, n, right, |s.g[n].keys| + 1);
      NotMine(NodesOf(s'), this);
      shape := s';
    }

    /** Empties a leaf into its left neighbour and drops it from the parent. */
    method MergeLeaves(p: Node, j: nat, left: Node, right: Node, ghost n: Node)
      requires Valid() && Siblings(shape, p, j, left, right) && LeafIn(shape, left) && (n == left || n == right)
      requires FillOf(shape, left) + FillOf(shape, right) <= order
      modifies Repr()
      ensures NodesOf(shape) == old(NodesOf(shape)) - {right}
      ensures KeysOf(shape, left) == old(KeysOf(shape, left)) + old(KeysOf(shape, right))
      ensures leafNodes == old(leafNodes) - 1
      ensures Valid() && MapOf(shape) == old(MapOf(shape)) && Repr() <= old(Repr())
      ensures height == old(height) && p in NodesOf(shape) && RankOf(shape, p) == old(RankOf(shape, p))
      ensures SameAbove(old(shape), shape, p) && FillOf(shape, p) == old(FillOf(shape, p)) - 1
      ensures old(FilledBut(shape, order, n)) ==> FilledBut(shape, order, p)
    {
      hide Pos, Inv, PicturesShape, Footprint, TallyOk, NodesOf, MapOf, Siblings, FilledBut, LeavesMerged, RankOf;
      hide SameAbove, FillOf, KeysOf;
      ghost var s := shape;
      LeafPairFacts(s, p, j, left, right, order);
      ghost var a := MergeLeafFacts(s, p, j, left, right, order);
      var wasLast := right.next == null;
      LeavesPoured(s, p, j, left, right, a);
      LinkMergeLeaves(s, p, j, left, right, a, order);
      LeavesMergedStep(s, p, j, left, right, a, n, order);
      LeavesMergedTally(s, p, j, left, right, a, Count());
      LeavesMergedAbove(s, p, j, left, right, a);
      ghost var s' := LeavesMerged(s, p, j, left, right, a);
      NotMine(NodesOf(s'), this);
      FootprintMonotone(NodesOf(s'), NodesOf(s));
      if wasLast {
        lastLeaf := left;
      }
      leafNodes := leafNodes - 1;
      shape := s';
    }

    /** Empties an inner node into its left neighbour and drops it from the parent. */
    method MergeInners(p: Node, j: nat, left: Node, right: Node, ghost n: Node)
      requires Valid() && Siblings(shape, p, j, left, right) && InnerIn(shape, left) && (n == left || n == right)
      requires FillOf(shape, left) + FillOf(shape, right) + 1 <= order
      modifies Repr()
      ensures NodesOf(shape) == old(NodesOf(shape)) - {right}
      ensures KeysOf(shape, left) == old(KeysOf(shape, left)) + [old(KeysOf(shape, p))[j]] + old(KeysOf(shape, right))
      ensures leafNodes == old(leafNodes)
      ensures Valid() && MapOf(shape) == old(MapOf(shape)) && Repr() <= old(Repr())
      ensures height == old(height) && p in NodesOf(shape) && RankOf(shape, p) == old(RankOf(shape, p))
      ensures SameAbove(old(shape), shape, p) && FillOf(shape, p) == old(FillOf(shape, p)) - 1
      ensures old(FilledBut(shape, order, n)) ==> FilledBut(shape, order, p)
    {
      hide Pos, Inv, PicturesShape, Footprint, TallyOk, NodesOf, MapOf, Siblings, FilledBut, InnersMerged, RankOf;
      hide SameAbove, KeysOf;
      ghost var s := shape;
      MergeInnerFacts(s, p, j, left, right, order);
      InnersPoured(s, p, j, left, right);
      LinkMergeInners(s, p, j, left, right, order);
      InnerCount(s, left, Count());
      InnersMergedStep(s, p, j, left, right, n, Count(), order);
      InnersMergedAbove(s, p, j, left, right);
      ghost var s' := InnersMerged(s, p, j, left, right);
      NotMine(NodesOf(s'), this);
      FootprintMonotone(NodesOf(s'), NodesOf(s));
      internalNodes := internalNodes - 1;
      shape := s';
    }

    /** Lets the only child of the root take its place. */
    method ShrinkRoot()
      requires Valid() && InnerIn(shape, root) && FillOf(shape, root) == 0
      modifies Repr()
      ensures NodesOf(shape) == old(NodesOf(shape)) - {old(root)}
      ensures leafNodes == old(leafNodes)
      ensures Valid() && MapOf(shape) == old(MapOf(shape)) && Repr() <= old(Repr())
      ensures old(FilledBut(shape, order, root)) ==> Filled(shape, order)
    {
      hide Pos, Inv, PicturesShape, Footprint, TallyOk, NodesOf, MapOf, FilledBut, Filled, FillOf, InnerIn, OnlyChild;
      hide Collapsed;
      ghost var s := shape;
      TallyRoot(s, Count());
      RootSeen(s, Count(), order);
      var c := root.children[0];
      LinkCollapse(s, c, order);
      InnerCount(s, root, Count());
      CollapsedStep(s, c, Count(), order);
      OnlyChildIn(s, c);
      ghost var s' := Collapsed(s, c);
      NotMine(NodesOf(s'), this);
      FootprintMonotone(NodesOf(s'), NodesOf(s));
      root := c;
      height := height - 1;
      internalNodes := internalNodes - 1;
      shape := s';
    }

    /** `btree_fix_after_delete`: restores the minimum fill from `n` upwards, as far as the code can. */
    method FixAfterDelete(n: Node) returns (st: Status)
      requires Valid() && n in NodesOf(shape)
      modifies Repr()
      ensures Valid() && MapOf(shape) == old(MapOf(shape)) && Repr() <= old(Repr())
      ensures NodesOf(shape) <= old(NodesOf(shape))
      ensures old(LeafIn(shape, n)) && old(FillOf(shape, n)) < (order + 1) / 2 - 1 ==>
        Mended(old(shape), shape, n, (order + 1) / 2)
      ensures leafNodes == old(leafNodes) -
        if old(MergesAt(shape, n, FillOf(shape, n), (order + 1) / 2 - 1, (order + 1) / 2)) then 1 else 0
      ensures st == Ok || st == ErrNotSupported
      ensures old(FilledBut(shape, order, n)) ==> (Filled(shape, order) <==> st == Ok)
      ensures st == ErrNotSupported <==> old(Stuck(shape, n, FillOf(shape, n), order))
      ensures old(FillOf(shape, n)) >= (order + 1) / 2 - 1 ==> shape == old(shape)
      decreases height - RankOf(shape, n), 1
    {
      hide Pos, Inv, PicturesShape, Footprint, TallyOk, NodesOf, MapOf, Siblings, FilledBut, Filled, FillOf, RankOf;
      hide LeafIn, InnerIn, IsSlot, Stuck, SameAbove, MergesAt, Mended, Repaired;
      ghost var s := shape;
      RootNeverMerges(s, n, FillOf(s, n), (order + 1) / 2 - 1, (order + 1) / 2);
      NodeFacts(s, n, order);
      ParentFacts(s, n, Count());
      TallyRoot(s, Count());
      NotStuck(s, n, FillOf(s, n), order);
      if n.parent == null {
        if !n.isLeaf && n.keyCount == 0 {
          ShrinkRoot();
        } else {
          NoFixNeeded(s, n, order);
        }
        RootHasNoSlot(s, shape, n, (order + 1) / 2);
        return Ok;
      }
      if n.keyCount >= MinFill(order) {
        NoFixNeeded(s, n, order);
        return Ok;
      }
      var p := n.parent;
      var i := SlotIn(s, n, p, order);
      SlotSeen(s, p, i, n, order);
      st := FixBelow(n, p, i);
      if old(LeafIn(shape, n)) { MendedAt(s, shape, p, i, n, (order + 1) / 2); }
    }

    /** Borrowing or merging at slot `i` of `p`, where the underfull node `n` sits. */
    method FixBelow(n: Node, p: Node, i: nat) returns (st: Status)
      requires Valid() && n in NodesOf(shape) && n != root && IsSlot(shape, p, i, n)
      requires FillOf(shape, n) < MinFill(order)
      requires RankOf(shape, p) == RankOf(shape, n) + 1 < height
      modifies Repr()
      ensures Valid() && MapOf(shape) == old(MapOf(shape)) && Repr() <= old(Repr())
      ensures NodesOf(shape) <= old(NodesOf(shape))
      ensures old(LeafIn(shape, n)) ==> Repaired(old(shape), shape, p, i, n, (order + 1) / 2)
      ensures leafNodes == old(leafNodes) -
        if old(MergesAt(shape, n, FillOf(shape, n), (order + 1) / 2 - 1, (order + 1) / 2)) then 1 else 0
      ensures st == Ok || st == ErrNotSupported
      ensures old(FilledBut(shape, order, n)) ==> (Filled(shape, order) <==> st == Ok)
      ensures st == ErrNotSupported <==> old(Stuck(shape, n, FillOf(shape, n), order))
      decreases height - RankOf(shape, n), 0
    {
      hide Pos, Inv, PicturesShape, Footprint, TallyOk, NodesOf, MapOf, Siblings, FilledBut, Filled, FillOf, RankOf;
      hide LeafIn, InnerIn, IsSlot, Stuck, SameAbove, Lends, MergesAt, LentByLeft, LentByRight, Repaired, Mended;
      ghost var s := shape;
      TallyRoot(s, Count());
      MergesHere(s, p, i, n, FillOf(s, n), order);
      SlotSeen(s, p, i, n, order);
      SlotParent(s, p, i, n);
      NodeFacts(s, n, order);
      NodeFacts(s, p, order);
      StuckHere(s, p, i, n, FillOf(s, n), order);
      var left := if i > 0 then p.children[i - 1] else null;
      var right := if i < p.keyCount then p.children[i + 1] else null;
      LendsIs(s, p, i, n, left, right, order);
      if left != null {
        SiblingsIn(s, p, i - 1, left, n);
        NodeFacts(s, left, order);
        if left.keyCount > (left.maxKeys + 1) / 2 {
          if n.isLeaf {
            BorrowFromLeft(p, i - 1, left, n);
            RepairedIs(s, shape, p, i, n, left, right, (order + 1) / 2);
            return Ok;
          }
          UnderfullNotFilled(s, n, order);
          return ErrNotSupported;
        }
      }
      if right != null {
        SiblingsIn(s, p, i, n, right);
        NodeFacts(s, right, order);
        if right.keyCount > (right.maxKeys + 1) / 2 {
          if n.isLeaf {
            BorrowFromRight(p, i, n, right);
            RepairedIs(s, shape, p, i, n, left, right, (order + 1) / 2);
            return Ok;
          }
          UnderfullNotFilled(s, n, order);
          return ErrNotSupported;
        }
      }
      if left != null {
        MergeFits(order, n.keyCount, left.keyCount);
        Merge(p, i - 1, left, n, n);
      } else if right != null {
        MergeFits(order, n.keyCount, right.keyCount);
        Merge(p, i, n, right, n);
      } else {
        LonelyNotFilled(s, p, n, order);
        SameAboveRefl(s, p);
      }
      StuckThere(s, shape, p, FillOf(shape, p), order);
      InnerNeverMerges(s, shape, p, FillOf(shape, p), (order + 1) / 2 - 1, (order + 1) / 2);
      st := FixAfterDelete(p);
      RepairedIs(s, shape, p, i, n, left, right, (order + 1) / 2);
    }

    /** `btree_merge_nodes`, and the removal of the separator from the parent. */
    method Merge(p: Node, j: nat, left: Node, right: Node, ghost n: Node)
      requires Valid() && Siblings(shape, p, j, left, right) && (n == left || n == right)
      requires FillOf(shape, left) + FillOf(shape, right) + 1 <= order
      modifies Repr()
      ensures NodesOf(shape) == old(NodesOf(shape)) - {right}
      ensures KeysOf(shape, left) == old(KeysOf(shape, left)) +
        (if old(LeafIn(shape, left)) then [] else [old(KeysOf(shape, p))[j]]) + old(KeysOf(shape, right))
      ensures leafNodes == old(leafNodes) - if old(LeafIn(shape, left)) then 1 else 0
      ensures Valid() && MapOf(shape) == old(MapOf(shape)) && Repr() <= old(Repr())
      ensures height == old(height) && p in NodesOf(shape) && RankOf(shape, p) == old(RankOf(shape, p))
      ensures SameAbove(old(shape), shape, p) && FillOf(shape, p) == old(FillOf(shape, p)) - 1
      ensures old(FilledBut(shape, order, n)) ==> FilledBut(shape, order, p)
    {
      hide Pos, Inv, PicturesShape, Footprint, TallyOk, NodesOf, MapOf, Siblings, FilledBut, FillOf, RankOf, LeafIn;
      hide InnerIn, SameAbove;
      SiblingsIn(shape, p, j, left, right);
      NodeFacts(shape, left, order);
      KindsApart(shape, left);
      if left.isLeaf {
        MergeLeaves(p, j, left, right, n);
      } else {
        MergeInners(p, j, left, right, n);
      }
    }

    method RemoveFromLeaf(n: Node, k: Bytes) returns (st: Status)
      requires Valid() && LeafIn(shape, n) && CoversIn(shape, n, k)
      modifies Repr()
      ensures Valid() && Repr() <= old(Repr())
      ensures st == ErrNotFound <==> k !in old(MapOf(shape))
      ensures st == Ok || st == ErrNotFound || st == ErrNotSupported
      ensures MapOf(shape) == old(MapOf(shape)) - {k}
      ensures leafNodes == old(leafNodes) -
        if old(MergesLeaf(shape, k, (order + 1) / 2 - 1, (order + 1) / 2)) then 1 else 0
      ensures st == ErrNotSupported <==> old(GivesUp(shape, order, k))
      ensures old(Filled(shape, order)) ==> (Filled(shape, order) <==> st != ErrNotSupported)
      ensures old(HasSpare(shape, k, order)) ==> SepsOf(shape) == old(SepsOf(shape))
    {
      hide Pos, Inv, PicturesShape, Footprint, TallyOk, NodesOf, MapOf, FilledBut, Filled, CoversIn, EntryDropped;
      hide GivesUp, Stuck, SameAbove, SepsOf, MergesAt, MergesLeaf;
      ghost var s := shape;
      LeafFacts(s, n, order);
      var index := FindInLeaf(s, n, k, order);
      if index < 0 {
        assert MapOf(shape) - {k} == MapOf(shape);
        KeepsAbsent(s, order, k);
        MergesLeafAt(s, k, n, (order + 1) / 2 - 1, (order + 1) / 2);
        return ErrNotFound;
      }
      UnlinkEntry(s, n, index, k, order);
      DropEntryStep(s, n, index, k, Count(), order);
      DroppedAbove(s, n, index, k);
      DroppedSeps(s, n, index, k);
      DroppedMerges(s, n, index, k, FillOf(s, n) - 1, (order + 1) / 2 - 1, (order + 1) / 2);
      MergesLeafAt(s, k, n, (order + 1) / 2 - 1, (order + 1) / 2);
      GivesUpAt(s, order, k, n);
      StuckThere(s, EntryDropped(s, n, index, k), n, FillOf(s, n) - 1, order);
      ghost var s' := EntryDropped(s, n, index, k);
      NotMine(NodesOf(s'), this);
      totalKeys := totalKeys - 1;
      shape := s';
      LeafStays(s, n);
      st := FixAfterDelete(n);
    }

    method DeleteRecursive(n: Node, k: Bytes) returns (st: Status)
      requires Valid() && n in NodesOf(shape) && CoversIn(shape, n, k)
      modifies Repr()
      ensures Valid() && Repr() <= old(Repr())
      ensures st == ErrNotFound <==> k !in old(MapOf(shape))
      ensures st == Ok || st == ErrNotFound || st == ErrNotSupported
      ensures MapOf(shape) == old(MapOf(shape)) - {k}
      ensures leafNodes == old(leafNodes) -
        if old(MergesLeaf(shape, k, (order + 1) / 2 - 1, (order + 1) / 2)) then 1 else 0
      ensures st == ErrNotSupported <==> old(GivesUp(shape, order, k))
      ensures old(Filled(shape, order)) ==> (Filled(shape, order) <==> st != ErrNotSupported)
      ensures old(HasSpare(shape, k, order)) ==> SepsOf(shape) == old(SepsOf(shape))
      decreases RankOf(shape, n)
    {
      hide Pos, Inv, PicturesShape, Footprint, TallyOk, NodesOf, MapOf, Filled, LeafIn, InnerIn, CoversIn, RankOf;
      hide GivesUp, SepsOf, HasSpare, MergesLeaf;
      KindSeen(shape, n, order);
      if n.isLeaf {
        st := RemoveFromLeaf(n, k);
      } else {
        var c := ChildByKey(shape, n, k, order);
        st := DeleteRecursive(c, k);
      }
    }

    /** `btree_delete_complete`: exactly `k` leaves the map, also when the repair gives up half-way. */
    method Delete(k: Bytes) returns (st: Status)
      requires Valid()
      modifies Repr()
      ensures Valid() && Repr() <= old(Repr())
      ensures st == ErrNotFound <==> k !in old(MapOf(shape))
      ensures st == Ok || st == ErrNotFound || st == ErrNotSupported
      ensures MapOf(shape) == old(MapOf(shape)) - {k}
      ensures leafNodes == old(leafNodes) -
        if old(MergesLeaf(shape, k, (order + 1) / 2 - 1, (order + 1) / 2)) then 1 else 0
      ensures st == ErrNotSupported <==> old(GivesUp(shape, order, k))
      ensures old(Filled(shape, order)) ==> (Filled(shape, order) <==> st != ErrNotSupported)
      ensures old(AtLeast(shape, (order + 1) / 2 - 1)) ==>
        (AtLeast(shape, (order + 1) / 2 - 1) <==> st != ErrNotSupported)
      ensures old(HasSpare(shape, k, order)) ==> SepsOf(shape) == old(SepsOf(shape))
    {
      hide Pos, Inv, PicturesShape, Footprint, NodesOf, MapOf, Filled, CoversIn, GivesUp, SepsOf, HasSpare;
      hide MergesLeaf, AtLeast;
      RootCovers(shape, k);
      FilledIs(shape, order);
      st := DeleteRecursive(root, k);
      FilledIs(shape, order);
    }
  }

  /** `btree_create`: an order out of bounds gives no tree. */
  method CreateTree(order: int) returns (t: BTree?)
    ensures t == null <==> order < 3 || order > 1000
    ensures t != null ==> fresh(t) && fresh(t.Repr()) && t.Valid() && t.order == order
    ensures t != null ==> MapOf(t.shape) == map[] && Filled(t.shape, order)
  {
    hide Inv, PicturesShape, Footprint, NodesOf, MapOf, Filled, TallyOk;
    if order < MIN_ORDER || order > MAX_ORDER {
      return null;
    }
    t := new BTree(order);
  }
}
