/**
  What an insertion or a deletion meets on its way up from a leaf, read off the tree before the call:
  whether the repair of a deletion gives up, and which separators an insertion moves where.
 */
module BTreeClimb {
  import opened Bytes
  import opened BTreeNodes
  import opened BTreeShape
  import opened BTreeSteps

  // ----- what an edit leaves alone

  ghost predicate SameNode(a: Rec, b: Rec) {
    a.leaf == b.leaf && a.rank == b.rank && a.parent == b.parent && a.keys == b.keys && a.kids == b.kids
  }

  /** From the level of `x` up, only the keys and children of `x` itself may differ. */
  ghost predicate SameAbove(s: Shape, s': Shape, x: Node) {
    && s'.root == s.root && s.root in s.g && x in s.g && x in s'.g
    && s'.g[x].parent == s.g[x].parent && s'.g[x].rank == s.g[x].rank && s'.g[x].leaf == s.g[x].leaf
    && forall y {:trigger s'.g[y]} {:trigger y in s'.g} :: y in s.g && y != x && s.g[y].rank >= s.g[x].rank ==>
         y in s'.g && SameNode(s.g[y], s'.g[y])
  }

  /** Leaves apart from `n` keep their keys, and inner nodes stay as they are. */
  lemma LeafEditAbove(s: Shape, s': Shape, n: Node)
    requires s'.root == s.root && s.root in s.g && n in s.g && n in s'.g
    requires SameNode(s.g[n].(keys := []), s'.g[n].(keys := []))
    requires forall y :: y in s.g && y != n ==> y in s'.g && SameNode(s.g[y], s'.g[y])
    ensures SameAbove(s, s', n)
  {}

  lemma DroppedAbove(s: Shape, n: Node, i: nat, k: Bytes)
    requires Inv(s) && FoundAt(s, n, i, k)
    ensures SameAbove(s, EntryDropped(s, n, i, k), n)
    ensures FillOf(EntryDropped(s, n, i, k), n) == FillOf(s, n) - 1
  {
    hide Pos, Sorted, Chain, Holds, Hangs, NodesOk;
    LeafEditAbove(s, EntryDropped(s, n, i, k), n);
  }

  lemma LeafOverflowAbove(s: Shape, n: Node, i: nat, k: Bytes, v: Value, r: Node, j: nat, order: nat)
    requires MIN_ORDER <= order && Inv(s) && Fits(s, n, i, k) && r !in NodesOf(s) && FillOf(s, n) == order
    requires j < |s.leaves| && s.leaves[j] == n
    ensures SameAbove(s, LeafOverflowed(s, n, i, k, v, r, j, order), n)
  {
    hide Pos, Sorted, Chain, Holds, Hangs, NodesOk, Insert;
    InsertIndex(s.g[n].keys, i, k, Insert(s.g[n].keys, i, k));
    InsertIndex(s.g[n].vals, i, v, Insert(s.g[n].vals, i, v));
    AddEntry(s, n, i, k, v);
    LeafCutFacts(EntryAdded(s, n, i, k, v), n, r, LeafPoint(order), j);
    LeafEditAbove(s, LeafOverflowed(s, n, i, k, v, r, j, order), n);
  }

  lemma LeavesMergedAbove(s: Shape, p: Node, j: nat, left: Node, right: Node, a: nat)
    requires Inv(s) && Siblings(s, p, j, left, right) && s.g[left].leaf
    requires a + 1 < |s.leaves| && s.leaves[a] == left && s.leaves[a + 1] == right
    requires s.g[right].next != left && s.g[right].next != right && s.g[right].next != p
    ensures var s' := LeavesMerged(s, p, j, left, right, a);
      SameAbove(s, s', p) && FillOf(s', p) == FillOf(s, p) - 1
  {
    hide Pos, Inv, NodeOk, Remove, FusedLeaf;
    SiblingFacts(s, p, j, left, right);
    LeavesMergedShape(s, p, j, left, right, a);
    RootIn(s);
    var s' := LeavesMerged(s, p, j, left, right, a);
    forall y | y in s.g && y != p && s.g[y].rank >= s.g[p].rank ensures y in s'.g && SameNode(s.g[y], s'.g[y]) {
      assert y != left && y != right;
    }
  }

  lemma RootIn(s: Shape)
    requires Inv(s)
    ensures s.root in s.g && forall x :: x in s.g ==> s.g[x].rank <= s.g[s.root].rank
  {
    hide Pos, Sorted, Chain, Holds, Hangs, NodesOk;
  }

  lemma InnersMergedAbove(s: Shape, p: Node, j: nat, left: Node, right: Node)
    requires Inv(s) && Siblings(s, p, j, left, right) && !s.g[left].leaf
    ensures var s' := InnersMerged(s, p, j, left, right);
      SameAbove(s, s', p) && FillOf(s', p) == FillOf(s, p) - 1
  {
    hide Pos, Inv, NodeOk, Remove, FusedInner;
    SiblingFacts(s, p, j, left, right);
    InnersMergedShape(s, p, j, left, right);
    RootIn(s);
    KidsLower(s, right);
    var s' := InnersMerged(s, p, j, left, right);
    forall y | y in s.g && y != p && s.g[y].rank >= s.g[p].rank ensures y in s'.g && SameNode(s.g[y], s'.g[y]) {
      assert y != left && y != right && y !in s.g[right].kids;
    }
    assert p !in s.g[right].kids;
  }

  lemma KidsLower(s: Shape, n: Node)
    requires Inv(s) && n in s.g
    ensures forall c :: c in s.g && c in s.g[n].kids ==> s.g[c].rank < s.g[n].rank
  {
    hide Pos, Sorted, Chain, Holds, Hangs, RootOk;
    assert NodeOk(s.g, n);
    ChildrenLower(s.g, n);
  }

  // ----- when the repair of a deletion gives up

  ghost function FillAt(s: Shape, p: Node, i: nat): nat
    requires p in s.g && i < |s.g[p].kids|
  {
    var c := s.g[p].kids[i]; if c in s.g then |s.g[c].keys| else 0
  }

  /** A neighbour of slot `i` has more keys than half the order, so that the code borrows from it. */
  ghost predicate Lends(s: Shape, p: Node, i: nat, order: nat)
    requires p in s.g && i < |s.g[p].kids| == |s.g[p].keys| + 1
  {
    || (i > 0 && FillAt(s, p, i - 1) > (order + 1) / 2)
    || (i < |s.g[p].keys| && FillAt(s, p, i + 1) > (order + 1) / 2)
  }

  ghost predicate HasLender(s: Shape, n: Node, order: nat) {
    && n in s.g && s.g[n].parent in s.g
    && exists i: nat :: IsSlot(s, s.g[n].parent, i, n) && Lends(s, s.g[n].parent, i, order)
  }

  /**
    With `fill` keys left in `n`, the repair ends at an inner node that would have to borrow: `n` is
    underfull and either such a node itself, or merges, which leaves its parent in that position.
   */
  ghost predicate Stuck(s: Shape, n: Node, fill: int, order: nat)
    decreases if n in s.g && s.root in s.g && s.g[n].rank <= s.g[s.root].rank then s.g[s.root].rank - s.g[n].rank else 0
  {
    && s.root in s.g && n in s.g && n != s.root && fill < (order + 1) / 2 - 1
    && s.g[n].parent in s.g && s.g[s.g[n].parent].rank == s.g[n].rank + 1 <= s.g[s.root].rank
    && (if HasLender(s, n, order) then !s.g[n].leaf
        else Stuck(s, s.g[n].parent, if FillOf(s, s.g[n].parent) > 0 then FillOf(s, s.g[n].parent) - 1 else 0, order))
  }

  /** Whether deleting `k` ends with the status "not supported", told from the tree before. */
  ghost predicate GivesUp(s: Shape, order: nat, k: Bytes) {
    && s.root in s.g && k in MapOf(s)
    && exists n :: n in s.g && LeafIn(s, n) && CoversIn(s, n, k) && Stuck(s, n, FillOf(s, n) - 1, order)
  }

  lemma GivesUpAt(s: Shape, order: nat, k: Bytes, n: Node)
    requires Inv(s) && LeafIn(s, n) && CoversIn(s, n, k) && k in MapOf(s)
    ensures s.root in s.g && (GivesUp(s, order, k) <==> Stuck(s, n, FillOf(s, n) - 1, order))
  {
    hide Pos, Sorted, Chain, Holds, Hangs, NodesOk, Stuck;
    forall x | LeafIn(s, x) && CoversIn(s, x, k) ensures x == n {
      LeavesApart(s, x, n, k);
    }
  }

  /** The slot of a node is the only one. */
  lemma OneSlot(s: Shape, p: Node, i: nat, j: nat, n: Node)
    requires Inv(s) && IsSlot(s, p, i, n) && IsSlot(s, p, j, n)
    ensures i == j
  {
    hide Pos, Sorted, Chain, Holds, Hangs, RootOk;
    assert NodeOk(s.g, p);
    if i < j { KidsDistinct(s.g, p, i, j); }
    if j < i { KidsDistinct(s.g, p, j, i); }
  }

  lemma LenderAt(s: Shape, p: Node, i: nat, n: Node, order: nat)
    requires Inv(s) && IsParent(s, n, p) && IsSlot(s, p, i, n)
    ensures HasLender(s, n, order) <==> Lends(s, p, i, order)
  {
    hide Pos, Inv, Lends;
    forall j: nat | IsSlot(s, p, j, n) ensures j == i {
      OneSlot(s, p, i, j, n);
    }
  }

  /** Neighbours of a node lie on its level and are other nodes. */
  lemma NeighbourFacts(s: Shape, p: Node, i: nat, n: Node, j: nat)
    requires Inv(s) && IsSlot(s, p, i, n) && j <= |s.g[p].keys| && j != i && n in s.g
    ensures var c := s.g[p].kids[j]; c in s.g && c != n && s.g[c].rank == s.g[n].rank
  {
    hide Pos, Sorted, Chain, Holds, Hangs, RootOk;
    assert NodeOk(s.g, p);
    assert ChildOk(s.g, p, i) && ChildOk(s.g, p, j);
    if i < j { KidsDistinct(s.g, p, i, j); } else { KidsDistinct(s.g, p, j, i); }
  }

  lemma LenderSame(s: Shape, s': Shape, x: Node, n: Node, order: nat)
    requires Inv(s) && SameAbove(s, s', x) && n in s.g && n in s'.g && s.g[n].rank >= s.g[x].rank
    requires n == x || s.g[n].rank > s.g[x].rank
    requires s.g[n].parent in s.g && s.g[s.g[n].parent].rank == s.g[n].rank + 1
    ensures HasLender(s', n, order) <==> HasLender(s, n, order)
  {
    hide Pos, Inv;
    var p := s.g[n].parent;
    assert p in s'.g && SameNode(s.g[p], s'.g[p]);
    forall i: nat | IsSlot(s, p, i, n) ensures Lends(s', p, i, order) <==> Lends(s, p, i, order) {
      if i > 0 {
        NeighbourFacts(s, p, i, n, i - 1);
        assert s.g[p].kids[i - 1] in s'.g;
      }
      if i < |s.g[p].keys| {
        NeighbourFacts(s, p, i, n, i + 1);
        assert s.g[p].kids[i + 1] in s'.g;
      }
    }
    forall i: nat ensures IsSlot(s, p, i, n) <==> IsSlot(s', p, i, n) {}
  }

  /** What lies above decides, so an edit below or in `x` does not matter. */
  lemma {:induction false} StuckSame(s: Shape, s': Shape, x: Node, n: Node, fill: int, order: nat)
    requires Inv(s) && SameAbove(s, s', x) && n in s.g && n in s'.g && s.g[n].rank >= s.g[x].rank
    requires n == x || s.g[n].rank > s.g[x].rank
    ensures s.root in s.g && s'.root in s'.g && (Stuck(s', n, fill, order) <==> Stuck(s, n, fill, order))
    decreases if s.root in s.g && s.g[n].rank <= s.g[s.root].rank then s.g[s.root].rank - s.g[n].rank else 0
  {
    hide Pos, Inv, HasLender;
    RootIn(s);
    RootStays(s, s', x);
    var p := s.g[n].parent;
    assert s'.g[n].parent == p && s'.g[n].rank == s.g[n].rank;
    if n != s.root && p in s.g && s.g[p].rank == s.g[n].rank + 1 <= s.g[s.root].rank {
      assert p in s'.g && SameNode(s.g[p], s'.g[p]);
      LenderSame(s, s', x, n, order);
      StuckSame(s, s', x, p, if FillOf(s, p) > 0 then FillOf(s, p) - 1 else 0, order);
    } else if n != s.root {
      ParentAbove(s, n);
    }
  }

  lemma RootStays(s: Shape, s': Shape, x: Node)
    requires Inv(s) && SameAbove(s, s', x)
    ensures s'.root in s'.g && s'.g[s'.root].rank == s.g[s.root].rank
  {
    hide Pos, Sorted, Chain, Holds, Hangs, NodesOk;
    assert s.g[s.root].rank >= s.g[x].rank;
    assert s.root != x ==> s.root in s'.g;
  }

  lemma ParentAbove(s: Shape, n: Node)
    requires Inv(s) && n in s.g && n != s.root
    ensures s.g[n].parent in s.g && s.g[s.g[n].parent].rank == s.g[n].rank + 1 <= s.g[s.root].rank
  {
    hide Pos, Sorted, Chain, Holds;
    assert Hangs(s.g, n);
    assert NodeOk(s.g, s.g[n].parent);
    var i := SlotOf(s.g, n);
  }

  lemma NotStuck(s: Shape, n: Node, fill: int, order: nat)
    ensures n == s.root || fill >= MinFill(order) ==> !Stuck(s, n, fill, order)
  {}

  /** What the repair meets at an underfull node in slot `i` of `p`. */
  lemma StuckHere(s: Shape, p: Node, i: nat, n: Node, fill: int, order: nat)
    requires Inv(s) && n in NodesOf(s) && n != s.root && IsSlot(s, p, i, n) && fill < MinFill(order)
    ensures
      if Lends(s, p, i, order) then (Stuck(s, n, fill, order) <==> InnerIn(s, n)) && (LeafIn(s, n) <==> !InnerIn(s, n))
      else Stuck(s, n, fill, order) <==> Stuck(s, p, if FillOf(s, p) > 0 then FillOf(s, p) - 1 else 0, order)
  {
    hide Pos, Inv, HasLender, Lends;
    SlotIsParent(s, p, i, n);
    ParentAbove(s, n);
    RootIn(s);
    LenderAt(s, p, i, n, order);
  }

  lemma SlotIsParent(s: Shape, p: Node, i: nat, n: Node)
    requires Inv(s) && IsSlot(s, p, i, n)
    ensures IsParent(s, n, p)
  {
    hide Pos, Sorted, Chain, Holds, Hangs, RootOk;
    assert NodeOk(s.g, p);
    assert ChildOk(s.g, p, i);
  }

  lemma LendsIs(s: Shape, p: Node, i: nat, n: Node, left: Node?, right: Node?, order: nat)
    requires IsSlot(s, p, i, n)
    requires i > 0 ==> left != null && Siblings(s, p, i - 1, left, n)
    requires i < FillOf(s, p) ==> right != null && Siblings(s, p, i, n, right)
    ensures p in s.g && i < |s.g[p].kids| == |s.g[p].keys| + 1
    ensures Lends(s, p, i, order) <==>
      || (i > 0 && FillOf(s, left) > (order + 1) / 2)
      || (i < FillOf(s, p) && FillOf(s, right) > (order + 1) / 2)
  {}

  lemma StuckThere(s: Shape, s': Shape, x: Node, fill: int, order: nat)
    requires Inv(s) && SameAbove(s, s', x)
    ensures Stuck(s', x, fill, order) <==> Stuck(s, x, fill, order)
  {
    hide Pos, Inv, Stuck;
    StuckSame(s, s', x, x, fill, order);
  }

  lemma SameAboveRefl(s: Shape, x: Node)
    requires Inv(s) && x in NodesOf(s)
    ensures SameAbove(s, s, x)
  {
    hide Pos, Sorted, Chain, Holds, Hangs, NodesOk;
  }

  lemma KeepsAbsent(s: Shape, order: nat, k: Bytes)
    requires k !in MapOf(s)
    ensures !GivesUp(s, order, k)
  {}

  // ----- the numbers behind the repair

  /** Nodes other than the root have at least `least` keys, and an inner root has one. */
  ghost predicate AtLeast(s: Shape, least: int) {
    && s.root in s.g
    && (forall n :: n in s.g && n != s.root ==> |s.g[n].keys| >= least)
    && (!s.g[s.root].leaf ==> |s.g[s.root].keys| >= 1)
  }

  lemma FilledIs(s: Shape, order: nat)
    ensures Filled(s, order) <==> AtLeast(s, (order + 1) / 2 - 1)
  {}

  /** Slot `i` of `p` has a neighbour, and none with more than `spare` keys. */
  ghost predicate NoneSpares(s: Shape, p: Node, i: nat, spare: int)
    requires p in s.g && i < |s.g[p].kids| == |s.g[p].keys| + 1
  {
    && |s.g[p].keys| > 0
    && (i > 0 ==> FillAt(s, p, i - 1) <= spare)
    && (i < |s.g[p].keys| ==> FillAt(s, p, i + 1) <= spare)
  }

  /** A leaf left with `fill` keys, fewer than `least`, is merged with a neighbour: none of them has keys to spare. */
  ghost predicate MergesAt(s: Shape, n: Node, fill: int, least: int, spare: int) {
    && n in s.g && s.g[n].leaf && n != s.root && fill < least
    && exists p, i: nat :: p in s.g && IsSlot(s, p, i, n) && NoneSpares(s, p, i, spare)
  }

  ghost function KeysOf(s: Shape, n: Node): seq<Bytes> {
    if n in s.g then s.g[n].keys else []
  }

  /** The last key of `left` has moved to the front of `n` and into the separator between them. */
  ghost predicate LentByLeft(s: Shape, s': Shape, p: Node, j: nat, left: Node, n: Node) {
    var ks := KeysOf(s, left);
    && |ks| > 0 && j < |KeysOf(s, p)|
    && KeysOf(s', left) == ks[..|ks| - 1] && KeysOf(s', n) == [ks[|ks| - 1]] + KeysOf(s, n)
    && KeysOf(s', p) == KeysOf(s, p)[j := ks[|ks| - 1]]
  }

  /** The first key of `right` has moved to the end of `n`, and the next one into the separator. */
  ghost predicate LentByRight(s: Shape, s': Shape, p: Node, j: nat, n: Node, right: Node) {
    var ks := KeysOf(s, right);
    && |ks| > 1 && j < |KeysOf(s, p)|
    && KeysOf(s', right) == ks[1..] && KeysOf(s', n) == KeysOf(s, n) + [ks[0]]
    && KeysOf(s', p) == KeysOf(s, p)[j := ks[1]]
  }

  /**
    What a leaf `n` at slot `i` of `p` gets that lacks keys: one of its left neighbour if that has more
    than `spare`, else one of the right neighbour if that has, else it is poured into the left
    neighbour, or takes the right one in if there is none on the left.
   */
  ghost predicate Repaired(s: Shape, s': Shape, p: Node, i: nat, n: Node, spare: int)
    requires IsSlot(s, p, i, n)
  {
    var kids := s.g[p].kids;
    if i > 0 && kids[i - 1] != null && FillOf(s, kids[i - 1]) > spare then LentByLeft(s, s', p, i - 1, kids[i - 1], n)
    else if i < FillOf(s, p) && kids[i + 1] != null && FillOf(s, kids[i + 1]) > spare then
      LentByRight(s, s', p, i, n, kids[i + 1])
    else if i > 0 then n !in s'.g
    else if i < FillOf(s, p) then kids[i + 1] !in s'.g
    else true
  }

  ghost predicate Mended(s: Shape, s': Shape, n: Node, spare: int) {
    forall p, i: nat :: p in s.g && IsSlot(s, p, i, n) ==> Repaired(s, s', p, i, n, spare)
  }

  lemma MendedAt(s: Shape, s': Shape, p: Node, i: nat, n: Node, spare: int)
    requires Inv(s) && IsSlot(s, p, i, n) && Repaired(s, s', p, i, n, spare)
    ensures Mended(s, s', n, spare)
  {
    hide Pos, Inv, Repaired;
    SlotIsParent(s, p, i, n);
    forall q: Node, j: nat | IsSlot(s, q, j, n) ensures q == p && j == i {
      SlotIsParent(s, q, j, n);
      OneSlot(s, p, i, j, n);
    }
  }

  lemma RootHasNoSlot(s: Shape, s': Shape, n: Node, spare: int)
    requires Inv(s) && n in NodesOf(s) && s.g[n].parent == null
    ensures Mended(s, s', n, spare)
  {
    hide Pos, Inv;
    forall q: Node, j: nat | IsSlot(s, q, j, n) ensures false {
      SlotIsParent(s, q, j, n);
    }
  }

  lemma RepairedIs(s: Shape, s': Shape, p: Node, i: nat, n: Node, left: Node?, right: Node?, spare: int)
    requires IsSlot(s, p, i, n) && (left == null <==> i == 0) && (right == null <==> i >= FillOf(s, p))
    requires left != null ==> Siblings(s, p, i - 1, left, n)
    requires right != null ==> Siblings(s, p, i, n, right)
    ensures Repaired(s, s', p, i, n, spare) <==>
      if left != null && FillOf(s, left) > spare then LentByLeft(s, s', p, i - 1, left, n)
      else if right != null && FillOf(s, right) > spare then LentByRight(s, s', p, i, n, right)
      else if left != null then n !in NodesOf(s')
      else right != null ==> right !in NodesOf(s')
  {
    hide LentByLeft, LentByRight;
  }

  lemma LeavesPoured(s: Shape, p: Node, j: nat, left: Node, right: Node, a: nat)
    requires Siblings(s, p, j, left, right) && a + 1 < |s.leaves|
    requires s.g[right].next != left && s.g[right].next != right && s.g[right].next != p
    ensures var s' := LeavesMerged(s, p, j, left, right, a);
      KeysOf(s', left) == KeysOf(s, left) + KeysOf(s, right)
  {
    hide Pos;
  }

  lemma InnersPoured(s: Shape, p: Node, j: nat, left: Node, right: Node)
    requires Inv(s) && Siblings(s, p, j, left, right) && !s.g[left].leaf
    ensures j < |KeysOf(s, p)|
    ensures var s' := InnersMerged(s, p, j, left, right);
      KeysOf(s', left) == KeysOf(s, left) + [KeysOf(s, p)[j]] + KeysOf(s, right)
  {
    hide Pos, Inv;
  }

  lemma LeftLends(s: Shape, p: Node, j: nat, left: Node, n: Node)
    requires Siblings(s, p, j, left, n) && |s.g[left].keys| == |s.g[left].vals| && |s.g[n].keys| == |s.g[n].vals|
    requires |s.g[left].keys| > 0
    ensures LentByLeft(s, Redealt(s, p, j, left, n, |s.g[left].keys| - 1), p, j, left, n)
  {
    hide Pos;
    var ks, ls := s.g[left].keys, s.g[n].keys;
    var i := |ks| - 1;
    assert (ks + ls)[..i] == ks[..i] && (ks + ls)[i..] == [ks[i]] + ls && (ks + ls)[i] == ks[i];
  }

  lemma RightLends(s: Shape, p: Node, j: nat, n: Node, right: Node)
    requires Siblings(s, p, j, n, right) && |s.g[n].keys| == |s.g[n].vals| && |s.g[right].keys| == |s.g[right].vals|
    requires |s.g[right].keys| > 1
    ensures LentByRight(s, Redealt(s, p, j, n, right, |s.g[n].keys| + 1), p, j, n, right)
  {
    hide Pos;
    var ks, ls := s.g[n].keys, s.g[right].keys;
    var i := |ks| + 1;
    assert (ks + ls)[..i] == ks + [ls[0]] && (ks + ls)[i..] == ls[1..] && (ks + ls)[i] == ls[1];
  }

  /** The leaf where `k` belongs is merged when `k` leaves it. */
  ghost predicate MergesLeaf(s: Shape, k: Bytes, least: int, spare: int) {
    && k in MapOf(s)
    && exists n :: n in s.g && LeafIn(s, n) && CoversIn(s, n, k) && MergesAt(s, n, FillOf(s, n) - 1, least, spare)
  }

  lemma MergesHere(s: Shape, p: Node, i: nat, n: Node, fill: int, order: nat)
    requires Inv(s) && n in NodesOf(s) && n != s.root && IsSlot(s, p, i, n)
    ensures MergesAt(s, n, fill, (order + 1) / 2 - 1, (order + 1) / 2) <==>
      LeafIn(s, n) && fill < (order + 1) / 2 - 1 && FillOf(s, p) > 0 && !Lends(s, p, i, order)
  {
    hide Pos, Inv;
    SlotIsParent(s, p, i, n);
    forall q: Node, j: nat | IsSlot(s, q, j, n) ensures q == p && j == i {
      SlotIsParent(s, q, j, n);
      OneSlot(s, p, i, j, n);
    }
  }

  lemma InnerNeverMerges(s: Shape, s': Shape, p: Node, fill: int, least: int, spare: int)
    requires SameAbove(s, s', p) && InnerIn(s, p)
    ensures !MergesAt(s', p, fill, least, spare)
  {}

  lemma RootNeverMerges(s: Shape, n: Node, fill: int, least: int, spare: int)
    ensures n == s.root || fill >= least ==> !MergesAt(s, n, fill, least, spare)
  {}

  lemma DroppedMerges(s: Shape, n: Node, i: nat, k: Bytes, fill: int, least: int, spare: int)
    requires Inv(s) && FoundAt(s, n, i, k)
    ensures MergesAt(EntryDropped(s, n, i, k), n, fill, least, spare) <==> MergesAt(s, n, fill, least, spare)
  {
    hide Pos, Inv, Remove;
    var s' := EntryDropped(s, n, i, k);
    forall p: Node, j: nat | IsSlot(s, p, j, n) || IsSlot(s', p, j, n)
      ensures IsSlot(s, p, j, n) && IsSlot(s', p, j, n) && (NoneSpares(s', p, j, spare) <==> NoneSpares(s, p, j, spare))
    {
      assert p != n && s'.g[p] == s.g[p];
      if j > 0 { NeighbourFacts(s, p, j, n, j - 1); }
      if j < |s.g[p].keys| { NeighbourFacts(s, p, j, n, j + 1); }
    }
  }

  lemma MergesLeafAt(s: Shape, k: Bytes, n: Node, least: int, spare: int)
    requires Inv(s) && LeafIn(s, n) && CoversIn(s, n, k)
    ensures MergesLeaf(s, k, least, spare) <==> k in MapOf(s) && MergesAt(s, n, FillOf(s, n) - 1, least, spare)
  {
    hide Pos, Sorted, Holds, Hangs, NodesOk, RootOk, MergesAt;
    forall x | LeafIn(s, x) && CoversIn(s, x, k) ensures x == n {
      LeavesApart(s, x, n, k);
    }
  }

  /** How a full leaf and a full inner node are halved. */
  lemma LeafHalves(s: Shape, n: Node, i: nat, k: Bytes, v: Value, r: Node, j: nat, order: nat)
    requires MIN_ORDER <= order && Inv(s) && Fits(s, n, i, k) && r !in NodesOf(s) && FillOf(s, n) == order
    requires j < |s.leaves| && s.leaves[j] == n
    ensures var s' := LeafOverflowed(s, n, i, k, v, r, j, order);
      FillOf(s', n) == (order + 1) / 2 && FillOf(s', r) == order + 1 - (order + 1) / 2
  {
    hide Pos, Inv, Insert;
    InsertIndex(s.g[n].keys, i, k, Insert(s.g[n].keys, i, k));
    InsertIndex(s.g[n].vals, i, v, Insert(s.g[n].vals, i, v));
    AddEntry(s, n, i, k, v);
    LeafCutFacts(EntryAdded(s, n, i, k, v), n, r, LeafPoint(order), j);
  }

  lemma InnerHalves(s: Shape, left: Node, right: Node, p: Node, sep: Bytes, i: nat, r: Node, order: nat)
    requires MIN_ORDER <= order && Waits(s, left, right, p, sep, i) && r !in NodesOf(s) && FillOf(s, p) == order
    ensures var s' := Overflowed(s, right, p, sep, i, r, order);
      FillOf(s', p) == order / 2 && FillOf(s', r) == order - order / 2
  {
    hide Pos, Inv, Pending, InnerOk, Insert, Adopt;
    PendingFacts(s, left, right);
    InsertIndex(s.g[p].keys, i, sep, Insert(s.g[p].keys, i, sep));
    InsertIndex(s.g[p].kids, i + 1, right, Insert(s.g[p].kids, i + 1, right));
  }

  lemma KindsApart(s: Shape, n: Node)
    ensures !(LeafIn(s, n) && InnerIn(s, n))
  {}

  /** The leaf where `k` belongs has exactly `count` keys. */
  ghost predicate LeafCounts(s: Shape, k: Bytes, count: nat) {
    exists n :: n in s.g && LeafIn(s, n) && CoversIn(s, n, k) && FillOf(s, n) == count
  }

  lemma LeafCountsAt(s: Shape, k: Bytes, n: Node, count: nat)
    requires Inv(s) && LeafIn(s, n) && CoversIn(s, n, k)
    ensures LeafCounts(s, k, count) <==> FillOf(s, n) == count
  {
    hide Pos, Sorted, Holds, Hangs, NodesOk, RootOk, FillOf;
    forall x | LeafIn(s, x) && CoversIn(s, x, k) ensures x == n {
      LeavesApart(s, x, n, k);
    }
  }

  // ----- separators and the levels they stand on

  /** The separators of the inner nodes, each with the rank of its node. */
  ghost function SepsOf(s: Shape): set<(Bytes, nat)> {
    set n, k | n in s.g && !s.g[n].leaf && k in s.g[n].keys :: (k, s.g[n].rank)
  }

  lemma SepIn(s: Shape, n: Node, k: Bytes)
    requires n in s.g && !s.g[n].leaf && k in s.g[n].keys
    ensures (k, s.g[n].rank) in SepsOf(s)
  {}

  /** Nodes on the same level have ranges that do not overlap. */
  lemma {:induction false} LevelsApart(s: Shape, a: Node, b: Node)
    requires Inv(s) && a in s.g && b in s.g && a != b && s.g[a].rank == s.g[b].rank
    ensures s.g[a].hi <= s.g[b].lo || s.g[b].hi <= s.g[a].lo
    decreases if s.root in s.g && s.g[a].rank <= s.g[s.root].rank then s.g[s.root].rank - s.g[a].rank else 0
  {
    hide Pos, Inv;
    RootIn(s);
    if a != s.root { ParentAbove(s, a); }
    if b != s.root { ParentAbove(s, b); }
    var p, q := s.g[a].parent, s.g[b].parent;
    var i := SlotRange(s, a);
    var j := SlotRange(s, b);
    if p == q {
      SlotsApart(s, p, i, j);
    } else {
      LevelsApart(s, p, q);
    }
  }

  /** The slot of a node gives its range, which lies within that of its parent. */
  lemma SlotRange(s: Shape, n: Node) returns (i: nat)
    requires Inv(s) && n in s.g && n != s.root
    ensures var p := s.g[n].parent;
      && p in s.g && !s.g[p].leaf && IsSlot(s, p, i, n)
      && s.g[n].lo == s.g[p].Lower(i) && s.g[n].hi == s.g[p].Upper(i)
      && s.g[p].lo <= s.g[n].lo && s.g[n].hi <= s.g[p].hi
  {
    hide Pos, Sorted, Chain, Holds, RootOk;
    assert Hangs(s.g, n);
    assert NodeOk(s.g, s.g[n].parent);
    i := SlotOf(s.g, n);
  }

  lemma SlotsApart(s: Shape, p: Node, i: nat, j: nat)
    requires Inv(s) && p in s.g && !s.g[p].leaf && i <= |s.g[p].keys| && j <= |s.g[p].keys|
    requires |s.g[p].kids| == |s.g[p].keys| + 1
    requires s.g[p].kids[i] != s.g[p].kids[j]
    ensures s.g[p].Upper(i) <= s.g[p].Lower(j) || s.g[p].Upper(j) <= s.g[p].Lower(i)
  {
    hide Pos, Chain, Holds, RootOk, Hangs;
    assert NodeOk(s.g, p);
  }

  /** The keys of an inner node are the separators of its rank within its range. */
  lemma InnerKeys(s: Shape, n: Node, k: Bytes)
    requires Inv(s) && n in s.g && !s.g[n].leaf
    ensures k in s.g[n].keys <==> (k, s.g[n].rank) in SepsOf(s) && s.g[n].lo <= Pos(k) < s.g[n].hi
    ensures k in s.g[n].keys ==> s.g[n].lo < Pos(k)
  {
    hide Pos, Inv;
    InnerRange(s, n);
    if (k, s.g[n].rank) in SepsOf(s) {
      var q :| q in s.g && !s.g[q].leaf && k in s.g[q].keys && s.g[q].rank == s.g[n].rank;
      InnerRange(s, q);
      if q != n { LevelsApart(s, q, n); }
    }
  }

  lemma InnerRange(s: Shape, n: Node)
    requires Inv(s) && n in s.g && !s.g[n].leaf
    ensures forall k :: k in s.g[n].keys ==> s.g[n].lo < Pos(k) < s.g[n].hi
    ensures Sorted(s.g[n].keys)
  {
    hide Pos, Chain, Holds, RootOk, Hangs, ChildOk;
    assert NodeOk(s.g, n);
  }

  /** No separator of a higher level lies inside the range of a node. */
  lemma {:induction false} NoSepInside(s: Shape, n: Node, e: (Bytes, nat))
    requires Inv(s) && n in s.g && e in SepsOf(s) && e.1 > s.g[n].rank
    ensures Pos(e.0) <= s.g[n].lo || s.g[n].hi <= Pos(e.0)
    decreases if s.root in s.g && s.g[n].rank <= s.g[s.root].rank then s.g[s.root].rank - s.g[n].rank else 0
  {
    hide Pos, Inv;
    RootIn(s);
    if n != s.root {
      ParentAbove(s, n);
      var p := s.g[n].parent;
      var i := SlotRange(s, n);
      if e.1 == s.g[p].rank {
        InnerKeys(s, p, e.0);
        SepBeside(s, p, i, e.0);
      } else {
        NoSepInside(s, p, e);
      }
    }
  }

  lemma SepBeside(s: Shape, p: Node, i: nat, k: Bytes)
    requires Inv(s) && p in s.g && !s.g[p].leaf && i <= |s.g[p].keys|
    ensures k in s.g[p].keys ==> Pos(k) <= s.g[p].Lower(i) || s.g[p].Upper(i) <= Pos(k)
    ensures s.g[p].lo <= s.g[p].Lower(i) && s.g[p].Upper(i) <= s.g[p].hi
  {
    hide Pos, Chain, Holds, RootOk, Hangs, ChildOk;
    assert NodeOk(s.g, p);
  }

  /** The ends of a node's range are the ends of the key space or separators of higher levels. */
  lemma {:induction false} RangeEnds(s: Shape, n: Node)
    requires Inv(s) && n in s.g
    ensures s.g[n].lo == BOTTOM || exists e :: e in SepsOf(s) && e.1 > s.g[n].rank && Pos(e.0) == s.g[n].lo
    ensures s.g[n].hi == TOP || exists e :: e in SepsOf(s) && e.1 > s.g[n].rank && Pos(e.0) == s.g[n].hi
    decreases if s.root in s.g && s.g[n].rank <= s.g[s.root].rank then s.g[s.root].rank - s.g[n].rank else 0
  {
    hide Pos, Inv, SepsOf;
    RootIn(s);
    if n == s.root {
      RootRange(s);
    } else {
      ParentAbove(s, n);
      var p := s.g[n].parent;
      var i := SlotRange(s, n);
      RangeEnds(s, p);
      if i > 0 {
        SepIn(s, p, s.g[p].keys[i - 1]);
        assert (s.g[p].keys[i - 1], s.g[p].rank).1 > s.g[n].rank;
      }
      if i < |s.g[p].keys| {
        SepIn(s, p, s.g[p].keys[i]);
        assert (s.g[p].keys[i], s.g[p].rank).1 > s.g[n].rank;
      }
    }
  }

  lemma RootRange(s: Shape)
    requires Inv(s)
    ensures s.root in s.g && s.g[s.root].lo == BOTTOM && s.g[s.root].hi == TOP && s.g[s.root].parent == null
  {
    hide Pos, Chain, Holds, NodesOk, Hangs;
  }

  // ----- what the steps of an insertion do to the separators

  lemma SameSeps(s: Shape, s': Shape)
    requires forall n :: n in s.g && !s.g[n].leaf ==>
      n in s'.g && !s'.g[n].leaf && s'.g[n].keys == s.g[n].keys && s'.g[n].rank == s.g[n].rank
    requires forall n :: n in s'.g && !s'.g[n].leaf ==> n in s.g && !s.g[n].leaf
    ensures SepsOf(s') == SepsOf(s)
  {}

  lemma LeafOverflowSeps(s: Shape, n: Node, i: nat, k: Bytes, v: Value, r: Node, j: nat, order: nat)
    requires MIN_ORDER <= order && Inv(s) && Fits(s, n, i, k) && r !in NodesOf(s) && FillOf(s, n) == order
    requires j < |s.leaves| && s.leaves[j] == n
    ensures SepsOf(LeafOverflowed(s, n, i, k, v, r, j, order)) == SepsOf(s)
  {
    hide Pos, Inv, Pending, LeafOverflowed;
    LeafOverflowShape(s, n, i, k, v, r, j, order);
    LeafOverflowKinds(s, n, i, k, v, r, j, order);
    SameSeps(s, LeafOverflowed(s, n, i, k, v, r, j, order));
  }

  lemma LeafOverflowKinds(s: Shape, n: Node, i: nat, k: Bytes, v: Value, r: Node, j: nat, order: nat)
    requires MIN_ORDER <= order && Inv(s) && Fits(s, n, i, k) && r !in NodesOf(s) && FillOf(s, n) == order
    requires j < |s.leaves| && s.leaves[j] == n
    ensures var s' := LeafOverflowed(s, n, i, k, v, r, j, order); r in s'.g && s'.g[r].leaf
  {
    hide Pos, Inv, Insert;
    InsertIndex(s.g[n].keys, i, k, Insert(s.g[n].keys, i, k));
    InsertIndex(s.g[n].vals, i, v, Insert(s.g[n].vals, i, v));
    AddEntry(s, n, i, k, v);
    LeafCutFacts(EntryAdded(s, n, i, k, v), n, r, LeafPoint(order), j);
  }

  lemma GrownRootSeps(s: Shape, right: Node, r: Node, sep: Bytes)
    requires Pending(s, s.root, right) && r !in NodesOf(s) && s.root in s.g
    ensures SepsOf(GrownRoot(s, right, r, sep)) == SepsOf(s) + {(sep, s.g[s.root].rank + 1)}
  {
    hide Pos, Chain, Holds, NodeOk, PendingRest, RootOk, Hangs;
    var s' := GrownRoot(s, right, r, sep);
    assert s'.g[r].keys == [sep] && [sep][0] == sep;
    forall e | e in SepsOf(s) ensures e in SepsOf(s') {
      var n :| n in s.g && !s.g[n].leaf && e.0 in s.g[n].keys && s.g[n].rank == e.1;
      assert s'.g[n].keys == s.g[n].keys;
      SepIn(s', n, e.0);
    }
    SepIn(s', r, sep);
  }

  lemma AttachedSeps(s: Shape, left: Node, right: Node, p: Node, sep: Bytes, i: nat)
    requires Waits(s, left, right, p, sep, i)
    ensures SepsOf(Attached(s, right, p, sep, i)) == SepsOf(s) + {(sep, s.g[p].rank)}
  {
    hide Pos, Inv, Pending, InnerOk, Insert;
    AttachShape(s, left, right, p, sep, i);
    PendingFacts(s, left, right);
    var s' := Attached(s, right, p, sep, i);
    InsertIndex(s.g[p].keys, i, sep, s'.g[p].keys);
    InsertMembers(s.g[p].keys, i, sep);
    forall e | e in SepsOf(s) ensures e in SepsOf(s') {
      var n :| n in s.g && !s.g[n].leaf && e.0 in s.g[n].keys && s.g[n].rank == e.1;
      SepIn(s', n, e.0);
    }
    SepIn(s', p, sep);
  }

  lemma InsertMembers<T>(xs: seq<T>, i: nat, x: T)
    requires i <= |xs|
    ensures forall y :: y in Insert(xs, i, x) <==> y == x || y in xs
  {
    assert xs == xs[..i] + xs[i..];
  }

  /** Cutting an inner node takes the separator in the middle away from its level. */
  lemma InnerCutSeps(s: Shape, p: Node, r: Node, i: nat)
    requires Inv(s) && InnerIn(s, p) && r !in NodesOf(s) && i < |s.g[p].keys| && |s.g[p].kids| == |s.g[p].keys| + 1
    ensures SepsOf(InnerCut(s, p, r, i)) == SepsOf(s) - {(s.g[p].keys[i], s.g[p].rank)}
  {
    hide Pos, Inv, Pending, Adopt;
    var s', ks := InnerCut(s, p, r, i), s.g[p].keys;
    InnerCutShape(s, p, r, i);
    InnerRange(s, p);
    CutMembers(ks, i);
    assert s'.g[p].keys == ks[..i] && s'.g[r].keys == ks[i + 1..] && s'.g[r].rank == s.g[p].rank && !s'.g[r].leaf;
    forall e | e in SepsOf(s) && e != (ks[i], s.g[p].rank) ensures e in SepsOf(s') {
      var n :| n in s.g && !s.g[n].leaf && e.0 in s.g[n].keys && s.g[n].rank == e.1;
      if n != p || e.0 in ks[..i] { SepIn(s', n, e.0); } else { SepIn(s', r, e.0); }
    }
    forall e | e in SepsOf(s') ensures e in SepsOf(s) && e != (ks[i], s.g[p].rank) {
      var n :| n in s'.g && !s'.g[n].leaf && e.0 in s'.g[n].keys && s'.g[n].rank == e.1;
      if n == p || n == r {
        SepIn(s, p, e.0);
      } else {
        SepIn(s, n, e.0);
        if e == (ks[i], s.g[p].rank) {
          InnerRange(s, n);
          LevelsApart(s, n, p);
        }
      }
    }
  }

  lemma CutMembers(ks: seq<Bytes>, i: nat)
    requires Sorted(ks) && i < |ks|
    ensures ks[i] !in ks[..i] && ks[i] !in ks[i + 1..]
    ensures forall k :: k in ks <==> k in ks[..i] || k == ks[i] || k in ks[i + 1..]
  {
    hide Pos;
    assert ks == ks[..i] + [ks[i]] + ks[i + 1..];
  }

  lemma OverflowedSeps(s: Shape, left: Node, right: Node, p: Node, sep: Bytes, i: nat, r: Node, order: nat)
    requires MIN_ORDER <= order && Waits(s, left, right, p, sep, i) && r !in NodesOf(s) && FillOf(s, p) == order
    ensures SepsOf(Overflowed(s, right, p, sep, i, r, order)) ==
      SepsOf(s) + {(sep, s.g[p].rank)} - {(Promoted(s, p, sep, i, order), s.g[p].rank)}
    ensures SameAbove(s, Overflowed(s, right, p, sep, i, r, order), p)
  {
    hide Pos, Inv, Pending, InnerOk, InnerCut, Insert, SepsOf;
    AttachShape(s, left, right, p, sep, i);
    InsertIndex(s.g[p].keys, i, sep, Insert(s.g[p].keys, i, sep));
    InsertIndex(s.g[p].kids, i + 1, right, Insert(s.g[p].kids, i + 1, right));
    var s1 := Attached(s, right, p, sep, i);
    AttachedSeps(s, left, right, p, sep, i);
    InnerCutSeps(s1, p, r, InnerPoint(order));
    CutAbove(s, left, right, p, sep, i, r, order);
  }

  lemma CutAbove(s: Shape, left: Node, right: Node, p: Node, sep: Bytes, i: nat, r: Node, order: nat)
    requires MIN_ORDER <= order && Waits(s, left, right, p, sep, i) && r !in NodesOf(s) && FillOf(s, p) == order
    ensures SameAbove(s, Overflowed(s, right, p, sep, i, r, order), p)
  {
    hide Pos, Inv, Pending, InnerOk, Insert, InnerCut, Attached;
    AttachShape(s, left, right, p, sep, i);
    InsertIndex(s.g[p].keys, i, sep, Insert(s.g[p].keys, i, sep));
    AttachAbove(s, left, right, p, sep, i);
    InnerCutAbove(Attached(s, right, p, sep, i), p, r, InnerPoint(order));
  }

  lemma AttachAbove(s: Shape, left: Node, right: Node, p: Node, sep: Bytes, i: nat)
    requires Waits(s, left, right, p, sep, i)
    ensures var s' := Attached(s, right, p, sep, i);
      && SameAbove(s, s', p) && s'.g.Keys == s.g.Keys && !s'.g[p].leaf && |s'.g[p].kids| == |s'.g[p].keys| + 1
  {
    hide Pos, Inv, Pending, InnerOk, Insert;
    PendingFacts(s, left, right);
    PendingRanks(s, left, right);
    InsertIndex(s.g[p].keys, i, sep, Insert(s.g[p].keys, i, sep));
    InsertIndex(s.g[p].kids, i + 1, right, Insert(s.g[p].kids, i + 1, right));
  }

  lemma InnerCutAbove(s: Shape, p: Node, r: Node, i: nat)
    requires Inv(s) && InnerIn(s, p) && r !in NodesOf(s) && i < |s.g[p].keys| && |s.g[p].kids| == |s.g[p].keys| + 1
    ensures SameAbove(s, InnerCut(s, p, r, i), p)
  {
    hide Pos, Inv;
    RootIn(s);
    KidsLower(s, p);
    var s', moved := InnerCut(s, p, r, i), InnerRight(s.g[p], i).kids;
    assert forall c :: c in moved ==> c in s.g[p].kids;
    forall y | y in s.g && y != p && s.g[y].rank >= s.g[p].rank ensures y in s'.g && SameNode(s.g[y], s'.g[y]) {
      assert y !in moved;
    }
  }

  lemma PendingRanks(s: Shape, left: Node, right: Node)
    requires Pending(s, left, right)
    ensures left in s.g && right in s.g && s.g[left].rank == s.g[right].rank
  {}

  // ----- how far a split climbs

  ghost function IndexIn(xs: seq<Node?>, n: Node): (i: nat)
    ensures i <= |xs| && (n in xs ==> i < |xs| && xs[i] == n)
  {
    if xs == [] || xs[0] == n then 0 else 1 + IndexIn(xs[1..], n)
  }

  /** `n` has a parent one level up, where it sits in a slot. */
  ghost predicate Rises(s: Shape, n: Node) {
    && n in s.g && s.root in s.g && s.g[n].parent in s.g
    && s.g[s.g[n].parent].rank == s.g[n].rank + 1 <= s.g[s.root].rank
    && n in s.g[s.g[n].parent].kids && |s.g[s.g[n].parent].kids| == |s.g[s.g[n].parent].keys| + 1
  }

  /**
    The separators once `n` has been split at `sep` and the right half been hung in: `sep` joins the
    level above, and where a node there is full, its middle separator moves up in turn.
   */
  ghost function Climbed(s: Shape, seps: set<(Bytes, nat)>, n: Node, sep: Bytes, order: nat): set<(Bytes, nat)>
    requires MIN_ORDER <= order
    decreases if n in s.g && s.root in s.g && s.g[n].rank <= s.g[s.root].rank then s.g[s.root].rank - s.g[n].rank else 0
  {
    if n == s.root || !Rises(s, n) then seps + {(sep, RankOf(s, n) + 1)}
    else
      var p := s.g[n].parent;
      var joined := seps + {(sep, s.g[p].rank)};
      if |s.g[p].keys| < order then joined
      else
        var up := Insert(s.g[p].keys, IndexIn(s.g[p].kids, n), sep)[InnerPoint(order)];
        Climbed(s, joined - {(up, s.g[p].rank)}, p, up, order)
  }

  /** From this rank up, every node but the root has a parent one level up in the tree. */
  ghost predicate HungFrom(s: Shape, rank: nat) {
    && s.root in s.g
    && forall y :: y in s.g && y != s.root && s.g[y].rank >= rank ==>
         s.g[y].parent in s.g && s.g[s.g[y].parent].rank == s.g[y].rank + 1 <= s.g[s.root].rank
  }

  lemma {:induction false} ClimbedSame(
    s: Shape, s': Shape, x: Node, n: Node, seps: set<(Bytes, nat)>, sep: Bytes, order: nat)
    requires MIN_ORDER <= order && SameAbove(s, s', x) && n in s.g && n in s'.g && s.g[n].rank >= s.g[x].rank
    requires n == x || s.g[n].rank > s.g[x].rank
    requires s.g[x].rank <= s.g[s.root].rank && s'.root in s'.g && s'.g[s'.root].rank == s.g[s.root].rank
    requires HungFrom(s, s.g[x].rank)
    ensures Climbed(s', seps, n, sep, order) == Climbed(s, seps, n, sep, order)
    decreases if s.g[n].rank <= s.g[s.root].rank then s.g[s.root].rank - s.g[n].rank else 0
  {
    hide Rises;
    if n != s.root {
      RisesSame(s, s', x, n);
      var p := s.g[n].parent;
      if Rises(s, n) && |s.g[p].keys| >= order {
        RisesFacts(s, n);
        var joined := seps + {(sep, s.g[p].rank)};
        var up := Insert(s.g[p].keys, IndexIn(s.g[p].kids, n), sep)[InnerPoint(order)];
        ClimbedSame(s, s', x, p, joined - {(up, s.g[p].rank)}, up, order);
      }
    }
  }

  lemma RisesFacts(s: Shape, n: Node)
    requires Rises(s, n)
    ensures n in s.g && s.root in s.g && s.g[n].parent in s.g
    ensures s.g[s.g[n].parent].rank == s.g[n].rank + 1 <= s.g[s.root].rank
    ensures IndexIn(s.g[s.g[n].parent].kids, n) <= |s.g[s.g[n].parent].keys|
  {}

  lemma RisesSame(s: Shape, s': Shape, x: Node, n: Node)
    requires SameAbove(s, s', x) && n in s.g && n in s'.g && n != s.root && s.g[n].rank >= s.g[x].rank
    requires n == x || s.g[n].rank > s.g[x].rank
    requires s'.root in s'.g && s'.g[s'.root].rank == s.g[s.root].rank && HungFrom(s, s.g[x].rank)
    ensures Rises(s', n) <==> Rises(s, n)
    ensures s'.g[n].parent == s.g[n].parent && s'.g[n].rank == s.g[n].rank
    ensures s.g[n].parent in s.g && s.g[n].parent in s'.g && SameNode(s.g[s.g[n].parent], s'.g[s.g[n].parent])
    ensures s.g[s.g[n].parent].rank > s.g[x].rank
  {
    var p := s.g[n].parent;
    assert s'.g[n].parent == p && s'.g[n].rank == s.g[n].rank;
    assert p in s'.g && SameNode(s.g[p], s'.g[p]);
  }

  lemma HungInv(s: Shape)
    requires Inv(s)
    ensures HungFrom(s, 0)
  {
    hide Pos, Inv;
    RootIn(s);
    forall y | y in s.g && y != s.root
      ensures s.g[y].parent in s.g && s.g[s.g[y].parent].rank == s.g[y].rank + 1 <= s.g[s.root].rank
    {
      ParentAbove(s, y);
    }
  }

  lemma HungPending(s: Shape, left: Node, right: Node)
    requires Pending(s, left, right)
    ensures left in s.g && HungFrom(s, s.g[left].rank + 1)
    ensures s.root in s.g && forall y :: y in s.g ==> s.g[y].rank <= s.g[s.root].rank
  {
    hide Pos, Sorted, Chain, Holds, NodeOk, PendingRest, Hangs;
    var u := Unsplit(s.g, left, right);
    forall y | y in s.g ensures s.g[y].rank <= s.g[s.root].rank {
      assert y != right ==> y in u && u[y].rank == s.g[y].rank;
      assert u[left].rank == s.g[left].rank;
    }
    forall y | y in s.g && y != s.root && s.g[y].rank > s.g[left].rank
      ensures s.g[y].parent in s.g && s.g[s.g[y].parent].rank == s.g[y].rank + 1
    {
      HungAbove(s, left, right, y);
    }
  }

  lemma HungAbove(s: Shape, left: Node, right: Node, y: Node)
    requires Pending(s, left, right) && y in s.g && y != s.root && s.g[y].rank > s.g[left].rank
    ensures s.g[y].parent in s.g && s.g[s.g[y].parent].rank == s.g[y].rank + 1
  {
    hide Pos, Sorted, Chain, Holds, RootOk;
    var u, p := Unsplit(s.g, left, right), s.g[y].parent;
    assert Hangs(s.g, y);
    var t :| 0 <= t < |s.g[p].kids| && s.g[p].kids[t] == y;
    ChildrenLower(s.g, left);
    ChildrenLower(s.g, right);
    assert NodeOk(u, p);
    assert ChildOk(u, p, t);
  }

  lemma ChildrenLower(g: map<Node, Rec>, n: Node)
    requires n in g && NodeOk(g, n)
    ensures forall c :: c in g && c in g[n].kids ==> g[c].rank < g[n].rank
  {
    hide Pos, Sorted;
    forall c | c in g && c in g[n].kids ensures g[c].rank < g[n].rank {
      var i :| 0 <= i < |g[n].kids| && g[n].kids[i] == c;
      assert ChildOk(g, n, i);
    }
  }

  /** The climb from `left` whose parent `p` is full goes on from `p`, with the middle separator. */
  lemma ClimbStep(s: Shape, left: Node, right: Node, p: Node, sep: Bytes, i: nat, order: nat)
    requires MIN_ORDER <= order && Waits(s, left, right, p, sep, i)
    ensures s.root in s.g && p in s.g
    ensures FillOf(s, p) < order ==> Climbed(s, SepsOf(s), left, sep, order) == SepsOf(s) + {(sep, s.g[p].rank)}
    ensures FillOf(s, p) == order ==>
      var up := Promoted(s, p, sep, i, order);
      Climbed(s, SepsOf(s), left, sep, order) ==
        Climbed(s, SepsOf(s) + {(sep, s.g[p].rank)} - {(up, s.g[p].rank)}, p, up, order)
  {
    hide Pos, Pending, InnerOk, SepsOf, Insert;
    HungPending(s, left, right);
    WaitsSlot(s, left, right, p, sep, i);
  }

  lemma WaitsSlot(s: Shape, left: Node, right: Node, p: Node, sep: Bytes, i: nat)
    requires Waits(s, left, right, p, sep, i)
    ensures IndexIn(s.g[p].kids, left) == i && left in s.g[p].kids
  {
    hide Pos, Pending;
    var j := IndexIn(s.g[p].kids, left);
    var u := Unsplit(s.g, left, right);
    assert u[p] == s.g[p];
    if i < j { KidsDistinct(u, p, i, j); }
    if j < i { KidsDistinct(u, p, j, i); }
  }

  /** What follows a cut of `p`, told from the tree before the cut. */
  lemma ClimbOn(s: Shape, left: Node, right: Node, p: Node, sep: Bytes, i: nat, r: Node, order: nat)
    requires MIN_ORDER <= order && Waits(s, left, right, p, sep, i) && r !in NodesOf(s) && FillOf(s, p) == order
    ensures var s', up := Overflowed(s, right, p, sep, i, r, order), Promoted(s, p, sep, i, order);
      Climbed(s', SepsOf(s'), p, up, order) == Climbed(s, SepsOf(s), left, sep, order)
  {
    hide Pos, Pending, InnerOk, SepsOf, Insert, Overflowed, Climbed, Promoted;
    var s', up := Overflowed(s, right, p, sep, i, r, order), Promoted(s, p, sep, i, order);
    HungPending(s, left, right);
    OverflowedSeps(s, left, right, p, sep, i, r, order);
    ClimbStep(s, left, right, p, sep, i, order);
    RootKept(s, s', p);
    ClimbedSame(s, s', p, p, SepsOf(s'), up, order);
  }

  lemma RootKept(s: Shape, s': Shape, x: Node)
    requires SameAbove(s, s', x) && s.g[x].rank <= s.g[s.root].rank
    ensures s'.root in s'.g && s'.g[s'.root].rank == s.g[s.root].rank
  {
    assert s.root != x ==> s.root in s'.g;
  }

  lemma GrownClimb(s: Shape, right: Node, r: Node, sep: Bytes, order: nat)
    requires MIN_ORDER <= order && Pending(s, s.root, right) && r !in NodesOf(s) && s.root in s.g && right in s.g
    ensures SepsOf(GrownRoot(s, right, r, sep)) == Climbed(s, SepsOf(s), s.root, sep, order)
  {
    hide Pending, SepsOf, GrownRoot;
    GrownRootSeps(s, right, r, sep);
  }

  lemma AttachedClimb(s: Shape, left: Node, right: Node, p: Node, sep: Bytes, i: nat, order: nat)
    requires MIN_ORDER <= order && Waits(s, left, right, p, sep, i) && FillOf(s, p) < order
    requires right in s.g && p in s.g && i <= |s.g[p].keys| && |s.g[p].kids| == |s.g[p].keys| + 1
    ensures SepsOf(Attached(s, right, p, sep, i)) == Climbed(s, SepsOf(s), left, sep, order)
  {
    hide Waits, SepsOf, Attached, Climbed;
    AttachedSeps(s, left, right, p, sep, i);
    ClimbStep(s, left, right, p, sep, i, order);
  }

  /** The separators after adding the absent key `k` at place `i` of leaf `n`. */
  ghost function LeafClimbed(s: Shape, n: Node, i: nat, k: Bytes, order: nat): set<(Bytes, nat)>
    requires MIN_ORDER <= order && n in s.g && i <= |s.g[n].keys|
  {
    if |s.g[n].keys| != order then SepsOf(s) else Climbed(s, SepsOf(s), n, LeafPromoted(s, n, i, k, order), order)
  }

  lemma LeafClimbOn(s: Shape, n: Node, i: nat, k: Bytes, v: Value, r: Node, j: nat, order: nat)
    requires MIN_ORDER <= order && Inv(s) && Fits(s, n, i, k) && r !in NodesOf(s) && FillOf(s, n) == order
    requires j < |s.leaves| && s.leaves[j] == n
    ensures var s', up := LeafOverflowed(s, n, i, k, v, r, j, order), LeafPromoted(s, n, i, k, order);
      Climbed(s', SepsOf(s'), n, up, order) == LeafClimbed(s, n, i, k, order)
  {
    hide Pos, Inv, SepsOf, LeafOverflowed, Climbed, LeafPromoted;
    var s', up := LeafOverflowed(s, n, i, k, v, r, j, order), LeafPromoted(s, n, i, k, order);
    HungInv(s);
    RootIn(s);
    LeafOverflowAbove(s, n, i, k, v, r, j, order);
    LeafOverflowSeps(s, n, i, k, v, r, j, order);
    RootKept(s, s', n);
    HungMore(s, s.g[n].rank);
    ClimbedSame(s, s', n, n, SepsOf(s'), up, order);
  }

  lemma HungMore(s: Shape, rank: nat)
    requires HungFrom(s, 0)
    ensures HungFrom(s, rank)
  {}

  /** The separators of `s'` are those an insertion of `k` into `s` leaves. */
  ghost predicate SepsInserted(s: Shape, s': Shape, k: Bytes, order: nat)
    requires MIN_ORDER <= order
  {
    && (k in MapOf(s) ==> SepsOf(s') == SepsOf(s))
    && forall n, i: nat {:trigger Fits(s, n, i, k)} :: n in s.g && Fits(s, n, i, k) ==>
      SepsOf(s') == LeafClimbed(s, n, i, k, order)
  }

  /** A key fits in one place only. */
  lemma OnePlace(s: Shape, n: Node, i: nat, x: Node, j: nat, k: Bytes)
    requires Inv(s) && Fits(s, n, i, k) && Fits(s, x, j, k)
    ensures n == x && i == j
  {
    hide Pos, Sorted, Holds, Hangs, RootOk, NodesOk;
    LeavesApart(s, n, x, k);
    NotBefore(s, n, i, j, k);
    NotBefore(s, n, j, i, k);
  }

  lemma NotBefore(s: Shape, n: Node, i: nat, j: nat, k: Bytes)
    requires Fits(s, n, i, k) && Fits(s, n, j, k)
    ensures i >= j
  {
    hide Pos;
    var ks := s.g[n].keys;
    assert i < |ks| ==> Pos(k) < Pos(ks[i]);
  }

  lemma InsertedAt(s: Shape, s': Shape, n: Node, i: nat, k: Bytes, order: nat)
    requires MIN_ORDER <= order && Inv(s) && Fits(s, n, i, k) && SepsOf(s') == LeafClimbed(s, n, i, k, order)
    ensures SepsInserted(s, s', k, order)
  {
    hide Pos, Inv, SepsOf, LeafClimbed, LeafHolds;
    FitsAbsent(s, n, i, k);
    forall x, j: nat | x in s.g && Fits(s, x, j, k) ensures SepsOf(s') == LeafClimbed(s, x, j, k, order) {
      OnePlace(s, n, i, x, j, k);
    }
  }

  lemma FitsAbsent(s: Shape, n: Node, i: nat, k: Bytes)
    requires Inv(s) && Fits(s, n, i, k)
    ensures k !in MapOf(s)
  {
    hide Pos, Inv, LeafOk;
    LeafInvFacts(s, n);
  }

  lemma InsertedNothing(s: Shape, s': Shape, k: Bytes, order: nat)
    requires MIN_ORDER <= order && Inv(s) && k in MapOf(s) && SepsOf(s') == SepsOf(s)
    ensures SepsInserted(s, s', k, order)
  {
    hide Pos, Inv, SepsOf, LeafClimbed;
    forall x, j: nat | x in s.g ensures !Fits(s, x, j, k) {
      if Fits(s, x, j, k) { FitsAbsent(s, x, j, k); }
    }
  }

  lemma LeafRewrittenSeps(s: Shape, n: Node, ks: seq<Bytes>, vs: seq<Value>, m: map<Bytes, Value>)
    requires LeafIn(s, n)
    ensures SepsOf(LeafRewritten(s, n, ks, vs, m)) == SepsOf(s)
  {
    SameSeps(s, LeafRewritten(s, n, ks, vs, m));
  }

  /** The leaf where `k` belongs has more keys than it must have. */
  ghost predicate HasSpare(s: Shape, k: Bytes, order: nat) {
    forall n :: n in s.g && LeafIn(s, n) && CoversIn(s, n, k) ==> FillOf(s, n) > MinFill(order)
  }

  lemma DroppedSeps(s: Shape, n: Node, i: nat, k: Bytes)
    requires Inv(s) && FoundAt(s, n, i, k)
    ensures SepsOf(EntryDropped(s, n, i, k)) == SepsOf(s)
  {
    hide Pos, Inv, SepsOf;
    LeafRewrittenSeps(s, n, Remove(s.g[n].keys, i), Remove(s.g[n].vals, i), s.m - {k});
  }

  lemma AddedSeps(s: Shape, n: Node, i: nat, k: Bytes, v: Value, order: nat)
    requires MIN_ORDER <= order && Inv(s) && Fits(s, n, i, k) && FillOf(s, n) < order
    ensures SepsInserted(s, EntryAdded(s, n, i, k, v), k, order)
  {
    hide Pos, Inv, SepsOf, SepsInserted;
    LeafRewrittenSeps(s, n, Insert(s.g[n].keys, i, k), Insert(s.g[n].vals, i, v), s.m[k := v]);
    InsertedAt(s, EntryAdded(s, n, i, k, v), n, i, k, order);
  }

  lemma OverwrittenSeps(s: Shape, n: Node, i: nat, k: Bytes, v: Value, order: nat)
    requires MIN_ORDER <= order && Inv(s) && FoundAt(s, n, i, k)
    ensures SepsInserted(s, EntrySet(s, n, i, k, v), k, order)
  {
    hide Pos, Inv, SepsOf, SepsInserted, LeafOk;
    LeafInvFacts(s, n);
    LeafRewrittenSeps(s, n, s.g[n].keys, s.g[n].vals[i := v], s.m[k := v]);
    InsertedNothing(s, EntrySet(s, n, i, k, v), k, order);
  }
}
