/** The edits of the heap that bring about the steps on shapes. */
module BTreeLinks {
  import opened Bytes
  import opened BTreeNodes
  import opened BTreeShape
  import opened BTreeHeap
  import opened BTreeSteps

  ghost predicate PicturesShape(s: Shape, order: nat)
    reads Footprint(NodesOf(s))
  {
    Pictures(s.g, order)
  }

  /** A new root above `left` and `right`. */
  method LinkRoot(ghost s: Shape, left: Node, right: Node, sep: Bytes, order: nat) returns (r: Node)
    requires MIN_ORDER <= order && PicturesShape(s, order) && Pending(s, left, right)
    requires left == s.root && left in s.g && right in s.g
    modifies left`parent, right`parent
    ensures r !in NodesOf(s) && fresh({r, r.keys, r.values, r.children})
    ensures PicturesShape(GrownRoot(s, right, r, sep), order)
  {
    hide Pictures, Pending;
    PendingFacts(s, left, right);
    r := CreateNode(s.g, false, order);
    ghost var g: map<Node, Rec> := s.g[r := Blank(false)];
    FillInner(g, order, r, [sep], [left, right]);
    g := g[r := g[r].(keys := [sep], kids := [left, right])];
    SetParent(g, order, left, r);
    g := g[left := g[left].(parent := r)];
    SetParent(g, order, right, r);
    g := g[right := g[right].(parent := r)];
    Reshade(g, GrownRoot(s, right, r, sep).g, order);
  }

  lemma WaitsFacts(s: Shape, left: Node, right: Node, p: Node, sep: Bytes, i: nat)
    requires Waits(s, left, right, p, sep, i)
    ensures Sorted(s.g[p].keys) && left in s.g && right in s.g && left != right && right != p
    ensures i > 0 ==> Pos(s.g[p].keys[i - 1]) < Pos(sep)
    ensures i < |s.g[p].keys| ==> Pos(sep) < Pos(s.g[p].keys[i])
    ensures null !in s.g[p].kids && (forall c :: c in s.g[p].kids ==> c in s.g && c != p)
    ensures forall c :: c in s.g[p].kids ==> s.g[c].parent == p
    ensures right !in s.g[p].kids
  {
    hide Pos, Sorted, Pending, Chain, Holds;
    PendingFacts(s, left, right);
    var u := Unsplit(s.g, left, right);
    forall c | c in s.g[p].kids ensures c in s.g && c != p && c != right && s.g[c].parent == p {
      var j :| 0 <= j < |s.g[p].kids| && s.g[p].kids[j] == c;
      assert ChildOk(u, p, j);
    }
  }

  /** The search for `sep` among the separators of its node lands in the slot of the left half. */
  method FindPlace(ghost g: map<Node, Rec>, p: Node, sep: Bytes, ghost i: nat, ghost order: nat) returns (pos: nat)
    requires Pictures(g, order) && p in g && i <= |g[p].keys| && Sorted(g[p].keys)
    requires i > 0 ==> Pos(g[p].keys[i - 1]) < Pos(sep)
    requires i < |g[p].keys| ==> Pos(sep) < Pos(g[p].keys[i])
    ensures pos == i && Pictures(g, order)
  {
    hide Pos, Sorted;
    Seen(g, order, p);
    var at := p.FindKey(sep, false);
    assert forall j :: 0 <= j < |g[p].keys| ==> p.keys[j] == p.Keys()[j];
    pos := at;
  }

  method LinkChild(ghost s: Shape, ghost left: Node, right: Node, p: Node, sep: Bytes, ghost i: nat, ghost order: nat)
    requires PicturesShape(s, order) && Waits(s, left, right, p, sep, i) && FillOf(s, p) < order
    modifies right`parent, p`keyCount, p.keys, p.children
    ensures PicturesShape(Attached(s, right, p, sep, i), order)
  {
    hide Pos, Pictures, Pending, InnerOk, Sorted;
    WaitsFacts(s, left, right, p, sep, i);
    SetParent(s.g, order, right, p);
    ghost var g: map<Node, Rec> := s.g[right := s.g[right].(parent := p)];
    var pos := FindPlace(g, p, sep, i, order);
    InsertChild(g, order, p, pos, sep, right);
  }

  ghost function OverflowEdits(s: Shape, right: Node, p: Node, r: Node, tk: seq<Bytes>, tc: seq<Node?>,
    sp: nat): map<Node, Rec>
    requires right in s.g && p in s.g && sp < |tk| && |tc| == |tk| + 1
  {
    var g2: map<Node, Rec> := s.g[right := s.g[right].(parent := p)][r := Blank(false)];
    var g3: map<Node, Rec> := g2[p := g2[p].(keys := tk[..sp], kids := tc[..sp + 1])];
    var g4: map<Node, Rec> := Adopt(g3, tc[..sp + 1], p);
    var g5: map<Node, Rec> := g4[r := g4[r].(keys := tk[sp + 1..], kids := tc[sp + 1..])];
    Adopt(g5, tc[sp + 1..], r)
  }

  /** What becomes of a node other than the one that overflows and its new neighbour. */
  ghost function Moved(s: Shape, right: Node, p: Node, r: Node, tc: seq<Node?>, sp: nat, x: Node): Rec
    requires x in s.g && sp < |tc|
  {
    if x in tc[sp + 1..] then s.g[x].(parent := r) else if x == right then s.g[x].(parent := p) else s.g[x]
  }

  lemma OverflowEditsAt(s: Shape, right: Node, p: Node, r: Node, tk: seq<Bytes>, tc: seq<Node?>, sp: nat, x: Node)
    requires right in s.g && p in s.g && right != p && r !in s.g && sp < |tk| && |tc| == |tk| + 1
    requires p !in tc && r !in tc && x in s.g && (x in tc[..sp + 1] ==> x == right || s.g[x].parent == p)
    ensures var e := OverflowEdits(s, right, p, r, tk, tc, sp);
      && x in e && p in e && r in e && e.Keys == s.g.Keys + {r}
      && (x != p ==> e[x] == Moved(s, right, p, r, tc, sp, x))
      && e[p] == s.g[p].(keys := tk[..sp], kids := tc[..sp + 1])
      && e[r] == Blank(false).(keys := tk[sp + 1..], kids := tc[sp + 1..])
  {
    assert p !in tc[..sp + 1] && p !in tc[sp + 1..] && r !in tc[..sp + 1] && r !in tc[sp + 1..];
  }

  lemma OverflowedAt(s: Shape, right: Node, p: Node, sep: Bytes, i: nat, r: Node, order: nat, tk: seq<Bytes>,
    tc: seq<Node?>, x: Node)
    requires MIN_ORDER <= order && right in s.g && p in s.g && right != p && r !in s.g
    requires i <= |s.g[p].keys| == order && |s.g[p].kids| == order + 1
    requires tk == Insert(s.g[p].keys, i, sep) && tc == Insert(s.g[p].kids, i + 1, right) && |tk| == order + 1
    requires |tc| == order + 2
    requires p !in tc && r !in tc && x in s.g
    ensures var e := Overflowed(s, right, p, sep, i, r, order).g;
      var sp := InnerPoint(order);
      && x in e && p in e && r in e && e.Keys == s.g.Keys + {r}
      && (x != p ==> e[x] == Moved(s, right, p, r, tc, sp, x))
      && e[p] == s.g[p].(keys := tk[..sp], kids := tc[..sp + 1], hi := e[p].hi)
      && e[r] == s.g[p].(keys := tk[sp + 1..], kids := tc[sp + 1..], lo := e[r].lo, parent := null, next := null,
        prev := null)
  {
    hide Insert, InnerPoint, Pos;
    var sp := InnerPoint(order);
    assert p !in tc[sp + 1..] && r !in tc[sp + 1..];
  }

  lemma OverflowPicture(s: Shape, left: Node, right: Node, p: Node, sep: Bytes, i: nat, r: Node, order: nat)
    requires MIN_ORDER <= order && Waits(s, left, right, p, sep, i) && FillOf(s, p) == order && r !in s.g
    requires s.g[p].vals == []
    ensures SamePicture(
      OverflowEdits(s, right, p, r, Insert(s.g[p].keys, i, sep), Insert(s.g[p].kids, i + 1, right), InnerPoint(order)),
      Overflowed(s, right, p, sep, i, r, order).g)
  {
    hide Pos, Pending, InnerOk, Sorted, Insert, InnerPoint, Overflowed, OverflowEdits, Moved;
    WaitsFacts(s, left, right, p, sep, i);
    var tk, tc := Insert(s.g[p].keys, i, sep), Insert(s.g[p].kids, i + 1, right);
    var sp := InnerPoint(order);
    InsertIndex(s.g[p].keys, i, sep, tk);
    InsertIndex(s.g[p].kids, i + 1, right, tc);
    assert p !in tc && r !in tc;
    OverflowEditsAt(s, right, p, r, tk, tc, sp, p);
    OverflowedAt(s, right, p, sep, i, r, order, tk, tc, p);
    forall x | x in s.g && x != p ensures
      OverflowEdits(s, right, p, r, tk, tc, sp)[x] == Overflowed(s, right, p, sep, i, r, order).g[x]
    {
      assert x in tc[..sp + 1] ==> x in tc;
      OverflowEditsAt(s, right, p, r, tk, tc, sp, x);
      OverflowedAt(s, right, p, sep, i, r, order, tk, tc, x);
    }
  }

  lemma InnerVals(s: Shape, left: Node, right: Node, p: Node, sep: Bytes, i: nat)
    requires Waits(s, left, right, p, sep, i)
    ensures s.g[p].vals == []
  {
    hide Pos, Sorted, Pending;
    PendingFacts(s, left, right);
  }

  method LinkOverflow(ghost s: Shape, ghost left: Node, right: Node, p: Node, sep: Bytes, ghost i: nat, order: nat)
    returns (r: Node, up: Bytes)
    requires MIN_ORDER <= order && PicturesShape(s, order) && Waits(s, left, right, p, sep, i) && FillOf(s, p) == order
    modifies right`parent, p`keyCount, p.keys, p.children, (set c | c in s.g[p].kids && c in s.g)`parent
    ensures r !in NodesOf(s) && fresh({r, r.keys, r.values, r.children})
    ensures PicturesShape(Overflowed(s, right, p, sep, i, r, order), order)
    ensures up == Promoted(s, p, sep, i, order)
  {
    hide Pos, Pictures, Pending, InnerOk, Sorted, Insert, Overflowed, Adopt;
    WaitsFacts(s, left, right, p, sep, i);
    InnerVals(s, left, right, p, sep, i);
    SetParent(s.g, order, right, p);
    ghost var g: map<Node, Rec> := s.g[right := s.g[right].(parent := p)];
    r := CreateNode(g, false, order);
    g := g[r := Blank(false)];
    var pos := FindPlace(g, p, sep, i, order);
    Seen(g, order, p);
    var tk := Insert(p.keys[..p.keyCount], pos, sep);
    var tc := Insert(p.children[..p.keyCount + 1], pos + 1, right);
    InsertIndex(s.g[p].keys, i, sep, tk);
    InsertIndex(s.g[p].kids, i + 1, right, tc);
    assert forall c :: c in tc ==> c in s.g && (c == right || c in s.g[p].kids);
    var sp := InnerPoint(order);
    up := tk[sp];
    Redistribute(s, right, p, r, tk, tc, sp, order);
    OverflowPicture(s, left, right, p, sep, i, r, order);
    Reshade(OverflowEdits(s, right, p, r, tk, tc, sp), Overflowed(s, right, p, sep, i, r, order).g, order);
  }

  /** Deals the separators and children of an overfull node out to it and to its new neighbour. */
  method Redistribute(ghost s: Shape, ghost right: Node, p: Node, r: Node, tk: seq<Bytes>, tc: seq<Node?>, sp: nat,
    ghost order: nat)
    requires right in s.g && p in s.g && right != p && r !in s.g && !s.g[p].leaf
    requires sp < |tk| && |tc| == |tk| + 1 && sp <= order && |tk| - sp - 1 <= order
    requires forall c :: c in tc ==> c in s.g
    requires Pictures(s.g[right := s.g[right].(parent := p)][r := Blank(false)], order)
    modifies p`keyCount, p.keys, p.children, r`keyCount, r.keys, r.children, (set c | c in tc)`parent
    ensures Pictures(OverflowEdits(s, right, p, r, tk, tc, sp), order)
  {
    hide Pictures, Adopt;
    ghost var g: map<Node, Rec> := s.g[right := s.g[right].(parent := p)][r := Blank(false)];
    assert forall c :: c in tc[..sp + 1] ==> c in tc;
    assert forall c :: c in tc[sp + 1..] ==> c in tc;
    FillInner(g, order, p, tk[..sp], tc[..sp + 1]);
    g := g[p := g[p].(keys := tk[..sp], kids := tc[..sp + 1])];
    AdoptAll(g, order, p, tc[..sp + 1]);
    ghost var g4: map<Node, Rec> := Adopt(g, tc[..sp + 1], p);
    AdoptAt(g, tc[..sp + 1], p, r);
    assert g4.Keys == g.Keys by { AdoptKeys(g, tc[..sp + 1], p); }
    FillInner(g4, order, r, tk[sp + 1..], tc[sp + 1..]);
    g4 := g4[r := g4[r].(keys := tk[sp + 1..], kids := tc[sp + 1..])];
    AdoptAll(g4, order, r, tc[sp + 1..]);
  }

  lemma AdoptKeys(g: map<Node, Rec>, cs: seq<Node?>, to: Node)
    ensures Adopt(g, cs, to).Keys == g.Keys
  {}

  lemma AdoptAt(g: map<Node, Rec>, cs: seq<Node?>, to: Node, x: Node)
    requires x in g
    ensures Adopt(g, cs, to).Keys == g.Keys && Adopt(g, cs, to)[x] == if x in cs then g[x].(parent := to) else g[x]
  {}

  // ----- leaves

  method LinkEntry(ghost s: Shape, n: Node, i: nat, k: Bytes, v: Value, ghost order: nat)
    requires PicturesShape(s, order) && Fits(s, n, i, k) && FillOf(s, n) < order
    modifies n`keyCount, n.keys, n.values
    ensures PicturesShape(EntryAdded(s, n, i, k, v), order)
  {
    hide Pos, Pictures;
    InsertEntry(s.g, order, n, i, k, v);
  }

  method LinkValue(ghost s: Shape, n: Node, i: nat, ghost k: Bytes, v: Value, ghost order: nat)
    requires PicturesShape(s, order) && FoundAt(s, n, i, k)
    modifies n.values
    ensures PicturesShape(EntrySet(s, n, i, k, v), order)
  {
    hide Pos, Pictures;
    SetValue(s.g, order, n, i, v);
    assert EntrySet(s, n, i, k, v).g == s.g[n := s.g[n].(vals := s.g[n].vals[i := v])];
  }

  method UnlinkEntry(ghost s: Shape, n: Node, i: nat, ghost k: Bytes, ghost order: nat)
    requires PicturesShape(s, order) && FoundAt(s, n, i, k)
    modifies n`keyCount, n.keys, n.values, n.children
    ensures PicturesShape(EntryDropped(s, n, i, k), order)
  {
    hide Pos, Pictures;
    RemoveEntry(s.g, order, n, i);
  }

  ghost function LeafOverflowEdits(s: Shape, n: Node, r: Node, ks: seq<Bytes>, vs: seq<Value>, sp: nat): map<Node, Rec>
    requires n in s.g && sp <= |ks| && sp <= |vs|
  {
    var g1: map<Node, Rec> := s.g[r := Blank(true)];
    var g2: map<Node, Rec> := g1[n := g1[n].(keys := ks[..sp], vals := vs[..sp])];
    var g3: map<Node, Rec> := g2[r := g2[r].(keys := ks[sp..], vals := vs[sp..])];
    var g4: map<Node, Rec> := g3[r := g3[r].(next := g3[n].next)];
    var g5: map<Node, Rec> := Relink(g4, g4[n].next, r);
    var g6: map<Node, Rec> := g5[n := g5[n].(next := r)];
    g6[r := g6[r].(prev := n)]
  }

  /** The neighbour on the right of a leaf, if any, is another node of the tree. */
  lemma NextFacts(s: Shape, n: Node)
    requires Inv(s) && LeafIn(s, n)
    ensures s.g[n].next != null ==> s.g[n].next in s.g && s.g[n].next != n
    ensures |s.g[n].keys| == |s.g[n].vals| && s.g[n].kids == [] && s.g[n].rank == 0
    ensures Sorted(s.g[n].keys)
  {
    hide Pos, Sorted, Holds, RootOk, Hangs, LinkOk, Before;
    var j := LeafIndex(s, n);
    InvRanged(s);
    NextLeaf(s, j);
    assert NodeOk(s.g, n);
  }

  lemma LeafOverflowPicture(s: Shape, n: Node, i: nat, k: Bytes, v: Value, r: Node, j: nat, order: nat)
    requires MIN_ORDER <= order && Fits(s, n, i, k) && FillOf(s, n) == order && r !in s.g && j < |s.leaves|
    requires s.g[n].next != null ==> s.g[n].next in s.g && s.g[n].next != n
    requires s.g[n].kids == []
    requires |Insert(s.g[n].keys, i, k)| == |Insert(s.g[n].vals, i, v)| == order + 1
    ensures SamePicture(
      LeafOverflowEdits(s, n, r, Insert(s.g[n].keys, i, k), Insert(s.g[n].vals, i, v), LeafPoint(order)),
      LeafOverflowed(s, n, i, k, v, r, j, order).g)
  {
    hide Pos, Insert, LeafPoint;
  }

  method LinkLeafOverflow(ghost s: Shape, n: Node, k: Bytes, v: Value, ghost i: nat, ghost j: nat, order: nat)
    returns (r: Node, up: Bytes)
    requires MIN_ORDER <= order && PicturesShape(s, order) && Inv(s) && Fits(s, n, i, k) && FillOf(s, n) == order
    requires j < |s.leaves| && s.leaves[j] == n
    modifies n`keyCount, n`next, n.keys, n.values, (if n.next == null then {} else {n.next})`prev
    ensures r !in NodesOf(s) && fresh({r, r.keys, r.values, r.children})
    ensures PicturesShape(LeafOverflowed(s, n, i, k, v, r, j, order), order)
    ensures up == LeafPromoted(s, n, i, k, order)
  {
    hide Pos, Pictures, Inv, Sorted, Insert, LeafOverflowed, LeafPoint;
    NextFacts(s, n);
    Seen(s.g, order, n);
    r := CreateNode(s.g, true, order);
    ghost var g: map<Node, Rec> := s.g[r := Blank(true)];
    var pos := FindPlace(g, n, k, i, order);
    Seen(g, order, n);
    var ks := Insert(n.keys[..n.keyCount], pos, k);
    var vs := Insert(n.values[..n.keyCount], pos, v);
    InsertIndex(s.g[n].keys, i, k, ks);
    InsertIndex(s.g[n].vals, i, v, vs);
    var sp := LeafPoint(order);
    up := ks[sp];
    LinkHalves(s, n, r, ks, vs, sp, order);
    LeafOverflowPicture(s, n, i, k, v, r, j, order);
    Reshade(LeafOverflowEdits(s, n, r, ks, vs, sp), LeafOverflowed(s, n, i, k, v, r, j, order).g, order);
  }

  /** Deals the entries of an overfull leaf out to it and to its new neighbour, and links the two. */
  method LinkHalves(ghost s: Shape, n: Node, r: Node, ks: seq<Bytes>, vs: seq<Value>, sp: nat, ghost order: nat)
    requires n in s.g && s.g[n].leaf && r !in s.g && |ks| == |vs| && sp <= |ks| && sp <= order && |ks| - sp <= order
    requires Pictures(s.g[r := Blank(true)], order)
    requires n.next == s.g[n].next && (n.next != null ==> n.next in s.g && n.next != n)
    modifies n`keyCount, n`next, n.keys, n.values, (if n.next == null then {} else {n.next})`prev
    modifies r`keyCount, r.keys, r.values, r`next, r`prev
    ensures Pictures(LeafOverflowEdits(s, n, r, ks, vs, sp), order)
  {
    hide Pictures;
    ghost var g: map<Node, Rec> := s.g[r := Blank(true)];
    FillLeaf(g, order, n, ks[..sp], vs[..sp]);
    g := g[n := g[n].(keys := ks[..sp], vals := vs[..sp])];
    FillLeaf(g, order, r, ks[sp..], vs[sp..]);
    g := g[r := g[r].(keys := ks[sp..], vals := vs[sp..])];
    SetNext(g, order, r, n.next);
    g := g[r := g[r].(next := n.next)];
    if n.next != null {
      SetPrev(g, order, n.next, r);
    }
    g := Relink(g, n.next, r);
    SetNext(g, order, n, r);
    g := g[n := g[n].(next := r)];
    SetPrev(g, order, r, n);
  }

  // ----- searching

  lemma ChildCovers(s: Shape, n: Node, i: nat, k: Bytes)
    requires Inv(s) && InnerIn(s, n) && CoversIn(s, n, k) && i <= |s.g[n].keys|
    requires i > 0 ==> Pos(s.g[n].keys[i - 1]) <= Pos(k)
    requires i < |s.g[n].keys| ==> Pos(k) < Pos(s.g[n].keys[i])
    ensures i < |s.g[n].kids|
    ensures var c := s.g[n].kids[i]; c in NodesOf(s) && CoversIn(s, c, k) && RankOf(s, c) < RankOf(s, n)
  {
    hide Pos, Sorted, Chain, Holds, Hangs, RootOk;
    assert NodeOk(s.g, n);
    assert ChildOk(s.g, n, i);
  }

  lemma InnerSorted(s: Shape, n: Node)
    requires Inv(s) && InnerIn(s, n)
    ensures Sorted(s.g[n].keys) && |s.g[n].kids| == |s.g[n].keys| + 1
  {
    hide Pos, Sorted, Chain, Holds, Hangs, RootOk;
    assert NodeOk(s.g, n);
  }

  /** The child to descend into for `k`, found by scanning the separators. */
  method ChildFor(ghost s: Shape, n: Node, k: Bytes, ghost order: nat) returns (c: Node)
    requires PicturesShape(s, order) && Inv(s) && InnerIn(s, n) && CoversIn(s, n, k)
    ensures PicturesShape(s, order)
    ensures c in NodesOf(s) && CoversIn(s, c, k) && RankOf(s, c) < RankOf(s, n)
  {
    hide Pos, Inv, Compare, Sorted;
    Seen(s.g, order, n);
    InnerSorted(s, n);
    var index := 0;
    assert forall i :: 0 <= i < n.keyCount ==> n.keys[i] == s.g[n].keys[i];
    while index < n.keyCount && Compare(k, n.keys[index]) >= 0
      invariant 0 <= index <= n.keyCount
      invariant index > 0 ==> Pos(n.keys[index - 1]) <= Pos(k)
    {
      CompareIsPos(k, n.keys[index]);
      index := index + 1;
    }
    if index < n.keyCount { CompareIsPos(k, n.keys[index]); }
    ChildCovers(s, n, index, k);
    assert n.children[index] == n.Children()[index];
    c := n.children[index];
  }

  /** The child to descend into for `k`, found by binary search. */
  method ChildByKey(ghost s: Shape, n: Node, k: Bytes, ghost order: nat) returns (c: Node)
    requires PicturesShape(s, order) && Inv(s) && InnerIn(s, n) && CoversIn(s, n, k)
    ensures PicturesShape(s, order)
    ensures c in NodesOf(s) && CoversIn(s, c, k) && RankOf(s, c) < RankOf(s, n)
  {
    hide Pos, Inv, Compare, Sorted;
    Seen(s.g, order, n);
    InnerSorted(s, n);
    assert forall i :: 0 <= i < n.keyCount ==> n.keys[i] == s.g[n].keys[i];
    assert forall i :: 0 <= i <= n.keyCount ==> n.children[i] == s.g[n].kids[i];
    var index := n.FindKey(k, false);
    if index >= n.keyCount {
      ChildCovers(s, n, n.keyCount, k);
      c := n.children[n.keyCount];
    } else {
      CompareIsPos(k, n.keys[index]);
      if Compare(k, n.keys[index]) < 0 {
        ChildCovers(s, n, index, k);
        c := n.children[index];
      } else {
        if index + 1 < n.keyCount { SortedAt(s.g[n].keys, index, index + 1); }
        ChildCovers(s, n, index + 1, k);
        c := n.children[index + 1];
      }
    }
  }

  /** Looks `k` up in the leaf that covers it. */
  method FindInLeaf(ghost s: Shape, n: Node, k: Bytes, ghost order: nat) returns (index: int)
    requires PicturesShape(s, order) && Inv(s) && LeafIn(s, n) && CoversIn(s, n, k)
    ensures index >= 0 ==>
      FoundAt(s, n, index, k) && k in MapOf(s) && n.values.Length > index && n.values[index] == MapOf(s)[k]
    ensures index < 0 ==> k !in MapOf(s)
    ensures PicturesShape(s, order)
  {
    hide Pos, Inv, Sorted, LeafOk;
    NextFacts(s, n);
    Seen(s.g, order, n);
    LeafInvFacts(s, n);
    assert forall i :: 0 <= i < n.keyCount ==> n.keys[i] == s.g[n].keys[i] && n.values[i] == s.g[n].vals[i];
    index := n.FindKey(k, true);
    assert index >= 0 ==> s.g[n].keys[index] == k;
    assert index < 0 ==> k !in s.g[n].keys;
  }

  /** Where a key that is not in the leaf belongs. */
  method PlaceInLeaf(ghost s: Shape, n: Node, k: Bytes, ghost order: nat) returns (index: nat)
    requires PicturesShape(s, order) && Inv(s) && LeafIn(s, n) && CoversIn(s, n, k) && k !in MapOf(s)
    ensures Fits(s, n, index, k)
    ensures PicturesShape(s, order)
  {
    hide Pos, Inv, Sorted, LeafOk;
    NextFacts(s, n);
    Seen(s.g, order, n);
    LeafInvFacts(s, n);
    assert forall i :: 0 <= i < n.keyCount ==> n.keys[i] == s.g[n].keys[i];
    var at := n.FindKey(k, false);
    index := at;
    forall j | index <= j < |s.g[n].keys| ensures Pos(k) < Pos(s.g[n].keys[j]) {
      PosInjective(k, s.g[n].keys[j]);
    }
  }

  lemma PosInjective(a: Bytes, b: Bytes)
    ensures Pos(a) == Pos(b) ==> a == b
  {
    CompareIsPos(a, b);
  }

  // ----- deletion

  /** The slot of a node in its parent, found by scanning the children. */
  method SlotIn(ghost s: Shape, n: Node, p: Node, ghost order: nat) returns (i: nat)
    requires PicturesShape(s, order) && Inv(s) && n in NodesOf(s) && n != s.root && s.g[n].parent == p
    ensures PicturesShape(s, order) && IsSlot(s, p, i, n)
  {
    hide Pos, Inv, Sorted;
    HangsFacts(s, n);
    Seen(s.g, order, p);
    assert forall j :: 0 <= j <= p.keyCount ==> p.children[j] == s.g[p].kids[j];
    i := 0;
    while i < p.keyCount && p.children[i] != n
      invariant 0 <= i <= p.keyCount
      invariant forall j :: 0 <= j < i ==> p.children[j] != n
    {
      i := i + 1;
    }
  }

  lemma HangsFacts(s: Shape, n: Node)
    requires Inv(s) && n in s.g && n != s.root
    ensures var p := s.g[n].parent;
      p != null && p in s.g && !s.g[p].leaf && n in s.g[p].kids && |s.g[p].kids| == |s.g[p].keys| + 1 && p != n
    ensures s.g[s.g[n].parent].rank == s.g[n].rank + 1
  {
    hide Pos, Sorted, Chain, Holds, RootOk;
    assert Hangs(s.g, n);
    assert NodeOk(s.g, s.g[n].parent);
    var i := SlotOf(s.g, n);
  }

  ghost function BorrowLeftEdits(s: Shape, p: Node, j: nat, left: Node, right: Node): map<Node, Rec>
    requires left in s.g && right in s.g && p in s.g && left != right && left != p && right != p
    requires 0 < |s.g[left].keys| == |s.g[left].vals| && |s.g[right].keys| == |s.g[right].vals| && j < |s.g[p].keys|
  {
    var l := |s.g[left].keys| - 1;
    var k, v := s.g[left].keys[l], s.g[left].vals[l];
    var g1: map<Node, Rec> := s.g[right := s.g[right].(keys := Insert(s.g[right].keys, 0, k),
      vals := Insert(s.g[right].vals, 0, v))];
    var g2: map<Node, Rec> := g1[left := g1[left].(keys := Remove(g1[left].keys, l), vals := Remove(g1[left].vals, l))];
    g2[p := g2[p].(keys := g2[p].keys[j := k])]
  }

  lemma BorrowLeftPicture(s: Shape, p: Node, j: nat, left: Node, right: Node)
    requires Siblings(s, p, j, left, right)
    requires 1 < |s.g[left].keys| == |s.g[left].vals| && |s.g[right].keys| == |s.g[right].vals|
    ensures SamePicture(BorrowLeftEdits(s, p, j, left, right), Redealt(s, p, j, left, right, |s.g[left].keys| - 1).g)
  {
    hide Pos;
    var l, r := s.g[left], s.g[right];
    var i := |l.keys| - 1;
    var f := FusedLeaf(l, r);
    assert f.keys[..i] == Remove(l.keys, i) && f.vals[..i] == Remove(l.vals, i);
    assert f.keys[i..] == Insert(r.keys, 0, l.keys[i]) && f.vals[i..] == Insert(r.vals, 0, l.vals[i]);
  }

  method LinkBorrowLeft(ghost s: Shape, p: Node, j: nat, left: Node, right: Node, ghost order: nat)
    requires PicturesShape(s, order) && Siblings(s, p, j, left, right) && s.g[left].leaf
    requires 1 < |s.g[left].keys| == |s.g[left].vals| && |s.g[right].keys| == |s.g[right].vals| < order
    modifies left`keyCount, left.keys, left.values, left.children, right`keyCount, right.keys, right.values, p.keys
    ensures PicturesShape(Redealt(s, p, j, left, right, |s.g[left].keys| - 1), order)
  {
    hide Pos, Pictures, Insert, Remove, Redealt;
    Seen(s.g, order, left);
    assert forall i :: 0 <= i < left.keyCount ==>
      left.keys[i] == s.g[left].keys[i] && left.values[i] == s.g[left].vals[i];
    var l := left.keyCount - 1;
    var k, v := left.keys[l], left.values[l];
    InsertEntry(s.g, order, right, 0, k, v);
    ghost var g: map<Node, Rec> := s.g[right := s.g[right].(keys := Insert(s.g[right].keys, 0, k),
      vals := Insert(s.g[right].vals, 0, v))];
    RemoveEntry(g, order, left, l);
    g := g[left := g[left].(keys := Remove(g[left].keys, l), vals := Remove(g[left].vals, l))];
    SetKey(g, order, p, j, k);
    BorrowLeftPicture(s, p, j, left, right);
    Reshade(BorrowLeftEdits(s, p, j, left, right), Redealt(s, p, j, left, right, |s.g[left].keys| - 1).g, order);
  }

  ghost function BorrowRightEdits(s: Shape, p: Node, j: nat, left: Node, right: Node): map<Node, Rec>
    requires left in s.g && right in s.g && p in s.g && left != right && left != p && right != p
    requires |s.g[left].keys| == |s.g[left].vals| && 1 < |s.g[right].keys| == |s.g[right].vals| && j < |s.g[p].keys|
  {
    var l := |s.g[left].keys|;
    var k, v := s.g[right].keys[0], s.g[right].vals[0];
    var g1: map<Node, Rec> := s.g[left := s.g[left].(keys := Insert(s.g[left].keys, l, k),
      vals := Insert(s.g[left].vals, l, v))];
    var g2: map<Node, Rec> := g1[right := g1[right].(keys := Remove(g1[right].keys, 0),
      vals := Remove(g1[right].vals, 0))];
    g2[p := g2[p].(keys := g2[p].keys[j := s.g[right].keys[1]])]
  }

  lemma BorrowRightPicture(s: Shape, p: Node, j: nat, left: Node, right: Node)
    requires Siblings(s, p, j, left, right)
    requires |s.g[left].keys| == |s.g[left].vals| && 1 < |s.g[right].keys| == |s.g[right].vals|
    ensures SamePicture(BorrowRightEdits(s, p, j, left, right), Redealt(s, p, j, left, right, |s.g[left].keys| + 1).g)
  {
    hide Pos;
    var l, r := s.g[left], s.g[right];
    var i := |l.keys| + 1;
    var f := FusedLeaf(l, r);
    assert f.keys[..i] == Insert(l.keys, |l.keys|, r.keys[0]) && f.vals[..i] == Insert(l.vals, |l.vals|, r.vals[0]);
    assert f.keys[i..] == Remove(r.keys, 0) && f.vals[i..] == Remove(r.vals, 0);
  }

  method LinkBorrowRight(ghost s: Shape, p: Node, j: nat, left: Node, right: Node, ghost order: nat)
    requires PicturesShape(s, order) && Siblings(s, p, j, left, right) && s.g[left].leaf
    requires |s.g[left].keys| == |s.g[left].vals| < order && 1 < |s.g[right].keys| == |s.g[right].vals|
    modifies left`keyCount, left.keys, left.values, right`keyCount, right.keys, right.values, right.children, p.keys
    ensures PicturesShape(Redealt(s, p, j, left, right, |s.g[left].keys| + 1), order)
  {
    hide Pos, Pictures, Insert, Redealt;
    Seen(s.g, order, left);
    Seen(s.g, order, right);
    assert forall i :: 0 <= i < right.keyCount ==>
      right.keys[i] == s.g[right].keys[i] && right.values[i] == s.g[right].vals[i];
    var k, v := right.keys[0], right.values[0];
    InsertEntry(s.g, order, left, left.keyCount, k, v);
    ghost var l := |s.g[left].keys|;
    ghost var g: map<Node, Rec> := s.g[left := s.g[left].(keys := Insert(s.g[left].keys, l, k),
      vals := Insert(s.g[left].vals, l, v))];
    RemoveEntry(g, order, right, 0);
    g := g[right := g[right].(keys := Remove(g[right].keys, 0), vals := Remove(g[right].vals, 0))];
    Seen(g, order, right);
    assert right.keys[0] == right.Keys()[0] == s.g[right].keys[1];
    SetKey(g, order, p, j, right.keys[0]);
    BorrowRightPicture(s, p, j, left, right);
    Reshade(BorrowRightEdits(s, p, j, left, right), Redealt(s, p, j, left, right, |s.g[left].keys| + 1).g, order);
  }

  ghost function MergeLeavesEdits(s: Shape, p: Node, j: nat, left: Node, right: Node): map<Node, Rec>
    requires Siblings(s, p, j, left, right)
  {
    var l, r := s.g[left], s.g[right];
    var g1: map<Node, Rec> := s.g[left := l.(keys := l.keys + r.keys, vals := l.vals + r.vals)];
    var g2: map<Node, Rec> := g1[left := g1[left].(next := r.next)];
    var g3: map<Node, Rec> := Relink(g2, r.next, left);
    var g4: map<Node, Rec> := g3[p := g3[p].(keys := Remove(g3[p].keys, j), kids := Remove(g3[p].kids, j + 1))];
    g4 - {right}
  }

  lemma MergeLeavesPicture(s: Shape, p: Node, j: nat, left: Node, right: Node, a: nat)
    requires Siblings(s, p, j, left, right) && a + 1 < |s.leaves|
    requires s.g[right].next != left && s.g[right].next != right && s.g[right].next != p
    ensures SamePicture(MergeLeavesEdits(s, p, j, left, right), LeavesMerged(s, p, j, left, right, a).g)
  {
    hide Pos, Remove;
  }

  method LinkMergeLeaves(ghost s: Shape, p: Node, j: nat, left: Node, right: Node, ghost a: nat, ghost order: nat)
    requires PicturesShape(s, order) && Siblings(s, p, j, left, right) && s.g[left].leaf && a + 1 < |s.leaves|
    requires |s.g[left].keys| == |s.g[left].vals| && |s.g[right].keys| == |s.g[right].vals|
    requires |s.g[left].keys| + |s.g[right].keys| <= order
    requires s.g[right].next != left && s.g[right].next != right && s.g[right].next != p
    requires s.g[right].next != null ==> s.g[right].next in s.g
    requires right.next == s.g[right].next
    modifies left`keyCount, left.keys, left.values, left`next, (if right.next == null then {} else {right.next})`prev
    modifies p`keyCount, p.keys, p.values, p.children
    ensures PicturesShape(LeavesMerged(s, p, j, left, right, a), order)
  {
    hide Pos, Pictures, Remove, LeavesMerged;
    Seen(s.g, order, left);
    Seen(s.g, order, right);
    ghost var l, r := s.g[left], s.g[right];
    FillLeaf(s.g, order, left, left.keys[..left.keyCount] + right.keys[..right.keyCount],
             left.values[..left.keyCount] + right.values[..right.keyCount]);
    ghost var g: map<Node, Rec> := s.g[left := l.(keys := l.keys + r.keys, vals := l.vals + r.vals)];
    SetNext(g, order, left, right.next);
    g := g[left := g[left].(next := r.next)];
    if right.next != null {
      SetPrev(g, order, right.next, left);
    }
    g := Relink(g, r.next, left);
    RemoveChild(g, order, p, j);
    g := g[p := g[p].(keys := Remove(g[p].keys, j), kids := Remove(g[p].kids, j + 1))];
    Forget(g, order, right);
    MergeLeavesPicture(s, p, j, left, right, a);
    Reshade(MergeLeavesEdits(s, p, j, left, right), LeavesMerged(s, p, j, left, right, a).g, order);
  }

  ghost function MergeInnersEdits(s: Shape, p: Node, j: nat, left: Node, right: Node): map<Node, Rec>
    requires Siblings(s, p, j, left, right)
  {
    var l, r := s.g[left], s.g[right];
    var g1: map<Node, Rec> := s.g[left := l.(keys := l.keys + [s.g[p].keys[j]] + r.keys, kids := l.kids + r.kids)];
    var g2: map<Node, Rec> := Adopt(g1, r.kids, left);
    g2[p := s.g[p].(keys := Remove(s.g[p].keys, j), kids := Remove(s.g[p].kids, j + 1))] - {right}
  }

  lemma MergeInnersPicture(s: Shape, p: Node, j: nat, left: Node, right: Node)
    requires Siblings(s, p, j, left, right)
    requires left !in s.g[right].kids && right !in s.g[right].kids && p !in s.g[right].kids
    ensures SamePicture(MergeInnersEdits(s, p, j, left, right), InnersMerged(s, p, j, left, right).g)
  {
    hide Pos, Remove;
  }

  lemma KidsBelow(s: Shape, n: Node)
    requires Inv(s) && InnerIn(s, n)
    ensures forall c :: c in s.g[n].kids ==> c in s.g && s.g[c].rank + 1 == s.g[n].rank
    ensures null !in s.g[n].kids
  {
    hide Pos, Sorted, Chain, Holds, Hangs, RootOk;
    assert NodeOk(s.g, n);
    forall c | c in s.g[n].kids ensures c in s.g && s.g[c].rank + 1 == s.g[n].rank {
      var i :| 0 <= i < |s.g[n].kids| && s.g[n].kids[i] == c;
      assert ChildOk(s.g, n, i);
    }
  }

  method LinkMergeInners(ghost s: Shape, p: Node, j: nat, left: Node, right: Node, ghost order: nat)
    requires PicturesShape(s, order) && Inv(s) && Siblings(s, p, j, left, right) && !s.g[left].leaf
    requires |s.g[left].keys| + |s.g[right].keys| + 1 <= order
    modifies left`keyCount, left.keys, left.children, (set c | c in s.g[right].kids && c in s.g)`parent
    modifies p`keyCount, p.keys, p.values, p.children
    ensures PicturesShape(InnersMerged(s, p, j, left, right), order)
  {
    hide Pos, Pictures, Inv, Remove, InnersMerged, Adopt, NodeOk;
    SiblingFacts(s, p, j, left, right);
    KidsBelow(s, right);
    KidsBelow(s, left);
    InnerSorted(s, left);
    InnerSorted(s, right);
    Seen(s.g, order, left);
    Seen(s.g, order, right);
    Seen(s.g, order, p);
    ghost var l, r := s.g[left], s.g[right];
    var rk, rc := right.keys[..right.keyCount], right.children[..right.keyCount + 1];
    assert p.keys[j] == p.Keys()[j];
    FillInner(s.g, order, left, left.keys[..left.keyCount] + [p.keys[j]] + rk, left.children[..left.keyCount + 1] + rc);
    ghost var g: map<Node, Rec> := s.g[left := l.(keys := l.keys + [s.g[p].keys[j]] + r.keys, kids := l.kids + r.kids)];
    AdoptAll(g, order, left, rc);
    AdoptAt(g, r.kids, left, p);
    FinishMergeInners(s, Adopt(g, r.kids, left), p, j, left, right, order);
  }

  /** Drops the separator and the right node once its children have moved over. */
  method FinishMergeInners(ghost s: Shape, ghost g: map<Node, Rec>, p: Node, j: nat, ghost left: Node,
    ghost right: Node, ghost order: nat)
    requires Pictures(g, order) && Siblings(s, p, j, left, right) && p in g && g[p] == s.g[p]
    requires !s.g[p].leaf && |s.g[p].kids| == |s.g[p].keys| + 1
    requires left !in s.g[right].kids && right !in s.g[right].kids && p !in s.g[right].kids
    requires var l, r := s.g[left], s.g[right];
      g == Adopt(s.g[left := l.(keys := l.keys + [s.g[p].keys[j]] + r.keys, kids := l.kids + r.kids)], r.kids, left)
    modifies p`keyCount, p.keys, p.values, p.children
    ensures PicturesShape(InnersMerged(s, p, j, left, right), order)
  {
    hide Pos, Pictures, Remove, InnersMerged, Adopt;
    RemoveChild(g, order, p, j);
    Forget(g[p := s.g[p].(keys := Remove(s.g[p].keys, j), kids := Remove(s.g[p].kids, j + 1))], order, right);
    MergeInnersPicture(s, p, j, left, right);
    Reshade(MergeInnersEdits(s, p, j, left, right), InnersMerged(s, p, j, left, right).g, order);
  }

  method LinkCollapse(ghost s: Shape, c: Node, ghost order: nat)
    requires PicturesShape(s, order) && OnlyChild(s, c) && c != s.root
    modifies c`parent
    ensures PicturesShape(Collapsed(s, c), order)
  {
    hide Pictures;
    SetParent(s.g, order, c, null);
    ghost var g: map<Node, Rec> := s.g[c := s.g[c].(parent := null)];
    Forget(g, order, s.root);
    assert g - {s.root} == Collapsed(s, c).g;
  }
}
