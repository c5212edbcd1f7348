/**
  The steps of the B+tree engine on shapes: what each edit makes of a shape, and that it
  keeps the invariant, the represented map, the counters and the minimum fill.
 */
module BTreeSteps {
  import opened Bytes
  import opened BTreeNodes
  import opened BTreeShape

  // ----- views of a shape

  ghost function NodesOf(s: Shape): set<Node> {
    s.g.Keys
  }

  ghost function MapOf(s: Shape): map<Bytes, Value> {
    s.m
  }

  ghost function RankOf(s: Shape, n: Node): nat {
    if n in s.g then s.g[n].rank else 0
  }

  ghost predicate LeafIn(s: Shape, n: Node) {
    n in s.g && s.g[n].leaf
  }

  ghost predicate InnerIn(s: Shape, n: Node) {
    n in s.g && !s.g[n].leaf
  }

  ghost predicate CoversIn(s: Shape, n: Node, k: Bytes) {
    n in s.g && s.g[n].Covers(k)
  }

  /** `sep` is the least position of the range of `right`. */
  ghost predicate StartsAt(s: Shape, right: Node, sep: Bytes) {
    right in s.g && Pos(sep) == s.g[right].lo
  }

  ghost predicate IsParent(s: Shape, n: Node, p: Node) {
    n in s.g && p in s.g && s.g[n].parent == p
  }

  /** `n` sits in slot `i` of `p`. */
  ghost predicate IsSlot(s: Shape, p: Node, i: nat, n: Node) {
    p in s.g && !s.g[p].leaf && i <= |s.g[p].keys| && |s.g[p].kids| == |s.g[p].keys| + 1 && s.g[p].kids[i] == n
  }

  ghost function FillOf(s: Shape, n: Node): nat {
    if n in s.g then |s.g[n].keys| else 0
  }

  /** End pointers and counters. */
  datatype Tally = Tally(root: Node, first: Node, last: Node, keys: nat, leaves: nat, nodes: nat, height: nat)

  ghost predicate TallyOk(s: Shape, t: Tally) {
    && t.root == s.root
    && |s.leaves| > 0 && t.first == s.leaves[0] && t.last == s.leaves[|s.leaves| - 1]
    && t.keys == |s.m| && t.leaves == |s.leaves| && t.nodes == |s.g|
    && s.root in s.g && t.height == s.g[s.root].rank + 1
  }

  /** Least number of keys of a node other than the root. */
  function MinFill(order: nat): (m: int)
    ensures order >= MIN_ORDER ==> m >= 1
  {
    (order + 1) / 2 - 1
  }

  /** How many entries stay in a full leaf when one more makes it split. */
  function LeafPoint(order: nat): (i: nat)
    requires MIN_ORDER <= order
    ensures 0 < i <= order && i >= MinFill(order) && order + 1 - i >= MinFill(order)
  {
    (order + 1) / 2
  }

  /** How many separators stay in a full inner node when one more makes it split. */
  function InnerPoint(order: nat): (i: nat)
    requires MIN_ORDER <= order
    ensures 0 < i < order && i >= MinFill(order) && order - i >= MinFill(order)
  {
    order / 2
  }

  /** Every node but the root and `x` has the minimum fill, and `x` lacks at most one key. */
  ghost predicate FilledBut(s: Shape, order: nat, x: Node) {
    && s.root in s.g
    && (forall n :: n in s.g && n != s.root && n != x ==> |s.g[n].keys| >= MinFill(order))
    && (x in s.g && x != s.root ==> |s.g[x].keys| >= MinFill(order) - 1)
    && (x != s.root && !s.g[s.root].leaf ==> |s.g[s.root].keys| >= 1)
  }

  ghost predicate Filled(s: Shape, order: nat) {
    && s.root in s.g
    && (forall n :: n in s.g && n != s.root ==> |s.g[n].keys| >= MinFill(order))
    && (!s.g[s.root].leaf ==> |s.g[s.root].keys| >= 1)
  }

  lemma PendingFacts(s: Shape, left: Node, right: Node)
    requires Pending(s, left, right)
    ensures left in s.g && right in s.g && left != right && right != s.root && s.root in s.g
    ensures s.g[left].leaf == s.g[right].leaf
    ensures s.g[s.root].parent == null
    ensures left != s.root ==> Hangs(s.g, left) && s.g[left].parent != null
    ensures s.g[left].rank <= s.g[s.root].rank
    ensures |s.leaves| > 0
  {
    hide Pos, Holds, NodeOk, PendingRest, LinkOk;
    assert left != s.root ==> Hangs(s.g, left);
    var u := Unsplit(s.g, left, right);
    assert u[left].rank == s.g[left].rank && u[s.root].rank == s.g[s.root].rank;
  }

  // ----- a new root

  ghost function GrownRoot(s: Shape, right: Node, r: Node, sep: Bytes): Shape
    requires s.root in s.g && right in s.g
  {
    s.(root := r,
       g := s.g[s.root := s.g[s.root].(parent := r)]
               [right := s.g[right].(parent := r)]
               [r := Rec(false, [sep], [], [s.root, right], null, null, null, BOTTOM, TOP, s.g[s.root].rank + 1)])
  }

  lemma GrowRootStep(s: Shape, right: Node, r: Node, sep: Bytes, t: Tally, order: nat)
    requires Pending(s, s.root, right) && StartsAt(s, right, sep) && r !in NodesOf(s) && s.root in s.g && TallyOk(s, t)
    ensures var s' := GrownRoot(s, right, r, sep);
      && Inv(s') && MapOf(s') == MapOf(s) && NodesOf(s') == NodesOf(s) + {r}
      && TallyOk(s', t.(root := r, nodes := t.nodes + 1, height := t.height + 1))
      && (Filled(s, order) && FillOf(s, s.root) >= MinFill(order) ==> Filled(s', order))
  {
    hide Pos, Inv, Pending;
    PendingFacts(s, s.root, right);
    NewRoot(s, right, r, sep, GrownRoot(s, right, r, sep));
  }

  // ----- a new child below an existing parent

  ghost function Attached(s: Shape, right: Node, p: Node, sep: Bytes, i: nat): Shape
    requires right in s.g && p in s.g && i <= |s.g[p].keys| && i < |s.g[p].kids|
  {
    s.(g := s.g[right := s.g[right].(parent := p)][p := AttachedParent(s.g[p], i, sep, right)])
  }

  /** The left half waits below `p`, in slot `i`. */
  ghost predicate Waits(s: Shape, left: Node, right: Node, p: Node, sep: Bytes, i: nat) {
    && Pending(s, left, right) && left != s.root && StartsAt(s, right, sep)
    && IsParent(s, left, p) && IsSlot(s, p, i, left) && p != right && p != left
    && s.g[p].rank == s.g[left].rank + 1
    && InnerOk(Unsplit(s.g, left, right), p)
    && s.g[p].Lower(i) < Pos(sep) < s.g[p].Upper(i)
  }

  lemma FindSlot(s: Shape, left: Node, right: Node, sep: Bytes) returns (i: nat, p: Node)
    requires Pending(s, left, right) && left != s.root && StartsAt(s, right, sep)
    ensures Waits(s, left, right, p, sep, i)
  {
    hide Pos, Sorted, Chain, Holds, NodeOk, PendingRest, RootOk, InnerOk;
    PendingFacts(s, left, right);
    p := s.g[left].parent;
    PendingParent(s, left, right);
    i :| 0 <= i < |s.g[p].kids| && s.g[p].kids[i] == left;
    AttachSlot(s, left, right, p, sep, i, Attached(s, right, p, sep, i));
  }

  /** A parent is neither half, and has one child more than separators. */
  lemma PendingParent(s: Shape, left: Node, right: Node)
    requires Pending(s, left, right) && left != s.root
    ensures var p := s.g[left].parent;
      p != null && p in s.g && !s.g[p].leaf && p != left && p != right && |s.g[p].kids| == |s.g[p].keys| + 1
  {
    hide Pos, Sorted, Chain, Holds, RootOk;
    assert Hangs(s.g, left);
    var p := s.g[left].parent;
    assert NodeOk(s.g, left) && NodeOk(s.g, right);
    var j :| 0 <= j < |s.g[p].kids| && s.g[p].kids[j] == left;
    assert p == left ==> ChildOk(s.g, left, j);
    assert p == right ==> ChildOk(s.g, right, j);
    var u := Unsplit(s.g, left, right);
    assert p != left && p != right ==> NodeOk(u, p);
  }

  lemma AttachShape(s: Shape, left: Node, right: Node, p: Node, sep: Bytes, i: nat)
    requires Waits(s, left, right, p, sep, i)
    ensures var s' := Attached(s, right, p, sep, i);
      && Inv(s') && MapOf(s') == MapOf(s) && NodesOf(s') == NodesOf(s) && s'.root == s.root && s'.leaves == s.leaves
      && (forall x :: x in s.g ==> s'.g[x].rank == s.g[x].rank && s'.g[x].leaf == s.g[x].leaf)
      && (forall x :: x in s.g && x != p ==> s'.g[x].keys == s.g[x].keys)
      && |s'.g[p].keys| == |s.g[p].keys| + 1
      && |s'.g| == |s.g|
  {
    hide Pos, Inv, Pending, InnerOk;
    PendingFacts(s, left, right);
    Attach(s, left, right, p, sep, i, Attached(s, right, p, sep, i));
  }

  lemma AttachShapeStep(s: Shape, left: Node, right: Node, p: Node, sep: Bytes, i: nat, t: Tally, order: nat)
    requires Waits(s, left, right, p, sep, i) && TallyOk(s, t)
    ensures var s' := Attached(s, right, p, sep, i);
      && Inv(s') && MapOf(s') == MapOf(s) && NodesOf(s') == NodesOf(s)
      && TallyOk(s', t)
      && (Filled(s, order) ==> Filled(s', order))
  {
    hide Pos, Inv, Pending, InnerOk, Attached;
    AttachShape(s, left, right, p, sep, i);
  }

  lemma FilledSplit(s: Shape, s': Shape, n: Node, r: Node, order: nat)
    requires MIN_ORDER <= order && n in s.g && r !in s.g && s'.root == s.root && s'.g.Keys == s.g.Keys + {r}
    requires forall x :: x in s.g ==> s'.g[x].leaf == s.g[x].leaf
    requires forall x :: x in s.g && x != n ==> |s'.g[x].keys| >= |s.g[x].keys|
    requires |s'.g[n].keys| >= MinFill(order) && |s'.g[r].keys| >= MinFill(order)
    ensures Filled(s, order) ==> Filled(s', order)
  {}

  // ----- splitting a full inner node while a child is added to it

  ghost function InnerCut(s: Shape, p: Node, r: Node, i: nat): Shape
    requires p in s.g && i < |s.g[p].keys| && |s.g[p].kids| == |s.g[p].keys| + 1
  {
    s.(g := Adopt(s.g, InnerRight(s.g[p], i).kids, r)[p := InnerLeft(s.g[p], i)][r := InnerRight(s.g[p], i)])
  }

  lemma InnerCutShape(s: Shape, p: Node, r: Node, i: nat)
    requires Inv(s) && InnerIn(s, p) && r !in NodesOf(s) && i < |s.g[p].keys|
    requires |s.g[p].kids| == |s.g[p].keys| + 1
    ensures var s' := InnerCut(s, p, r, i);
      && Pending(s', p, r) && StartsAt(s', r, s.g[p].keys[i])
      && s'.root == s.root && s'.leaves == s.leaves && s'.m == s.m
      && s'.g.Keys == s.g.Keys + {r} && |s'.g| == |s.g| + 1
      && (forall x :: x in s.g ==> s'.g[x].rank == s.g[x].rank && s'.g[x].leaf == s.g[x].leaf)
      && (forall x :: x in s.g && x != p ==> s'.g[x].keys == s.g[x].keys)
      && |s'.g[p].keys| == i && |s'.g[r].keys| == |s.g[p].keys| - i - 1
  {
    hide Pos, Inv, Pending;
    InnerSplit(s, p, r, i, InnerCut(s, p, r, i));
    InnerSplitKeys(s, p, r, i, InnerCut(s, p, r, i));
    assert |s.g.Keys + {r}| == |s.g.Keys| + 1;
  }

  /** Adding a child to a full node and cutting the result in two. */
  ghost function Overflowed(s: Shape, right: Node, p: Node, sep: Bytes, i: nat, r: Node, order: nat): Shape
    requires MIN_ORDER <= order && right in s.g && p in s.g && i <= |s.g[p].keys| == order
    requires |s.g[p].kids| == |s.g[p].keys| + 1
  {
    InnerCut(Attached(s, right, p, sep, i), p, r, InnerPoint(order))
  }

  /** The separator that moves up. */
  ghost function Promoted(s: Shape, p: Node, sep: Bytes, i: nat, order: nat): Bytes
    requires MIN_ORDER <= order && p in s.g && i <= |s.g[p].keys| == order
  {
    Insert(s.g[p].keys, i, sep)[InnerPoint(order)]
  }

  lemma OverflowStep(s: Shape, left: Node, right: Node, p: Node, sep: Bytes, i: nat, r: Node, t: Tally, order: nat)
    requires MIN_ORDER <= order && Waits(s, left, right, p, sep, i) && TallyOk(s, t) && r !in NodesOf(s)
    requires FillOf(s, p) == order
    ensures var s' := Overflowed(s, right, p, sep, i, r, order);
      && Pending(s', p, r) && StartsAt(s', r, Promoted(s, p, sep, i, order))
      && MapOf(s') == MapOf(s) && NodesOf(s') == NodesOf(s) + {r}
      && RankOf(s', p) == RankOf(s, left) + 1
      && TallyOk(s', t.(nodes := t.nodes + 1))
      && (Filled(s, order) ==> Filled(s', order)) && FillOf(s', p) >= MinFill(order)
  {
    hide Pos, Inv, Pending, InnerOk, InnerCut;
    AttachShape(s, left, right, p, sep, i);
    InnerCutShape(Attached(s, right, p, sep, i), p, r, InnerPoint(order));
  }

  // ----- the entries of one leaf

  ghost function LeafRewritten(s: Shape, n: Node, ks: seq<Bytes>, vs: seq<Value>, m: map<Bytes, Value>): Shape
    requires n in s.g
  {
    s.(g := s.g[n := s.g[n].(keys := ks, vals := vs)], m := m)
  }

  ghost function EntryAdded(s: Shape, n: Node, i: nat, k: Bytes, v: Value): Shape
    requires n in s.g && i <= |s.g[n].keys| && i <= |s.g[n].vals|
  {
    LeafRewritten(s, n, Insert(s.g[n].keys, i, k), Insert(s.g[n].vals, i, v), s.m[k := v])
  }

  ghost function EntrySet(s: Shape, n: Node, i: nat, k: Bytes, v: Value): Shape
    requires n in s.g && i < |s.g[n].vals|
  {
    LeafRewritten(s, n, s.g[n].keys, s.g[n].vals[i := v], s.m[k := v])
  }

  ghost function EntryDropped(s: Shape, n: Node, i: nat, k: Bytes): Shape
    requires n in s.g && i < |s.g[n].keys| && i < |s.g[n].vals|
  {
    LeafRewritten(s, n, Remove(s.g[n].keys, i), Remove(s.g[n].vals, i), s.m - {k})
  }

  /** `i` is where `k` belongs among the keys of leaf `n`, and `k` is not there. */
  ghost predicate Fits(s: Shape, n: Node, i: nat, k: Bytes) {
    && LeafIn(s, n) && CoversIn(s, n, k) && i <= |s.g[n].keys| == |s.g[n].vals| && k !in s.g[n].keys
    && (forall j :: 0 <= j < i ==> Pos(s.g[n].keys[j]) < Pos(k))
    && (forall j :: i <= j < |s.g[n].keys| ==> Pos(k) < Pos(s.g[n].keys[j]))
  }

  /** `k` is the `i`-th key of leaf `n`. */
  ghost predicate FoundAt(s: Shape, n: Node, i: nat, k: Bytes) {
    && LeafIn(s, n) && CoversIn(s, n, k) && i < |s.g[n].keys| == |s.g[n].vals| && s.g[n].keys[i] == k
  }

  lemma LeafInvFacts(s: Shape, n: Node)
    requires Inv(s) && LeafIn(s, n)
    ensures LeafOk(s.g[n]) && LeafHolds(s.g[n], s.m)
  {
    hide Pos, Sorted, Chain, RootOk, Hangs, LeafOk, LeafHolds;
    assert NodeOk(s.g, n);
    assert LeafHolds(s.g[n], s.m);
  }

  lemma AddedHolds(r: Rec, m: map<Bytes, Value>, i: nat, k: Bytes, v: Value)
    requires LeafHolds(r, m) && i <= |r.keys| && k !in r.keys
    ensures LeafHolds(r.(keys := Insert(r.keys, i, k), vals := Insert(r.vals, i, v)), m[k := v])
  {
    hide Pos, Insert;
    var r' := r.(keys := Insert(r.keys, i, k), vals := Insert(r.vals, i, v));
    InsertIndex(r.keys, i, k, r'.keys);
    InsertIndex(r.vals, i, v, r'.vals);
    forall x | x in m[k := v] && r'.Covers(x) ensures x in r'.keys {
      if x != k {
        assert r.Covers(x);
        var j :| 0 <= j < |r.keys| && r.keys[j] == x;
        assert r'.keys[if j < i then j else j + 1] == x;
      } else {
        assert r'.keys[i] == k;
      }
    }
  }

  lemma AddedOk(r: Rec, i: nat, k: Bytes, v: Value)
    requires LeafOk(r) && r.Covers(k) && i <= |r.keys|
    requires i > 0 ==> Pos(r.keys[i - 1]) < Pos(k)
    requires i < |r.keys| ==> Pos(k) < Pos(r.keys[i])
    ensures LeafOk(r.(keys := Insert(r.keys, i, k), vals := Insert(r.vals, i, v)))
  {
    hide Pos, Insert, Sorted;
    var r' := r.(keys := Insert(r.keys, i, k), vals := Insert(r.vals, i, v));
    SortedInsert(r.keys, i, k);
    InsertIndex(r.keys, i, k, r'.keys);
    InsertIndex(r.vals, i, v, r'.vals);
  }

  /** A key is in the map exactly when it is in the leaf that covers it. */
  lemma InMap(s: Shape, n: Node, k: Bytes)
    requires Inv(s) && LeafIn(s, n) && CoversIn(s, n, k)
    ensures k in s.m <==> k in s.g[n].keys
  {
    hide Pos, Inv, LeafOk;
    LeafInvFacts(s, n);
  }

  lemma AddEntry(s: Shape, n: Node, i: nat, k: Bytes, v: Value)
    requires Inv(s) && Fits(s, n, i, k)
    ensures var s' := EntryAdded(s, n, i, k, v);
      && Inv(s') && k !in s.m && s'.m == s.m[k := v] && |s'.m| == |s.m| + 1 && |s'.g| == |s.g| && s'.g.Keys == s.g.Keys
      && s'.root == s.root && s'.leaves == s.leaves
      && s'.g[n].keys == Insert(s.g[n].keys, i, k) && |s'.g[n].keys| == |s'.g[n].vals| == |s.g[n].keys| + 1
      && s'.g[n].next == s.g[n].next && s'.g[n].leaf && s'.g[n].rank == s.g[n].rank
      && (forall x :: x in s.g && x != n ==> s'.g[x] == s.g[x])
  {
    hide Pos, Inv, LeafOk, LeafHolds;
    LeafInvFacts(s, n);
    InMap(s, n, k);
    AddedHolds(s.g[n], s.m, i, k, v);
    AddedOk(s.g[n], i, k, v);
    var s' := EntryAdded(s, n, i, k, v);
    LeafChange(s, n, s'.g[n].keys, s'.g[n].vals, s'.m, s');
  }

  lemma AddEntryStep(s: Shape, n: Node, i: nat, k: Bytes, v: Value, t: Tally, order: nat)
    requires Inv(s) && Fits(s, n, i, k) && TallyOk(s, t)
    ensures var s' := EntryAdded(s, n, i, k, v);
      && Inv(s') && MapOf(s') == MapOf(s)[k := v] && k !in MapOf(s) && NodesOf(s') == NodesOf(s)
      && TallyOk(s', t.(keys := t.keys + 1))
      && (Filled(s, order) ==> Filled(s', order))
  {
    hide Pos, Inv, LeafOk, LeafHolds;
    AddEntry(s, n, i, k, v);
  }

  lemma SetEntryStep(s: Shape, n: Node, i: nat, k: Bytes, v: Value, t: Tally, order: nat)
    requires Inv(s) && FoundAt(s, n, i, k) && TallyOk(s, t)
    ensures var s' := EntrySet(s, n, i, k, v);
      && Inv(s') && MapOf(s') == MapOf(s)[k := v] && k in MapOf(s) && NodesOf(s') == NodesOf(s)
      && TallyOk(s', t)
      && (Filled(s, order) ==> Filled(s', order))
  {
    hide Pos, Inv, Sorted;
    LeafInvFacts(s, n);
    var s' := EntrySet(s, n, i, k, v);
    var r, r' := s.g[n], s'.g[n];
    assert s.m[k := v].Keys == s.m.Keys;
    assert forall j :: 0 <= j < |r.keys| && j != i ==> r.keys[j] != k by { SortedInjective(r.keys); }
    LeafChange(s, n, r'.keys, r'.vals, s'.m, s');
  }

  lemma SortedInjective(ks: seq<Bytes>)
    requires Sorted(ks)
    ensures forall i, j :: 0 <= i < |ks| && 0 <= j < |ks| && i != j ==> ks[i] != ks[j]
  {
    hide Pos;
  }

  lemma DroppedHolds(r: Rec, m: map<Bytes, Value>, i: nat)
    requires LeafHolds(r, m) && Sorted(r.keys) && i < |r.keys|
    ensures LeafHolds(r.(keys := Remove(r.keys, i), vals := Remove(r.vals, i)), m - {r.keys[i]})
  {
    hide Pos, Remove, Sorted;
    var r' := r.(keys := Remove(r.keys, i), vals := Remove(r.vals, i));
    RemoveIndex(r.keys, i, r'.keys);
    RemoveIndex(r.vals, i, r'.vals);
    SortedInjective(r.keys);
    forall x | x in m - {r.keys[i]} && r'.Covers(x) ensures x in r'.keys {
      assert r.Covers(x);
      var j :| 0 <= j < |r.keys| && r.keys[j] == x;
      assert r'.keys[if j < i then j else j - 1] == x;
    }
  }

  lemma DroppedOk(r: Rec, i: nat)
    requires LeafOk(r) && i < |r.keys|
    ensures LeafOk(r.(keys := Remove(r.keys, i), vals := Remove(r.vals, i)))
  {
    hide Pos, Remove;
    var r' := r.(keys := Remove(r.keys, i), vals := Remove(r.vals, i));
    RemoveIndex(r.keys, i, r'.keys);
    RemoveIndex(r.vals, i, r'.vals);
  }

  lemma DropEntryStep(s: Shape, n: Node, i: nat, k: Bytes, t: Tally, order: nat)
    requires Inv(s) && FoundAt(s, n, i, k) && TallyOk(s, t)
    ensures var s' := EntryDropped(s, n, i, k);
      && Inv(s') && MapOf(s') == MapOf(s) - {k} && k in MapOf(s) && NodesOf(s') == NodesOf(s)
      && t.keys > 0 && TallyOk(s', t.(keys := t.keys - 1))
      && (Filled(s, order) ==> FilledBut(s', order, n))
  {
    hide Pos, Inv, Sorted;
    LeafInvFacts(s, n);
    var s' := EntryDropped(s, n, i, k);
    DroppedHolds(s.g[n], s.m, i);
    DroppedOk(s.g[n], i);
    assert s'.m.Keys == s.m.Keys - {k};
    LeafChange(s, n, s'.g[n].keys, s'.g[n].vals, s'.m, s');
  }

  // ----- splitting a full leaf while an entry is added to it

  ghost function LeafCut(s: Shape, n: Node, r: Node, i: nat, j: nat): Shape
    requires n in s.g && i < |s.g[n].keys| == |s.g[n].vals| && j < |s.leaves|
  {
    s.(g := Relink(s.g[n := LeftHalf(s.g[n], i, r)][r := RightHalf(s.g[n], i, n)], s.g[n].next, r),
       leaves := Insert(s.leaves, j + 1, r))
  }

  lemma LeafCutShape(s: Shape, n: Node, r: Node, i: nat, j: nat)
    requires Inv(s) && LeafIn(s, n) && r !in NodesOf(s) && 0 < i < |s.g[n].keys| == |s.g[n].vals|
    requires j < |s.leaves| && s.leaves[j] == n
    ensures var s' := LeafCut(s, n, r, i, j);
      && Pending(s', n, r) && StartsAt(s', r, s.g[n].keys[i])
      && s'.root == s.root && s'.m == s.m && |s'.leaves| == |s.leaves| + 1
      && s'.leaves[0] == s.leaves[0]
      && s'.leaves[|s.leaves|] == (if s.g[n].next == null then r else s.leaves[|s.leaves| - 1])
      && s'.g.Keys == s.g.Keys + {r} && |s'.g| == |s.g| + 1
      && (forall x :: x in s.g ==> s'.g[x].rank == s.g[x].rank && s'.g[x].leaf == s.g[x].leaf)
      && (forall x :: x in s.g && x != n ==> s'.g[x].keys == s.g[x].keys)
      && |s'.g[n].keys| == i && |s'.g[r].keys| == |s.g[n].keys| - i
  {
    hide Pos, Inv, Pending, Chain, Insert;
    var s' := LeafCut(s, n, r, i, j);
    LeafSplit(s, n, r, i, j, s');
    LeafCutFacts(s, n, r, i, j);
    InsertIndex(s.leaves, j + 1, r, s'.leaves);
    assert s'.g.Keys == s.g.Keys + {r};
    assert |s.g.Keys + {r}| == |s.g.Keys| + 1;
  }

  lemma LeafCutFacts(s: Shape, n: Node, r: Node, i: nat, j: nat)
    requires Inv(s) && LeafIn(s, n) && r !in NodesOf(s) && 0 < i < |s.g[n].keys| == |s.g[n].vals|
    requires j < |s.leaves| && s.leaves[j] == n
    ensures s.g[n].next == null <==> j == |s.leaves| - 1
    ensures s.g[n].next != n && s.g[n].next != r
    ensures s.g[n].rank == 0
  {
    hide Pos, Sorted, Chain, Holds, RootOk, Hangs;
    InvRanged(s);
    NextLeaf(s, j);
    assert NodeOk(s.g, n);
  }

  lemma LeafIndex(s: Shape, n: Node) returns (j: nat)
    requires Inv(s) && LeafIn(s, n)
    ensures j < |s.leaves| && s.leaves[j] == n
  {
    hide Pos, Sorted, Holds, RootOk, Hangs, NodesOk;
    j :| 0 <= j < |s.leaves| && s.leaves[j] == n;
  }

  ghost function LeafOverflowed(s: Shape, n: Node, i: nat, k: Bytes, v: Value, r: Node, j: nat, order: nat): Shape
    requires n in s.g && i <= |s.g[n].keys| == |s.g[n].vals| == order && j < |s.leaves| && MIN_ORDER <= order
  {
    LeafCut(EntryAdded(s, n, i, k, v), n, r, LeafPoint(order), j)
  }

  ghost function LeafPromoted(s: Shape, n: Node, i: nat, k: Bytes, order: nat): Bytes
    requires n in s.g && i <= |s.g[n].keys| == order && MIN_ORDER <= order
  {
    Insert(s.g[n].keys, i, k)[LeafPoint(order)]
  }

  lemma LeafOverflowStep(s: Shape, n: Node, i: nat, k: Bytes, v: Value, r: Node, j: nat, order: nat)
    requires MIN_ORDER <= order && Inv(s) && Fits(s, n, i, k) && r !in NodesOf(s) && FillOf(s, n) == order
    requires j < |s.leaves| && s.leaves[j] == n
    ensures var s' := LeafOverflowed(s, n, i, k, v, r, j, order);
      && Pending(s', n, r) && StartsAt(s', r, LeafPromoted(s, n, i, k, order))
      && MapOf(s') == MapOf(s)[k := v] && k !in MapOf(s) && NodesOf(s') == NodesOf(s) + {r}
  {
    hide Pos, Inv, Pending, LeafOverflowed, LeafPromoted, StartsAt;
    LeafOverflowShape(s, n, i, k, v, r, j, order);
  }

  lemma LeafOverflowTally(s: Shape, n: Node, i: nat, k: Bytes, v: Value, r: Node, j: nat, t: Tally, order: nat)
    requires MIN_ORDER <= order && Inv(s) && Fits(s, n, i, k) && TallyOk(s, t) && r !in NodesOf(s)
    requires FillOf(s, n) == order
    requires j < |s.leaves| && s.leaves[j] == n
    ensures var s' := LeafOverflowed(s, n, i, k, v, r, j, order);
      var last := if s.g[n].next == null then r else t.last;
      TallyOk(s', Tally(t.root, t.first, last, t.keys + 1, t.leaves + 1, t.nodes + 1, t.height))
  {
    hide Pos, Inv, Pending, LeafPoint, MinFill, LeafOverflowed, LeafPromoted, StartsAt;
    LeafOverflowShape(s, n, i, k, v, r, j, order);
  }

  lemma LeafOverflowFill(s: Shape, n: Node, i: nat, k: Bytes, v: Value, r: Node, j: nat, order: nat)
    requires MIN_ORDER <= order && Inv(s) && Fits(s, n, i, k) && r !in NodesOf(s) && FillOf(s, n) == order
    requires j < |s.leaves| && s.leaves[j] == n
    ensures var s' := LeafOverflowed(s, n, i, k, v, r, j, order);
      (Filled(s, order) ==> Filled(s', order)) && FillOf(s', n) >= MinFill(order)
  {
    hide Pos, Inv, Pending, LeafOverflowed, LeafPromoted, StartsAt, Filled;
    LeafOverflowShape(s, n, i, k, v, r, j, order);
    FilledSplit(s, LeafOverflowed(s, n, i, k, v, r, j, order), n, r, order);
  }

  lemma LeafOverflowShape(s: Shape, n: Node, i: nat, k: Bytes, v: Value, r: Node, j: nat, order: nat)
    requires MIN_ORDER <= order && Inv(s) && Fits(s, n, i, k) && r !in NodesOf(s) && FillOf(s, n) == order
    requires j < |s.leaves| && s.leaves[j] == n
    ensures var s' := LeafOverflowed(s, n, i, k, v, r, j, order);
      && Pending(s', n, r) && StartsAt(s', r, LeafPromoted(s, n, i, k, order))
      && s'.root == s.root && s'.m == s.m[k := v] && k !in s.m && |s'.m| == |s.m| + 1
      && |s'.leaves| == |s.leaves| + 1 && s'.leaves[0] == s.leaves[0]
      && s'.leaves[|s.leaves|] == (if s.g[n].next == null then r else s.leaves[|s.leaves| - 1])
      && s'.g.Keys == s.g.Keys + {r} && |s'.g| == |s.g| + 1
      && (forall x :: x in s.g ==> s'.g[x].rank == s.g[x].rank && s'.g[x].leaf == s.g[x].leaf)
      && (forall x :: x in s.g && x != n ==> s'.g[x].keys == s.g[x].keys)
      && |s'.g[n].keys| == LeafPoint(order) && |s'.g[r].keys| == order + 1 - LeafPoint(order)
  {
    hide Pos, Inv, Pending, LeafCut, EntryAdded, Insert, MinFill;
    AddEntry(s, n, i, k, v);
    LeafCutShape(EntryAdded(s, n, i, k, v), n, r, LeafPoint(order), j);
  }

  // ----- deletion: taking a separator and a child away, fusing the halves

  ghost function Detached(s: Shape, p: Node, j: nat): Shape
    requires p in s.g && j < |s.g[p].keys| && j + 1 < |s.g[p].kids|
  {
    s.(g := s.g[p := s.g[p].(keys := Remove(s.g[p].keys, j), kids := Remove(s.g[p].kids, j + 1))])
  }

  /** `left` and `right` are the children of `p` around its separator `j`. */
  ghost predicate Siblings(s: Shape, p: Node, j: nat, left: Node, right: Node) {
    && IsSlot(s, p, j, left) && j < |s.g[p].keys| && s.g[p].kids[j + 1] == right
    && left in s.g && right in s.g && left != right && left != p && right != p && right != s.root && left != s.root
    && s.g[left].leaf == s.g[right].leaf
  }

  lemma SiblingFacts(s: Shape, p: Node, j: nat, left: Node, right: Node)
    requires Inv(s) && IsSlot(s, p, j, left) && j < |s.g[p].keys| && s.g[p].kids[j + 1] == right
    ensures Siblings(s, p, j, left, right)
    ensures s.g[left].parent == p && s.g[right].parent == p
    ensures s.g[left].rank + 1 == s.g[p].rank && s.g[right].rank + 1 == s.g[p].rank
    ensures s.g[left].hi == s.g[right].lo == Pos(s.g[p].keys[j])
    ensures NodeOk(s.g, left) && NodeOk(s.g, right) && NodeOk(s.g, p)
  {
    hide Pos, Sorted, Chain, Holds, Hangs;
    assert NodeOk(s.g, p);
    DetachFacts(s, p, left, right, j, Detached(s, p, j));
  }

  ghost function LeafFused(s: Shape, left: Node, right: Node, a: nat): Shape
    requires left in s.g && right in s.g && left != right && a + 1 < |s.leaves|
  {
    s.(g := Relink((s.g - {right})[left := FusedLeaf(s.g[left], s.g[right])], s.g[right].next, left),
       leaves := Remove(s.leaves, a + 1))
  }

  /** Two sibling leaves made one. */
  ghost function LeavesMerged(s: Shape, p: Node, j: nat, left: Node, right: Node, a: nat): Shape
    requires Siblings(s, p, j, left, right) && a + 1 < |s.leaves|
  {
    LeafFused(Detached(s, p, j), left, right, a)
  }

  lemma FindNeighbours(s: Shape, p: Node, j: nat, left: Node, right: Node) returns (a: nat)
    requires Inv(s) && Siblings(s, p, j, left, right) && s.g[left].leaf
    ensures a + 1 < |s.leaves| && s.leaves[a] == left && s.leaves[a + 1] == right
    ensures s.g[left].next == right && s.g[right].prev == left
    ensures s.g[right].next != left && s.g[right].next != right && s.g[right].next != p
    ensures s.g[right].next == null <==> a + 2 == |s.leaves|
    ensures a + 2 < |s.leaves| ==>
      s.g[right].next == s.leaves[a + 2] && s.leaves[a + 2] in s.g && s.g[s.leaves[a + 2]].prev == right
  {
    hide Pos, Sorted, Holds, Hangs, RootOk, NodeOk;
    SiblingFacts(s, p, j, left, right);
    InvRanged(s);
    a := Adjacent(s, left, right);
    NextLeaf(s, a);
    NextLeaf(s, a + 1);
    assert LinkOk(s.g, s.leaves, a + 1);
    if a + 2 < |s.leaves| {
      LeavesDistinct(s, a, a + 2);
      LeavesDistinct(s, a + 2, a);
      assert LinkOk(s.g, s.leaves, a + 2);
    }
  }

  lemma LeavesMergedShape(s: Shape, p: Node, j: nat, left: Node, right: Node, a: nat)
    requires Inv(s) && Siblings(s, p, j, left, right) && s.g[left].leaf
    requires a + 1 < |s.leaves| && s.leaves[a] == left && s.leaves[a + 1] == right
    requires s.g[right].next != left && s.g[right].next != right && s.g[right].next != p
    ensures var s' := LeavesMerged(s, p, j, left, right, a);
      && Inv(s') && s'.root == s.root && s'.m == s.m && s'.g.Keys == s.g.Keys - {right}
      && |s'.leaves| == |s.leaves| - 1 && s'.leaves[0] == s.leaves[0]
      && s'.leaves[|s.leaves| - 2] == (if a + 2 == |s.leaves| then left else s.leaves[|s.leaves| - 1])
      && (forall x :: x in s'.g ==> s'.g[x].rank == s.g[x].rank && s'.g[x].leaf == s.g[x].leaf)
      && (forall x :: x in s'.g && x != left && x != p ==> s'.g[x].keys == s.g[x].keys)
      && |s'.g[left].keys| == |s.g[left].keys| + |s.g[right].keys| && |s'.g[p].keys| == |s.g[p].keys| - 1
  {
    hide Pos, Inv, Pending, Remove, NodeOk;
    SiblingFacts(s, p, j, left, right);
    var s1 := Detached(s, p, j);
    Detach(s, p, left, right, j, s1);
    RemoveIndex(s.g[p].keys, j, s1.g[p].keys);
    var s' := LeavesMerged(s, p, j, left, right, a);
    LeafFuse(s1, left, right, a, s');
    RemoveIndex(s1.leaves, a + 1, s'.leaves);
  }

  lemma FilledMerge(s: Shape, s': Shape, p: Node, left: Node, right: Node, x: Node, order: nat)
    requires MIN_ORDER <= order && p in s.g && left in s.g && right in s.g && left != s.root && right != s.root
    requires left != right
    requires p != left && p != right && (x == left || x == right)
    requires s'.root == s.root && s'.g.Keys == s.g.Keys - {right}
    requires forall y :: y in s'.g ==> s'.g[y].leaf == s.g[y].leaf
    requires forall y :: y in s'.g && y != left && y != p ==> s'.g[y].keys == s.g[y].keys
    requires |s'.g[left].keys| >= |s.g[left].keys| + |s.g[right].keys| && |s'.g[p].keys| == |s.g[p].keys| - 1
    ensures FilledBut(s, order, x) ==> FilledBut(s', order, p)
  {}

  lemma LeavesMergedStep(s: Shape, p: Node, j: nat, left: Node, right: Node, a: nat, x: Node, order: nat)
    requires MIN_ORDER <= order && Inv(s) && Siblings(s, p, j, left, right) && s.g[left].leaf
    requires a + 1 < |s.leaves| && s.leaves[a] == left && s.leaves[a + 1] == right
    requires s.g[right].next != left && s.g[right].next != right && s.g[right].next != p
    requires x == left || x == right
    ensures var s' := LeavesMerged(s, p, j, left, right, a);
      && Inv(s') && MapOf(s') == MapOf(s) && NodesOf(s') == NodesOf(s) - {right} && p in NodesOf(s')
      && RankOf(s', p) == RankOf(s, p)
      && (FilledBut(s, order, x) ==> FilledBut(s', order, p))
  {
    hide Pos, Inv, LeavesMerged, FilledBut, MinFill;
    LeavesMergedShape(s, p, j, left, right, a);
    FilledMerge(s, LeavesMerged(s, p, j, left, right, a), p, left, right, x, order);
  }

  lemma LeavesMergedTally(s: Shape, p: Node, j: nat, left: Node, right: Node, a: nat, t: Tally)
    requires Inv(s) && Siblings(s, p, j, left, right) && s.g[left].leaf && TallyOk(s, t)
    requires a + 1 < |s.leaves| && s.leaves[a] == left && s.leaves[a + 1] == right
    requires s.g[right].next != left && s.g[right].next != right && s.g[right].next != p
    requires s.g[right].next == null <==> a + 2 == |s.leaves|
    ensures t.leaves > 1 && t.nodes > 0
    ensures var last := if s.g[right].next == null then left else t.last;
      TallyOk(LeavesMerged(s, p, j, left, right, a),
        Tally(t.root, t.first, last, t.keys, t.leaves - 1, t.nodes - 1, t.height))
  {
    hide Pos, Inv, LeavesMerged;
    LeavesMergedShape(s, p, j, left, right, a);
  }

  ghost function InnerFused(s: Shape, left: Node, right: Node, sep: Bytes): Shape
    requires left in s.g && right in s.g && left != right
  {
    s.(g := Adopt(s.g - {right}, s.g[right].kids, left)[left := FusedInner(s.g[left], s.g[right], sep)])
  }

  /** Two sibling inner nodes made one, around the separator between them. */
  ghost function InnersMerged(s: Shape, p: Node, j: nat, left: Node, right: Node): Shape
    requires Siblings(s, p, j, left, right)
  {
    InnerFused(Detached(s, p, j), left, right, s.g[p].keys[j])
  }

  lemma InnersMergedShape(s: Shape, p: Node, j: nat, left: Node, right: Node)
    requires Inv(s) && Siblings(s, p, j, left, right) && !s.g[left].leaf
    ensures var s' := InnersMerged(s, p, j, left, right);
      && Inv(s') && s'.root == s.root && s'.m == s.m && s'.g.Keys == s.g.Keys - {right} && s'.leaves == s.leaves
      && (forall x :: x in s'.g ==> s'.g[x].rank == s.g[x].rank && s'.g[x].leaf == s.g[x].leaf)
      && (forall x :: x in s'.g && x != left && x != p ==> s'.g[x].keys == s.g[x].keys)
      && |s'.g[left].keys| == |s.g[left].keys| + |s.g[right].keys| + 1 && |s'.g[p].keys| == |s.g[p].keys| - 1
  {
    hide Pos, Inv, Pending, Remove, NodeOk, Adopt;
    SiblingFacts(s, p, j, left, right);
    var s1 := Detached(s, p, j);
    Detach(s, p, left, right, j, s1);
    RemoveIndex(s.g[p].keys, j, s1.g[p].keys);
    var s' := InnersMerged(s, p, j, left, right);
    var sep := s.g[p].keys[j];
    InnerFuse(s1, left, right, sep, s');
    InnerFuseParent(s1, left, right, sep, s');
    forall x | x in s1.g && x != left && x != right ensures x in s'.g && s'.g[x].(parent := s1.g[x].parent) == s1.g[x] {
      InnerFuseAny(s1, left, right, sep, s', x);
    }
  }

  lemma InnersMergedStep(s: Shape, p: Node, j: nat, left: Node, right: Node, x: Node, t: Tally, order: nat)
    requires MIN_ORDER <= order && Inv(s) && Siblings(s, p, j, left, right) && !s.g[left].leaf && TallyOk(s, t)
    requires x == left || x == right
    ensures t.nodes > 0
    ensures var s' := InnersMerged(s, p, j, left, right);
      && Inv(s') && MapOf(s') == MapOf(s) && NodesOf(s') == NodesOf(s) - {right} && p in NodesOf(s')
      && RankOf(s', p) == RankOf(s, p)
      && TallyOk(s', t.(nodes := t.nodes - 1))
      && (FilledBut(s, order, x) ==> FilledBut(s', order, p))
  {
    hide Pos, Inv, InnersMerged, FilledBut, MinFill;
    InnersMergedShape(s, p, j, left, right);
    FilledMerge(s, InnersMerged(s, p, j, left, right), p, left, right, x, order);
  }

  /** A root with a single child gives way to it. */
  ghost function Collapsed(s: Shape, c: Node): Shape
    requires c in s.g
  {
    s.(root := c, g := (s.g - {s.root})[c := s.g[c].(parent := null)])
  }

  ghost predicate OnlyChild(s: Shape, c: Node) {
    && s.root in s.g && !s.g[s.root].leaf && s.g[s.root].keys == [] && s.g[s.root].kids == [c] && c in s.g
  }

  lemma CollapsedStep(s: Shape, c: Node, t: Tally, order: nat)
    requires MIN_ORDER <= order && Inv(s) && OnlyChild(s, c) && TallyOk(s, t)
    ensures t.nodes > 0 && t.height > 1
    ensures var s' := Collapsed(s, c);
      && Inv(s') && MapOf(s') == MapOf(s) && NodesOf(s') == NodesOf(s) - {s.root}
      && TallyOk(s', t.(root := c, nodes := t.nodes - 1, height := t.height - 1))
      && (FilledBut(s, order, s.root) ==> Filled(s', order))
  {
    hide Pos, Inv, MinFill;
    var s' := Collapsed(s, c);
    Collapse(s, c, s');
    CollapseRoot(s, c, s');
    CollapseDistinct(s, c);
    assert s'.g.Keys == s.g.Keys - {s.root};
  }

  lemma CollapseDistinct(s: Shape, c: Node)
    requires Inv(s) && OnlyChild(s, c)
    ensures c != s.root
  {
    hide Pos, Sorted, Chain, Holds, Hangs;
    assert NodeOk(s.g, s.root);
    assert ChildOk(s.g, s.root, 0);
  }

  // ----- deletion: moving the boundary between two sibling leaves

  /** The entries of two sibling leaves, dealt out anew with `i` of them on the left. */
  ghost function Redealt(s: Shape, p: Node, j: nat, left: Node, right: Node, i: nat): Shape
    requires Siblings(s, p, j, left, right) && i < |FusedLeaf(s.g[left], s.g[right]).keys|
    requires i < |FusedLeaf(s.g[left], s.g[right]).vals|
  {
    var f := FusedLeaf(s.g[left], s.g[right]);
    s.(g := s.g[left := s.g[left].(keys := f.keys[..i], vals := f.vals[..i], hi := Pos(f.keys[i]))]
               [right := s.g[right].(keys := f.keys[i..], vals := f.vals[i..], lo := Pos(f.keys[i]))]
               [p := s.g[p].(keys := s.g[p].keys[j := f.keys[i]])])
  }

  lemma RedealtIsSplitOfFused(s: Shape, p: Node, j: nat, left: Node, right: Node, a: nat, i: nat)
    requires Inv(s) && Siblings(s, p, j, left, right) && s.g[left].leaf
    requires a + 1 < |s.leaves| && s.leaves[a] == left && s.leaves[a + 1] == right
    requires s.g[left].next == right && s.g[right].prev == left && s.g[right].parent == p
    requires s.g[right].next != left && s.g[right].next != right && s.g[right].next != p
    requires s.g[right].next != null ==> s.g[right].next in s.g && s.g[s.g[right].next].prev == right
    requires LeafOk(s.g[left]) && LeafOk(s.g[right])
    requires 0 < i < |s.g[left].keys| + |s.g[right].keys|
    requires right !in LeavesMerged(s, p, j, left, right, a).g
    requires var s2 := LeavesMerged(s, p, j, left, right, a);
      left in s2.g && s2.g[left] == FusedLeaf(s.g[left], s.g[right]) && a < |s2.leaves|
    requires var s3 := LeafCut(LeavesMerged(s, p, j, left, right, a), left, right, i, a);
      right in s3.g && p in s3.g && j <= |s3.g[p].keys| && j < |s3.g[p].kids|
    ensures var s2 := LeavesMerged(s, p, j, left, right, a);
      var s3 := LeafCut(s2, left, right, i, a);
      Attached(s3, right, p, s2.g[left].keys[i], j) == Redealt(s, p, j, left, right, i)
  {
    hide Pos, Inv, Sorted;
    var s2 := LeavesMerged(s, p, j, left, right, a);
    var s3 := LeafCut(s2, left, right, i, a);
    var s4 := Attached(s3, right, p, s2.g[left].keys[i], j);
    var s' := Redealt(s, p, j, left, right, i);
    assert s4.leaves == s.leaves;
    assert s4.g.Keys == s.g.Keys;
    assert s4.g[p] == s'.g[p];
    assert s4.g[left] == s'.g[left];
    assert s4.g[right] == s'.g[right];
    assert s4.g == s'.g;
  }

  lemma LeavesMergedAt(s: Shape, p: Node, j: nat, left: Node, right: Node, a: nat)
    requires Siblings(s, p, j, left, right) && s.g[left].leaf
    requires a + 1 < |s.leaves| && s.leaves[a] == left && s.leaves[a + 1] == right
    requires s.g[right].next != left && s.g[right].next != right && s.g[right].next != p
    ensures var s2 := LeavesMerged(s, p, j, left, right, a);
      && right !in s2.g && left in s2.g && p in s2.g
      && s2.g[left] == FusedLeaf(s.g[left], s.g[right])
      && s2.g[p] == Detached(s, p, j).g[p]
      && s2.g[p].kids[j] == left && |s2.g[p].kids| == |s2.g[p].keys| + 1 && j <= |s2.g[p].keys|
      && a < |s2.leaves| && s2.leaves[a] == left && s2.root == s.root
  {
    hide Pos, Remove, FusedLeaf;
    var s2 := LeavesMerged(s, p, j, left, right, a);
    RemoveIndex(s.g[p].keys, j, Detached(s, p, j).g[p].keys);
    RemoveIndex(s.g[p].kids, j + 1, Detached(s, p, j).g[p].kids);
    RemoveIndex(s.leaves, a + 1, s2.leaves);
  }

  lemma LeafCutAt(s: Shape, n: Node, r: Node, i: nat, j: nat, p: Node)
    requires Inv(s) && LeafIn(s, n) && r !in NodesOf(s) && 0 < i < |s.g[n].keys| == |s.g[n].vals|
    requires j < |s.leaves| && s.leaves[j] == n && p in s.g && !s.g[p].leaf
    ensures var s' := LeafCut(s, n, r, i, j);
      && p in s'.g && n in s'.g && r in s'.g
      && s'.g[p].(prev := s.g[p].prev) == s.g[p]
      && s'.g[n] == LeftHalf(s.g[n], i, r) && s'.g[r] == RightHalf(s.g[n], i, n)
  {
    hide Pos, Inv, LeftHalf, RightHalf;
    LeafCutFacts(s, n, r, i, j);
  }

  lemma RedealtShape(s: Shape, p: Node, j: nat, left: Node, right: Node, i: nat)
    requires Inv(s) && Siblings(s, p, j, left, right) && s.g[left].leaf
    requires |s.g[left].keys| == |s.g[left].vals| && |s.g[right].keys| == |s.g[right].vals|
    requires 0 < i < |s.g[left].keys| + |s.g[right].keys|
    ensures Inv(Redealt(s, p, j, left, right, i))
  {
    hide Pos, Inv, Pending, LeafCut, LeavesMerged, NodeOk, Redealt, Attached, LeftHalf, RightHalf, Detached;
    SiblingFacts(s, p, j, left, right);
    var a := FindNeighbours(s, p, j, left, right);
    LeavesMergedShape(s, p, j, left, right, a);
    LeavesMergedAt(s, p, j, left, right, a);
    var s2 := LeavesMerged(s, p, j, left, right, a);
    var sep := s2.g[left].keys[i];
    LeafCutShape(s2, left, right, i, a);
    LeafCutAt(s2, left, right, i, a, p);
    var s3 := LeafCut(s2, left, right, i, a);
    RedealtEnd(s, p, j, left, right, a, i);
  }

  lemma RedealtEnd(s: Shape, p: Node, j: nat, left: Node, right: Node, a: nat, i: nat)
    requires Inv(s) && Siblings(s, p, j, left, right) && s.g[left].leaf
    requires a + 1 < |s.leaves| && s.leaves[a] == left && s.leaves[a + 1] == right
    requires 0 < i < |s.g[left].keys| + |s.g[right].keys|
    requires var s2 := LeavesMerged(s, p, j, left, right, a);
      && right !in s2.g && left in s2.g && p in s2.g && !s2.g[p].leaf
      && s2.g[left] == FusedLeaf(s.g[left], s.g[right])
      && s2.g[p].kids[j] == left && |s2.g[p].kids| == |s2.g[p].keys| + 1 && j <= |s2.g[p].keys|
      && a < |s2.leaves| && s2.leaves[a] == left && s2.root == s.root
      && |s2.g[left].keys| == |s2.g[left].vals|
    requires var s2 := LeavesMerged(s, p, j, left, right, a);
      var s3 := LeafCut(s2, left, right, i, a);
      && Pending(s3, left, right) && StartsAt(s3, right, s2.g[left].keys[i]) && s3.root == s2.root
      && p in s3.g && left in s3.g && right in s3.g
      && s3.g[p].(prev := s2.g[p].prev) == s2.g[p]
      && s3.g[left] == LeftHalf(s2.g[left], i, right)
    ensures Inv(Redealt(s, p, j, left, right, i))
  {
    hide Pos, Inv, Pending, LeafCut, LeavesMerged, NodeOk, Redealt, RightHalf;
    SiblingFacts(s, p, j, left, right);
    var b := FindNeighbours(s, p, j, left, right);
    LeavesOnce(s, a, b);
    var s2 := LeavesMerged(s, p, j, left, right, a);
    var s3 := LeafCut(s2, left, right, i, a);
    var sep := s2.g[left].keys[i];
    Attach(s3, left, right, p, sep, j, Attached(s3, right, p, sep, j));
    SiblingsLeafOk(s, left, right);
    RedealtIsSplitOfFused(s, p, j, left, right, a, i);
  }

  lemma LeavesOnce(s: Shape, a: nat, b: nat)
    requires Inv(s) && a < |s.leaves| && b < |s.leaves| && s.leaves[a] == s.leaves[b]
    ensures a == b
  {
    hide Pos, Chain, Holds, Hangs, RootOk, NodeOk;
    InvRanged(s);
    LeavesDistinct(s, a, b);
  }

  lemma SiblingsLeafOk(s: Shape, left: Node, right: Node)
    requires Inv(s) && LeafIn(s, left) && LeafIn(s, right)
    ensures LeafOk(s.g[left]) && LeafOk(s.g[right])
  {
    hide Pos, Chain, Holds, Hangs, RootOk, LeafOk;
    assert NodeOk(s.g, left) && NodeOk(s.g, right);
  }

  lemma RedealtStep(s: Shape, p: Node, j: nat, left: Node, right: Node, i: nat, x: Node, t: Tally, order: nat)
    requires MIN_ORDER <= order && Inv(s) && Siblings(s, p, j, left, right) && s.g[left].leaf && TallyOk(s, t)
    requires |s.g[left].keys| == |s.g[left].vals| && |s.g[right].keys| == |s.g[right].vals|
    requires 0 < i < |s.g[left].keys| + |s.g[right].keys|
    requires x == left || x == right
    ensures var s' := Redealt(s, p, j, left, right, i);
      && Inv(s') && MapOf(s') == MapOf(s) && NodesOf(s') == NodesOf(s) && TallyOk(s', t)
      && (FilledBut(s, order, x) && i >= MinFill(order) && |s.g[left].keys| + |s.g[right].keys| - i >= MinFill(order)
          ==> Filled(s', order))
  {
    hide Pos, Inv, MinFill;
    RedealtShape(s, p, j, left, right, i);
  }

  ghost function NodeSet(ns: seq<Node>): set<Node> {
    set n | n in ns
  }

  lemma {:induction false} LeafSetSize(s: Shape, k: nat)
    requires Chain(s.g, s.leaves) && Ranged(s.g) && k <= |s.leaves|
    ensures |NodeSet(s.leaves[..k])| == k
  {
    hide Chain, Ranged;
    if k > 0 {
      LeafSetSize(s, k - 1);
      var a, b := NodeSet(s.leaves[..k - 1]), NodeSet(s.leaves[..k]);
      assert s.leaves[..k] == s.leaves[..k - 1] + [s.leaves[k - 1]];
      assert b == a + {s.leaves[k - 1]};
      if s.leaves[k - 1] in a {
        var j :| 0 <= j < k - 1 && s.leaves[..k - 1][j] == s.leaves[k - 1];
        LeavesDistinct(s, j, k - 1);
      }
    }
  }
}
