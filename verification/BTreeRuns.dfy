/** Whole runs of the B+tree engine, and walks along its leaf chain. */
module BTreeRuns {
  import opened Bytes
  import opened BTreeNodes
  import opened BTreeShape
  import opened BTreeHeap
  import opened BTreeSteps
  import opened BTreeLinks
  import opened BTreeClimb
  import opened BTreeEngine
  import opened BTreeTheorems

  /** The node at position `j` of the chain, or null at its end. */
  lemma ChainSeen(s: Shape, j: nat, order: nat)
    requires Inv(s) && PicturesShape(s, order) && j < |s.leaves|
    ensures s.leaves[j] in s.g && s.g[s.leaves[j]].leaf && Mirrors(s.leaves[j], s.g[s.leaves[j]], order)
    ensures s.leaves[j].next == (if j + 1 < |s.leaves| then s.leaves[j + 1] else null)
    ensures s.leaves[j].prev == (if j > 0 then s.leaves[j - 1] else null)
    ensures |s.g[s.leaves[j]].keys| == |s.g[s.leaves[j]].vals|
  {
    hide Pos, Sorted, Holds, Hangs, RootOk, NodeOk, Pictures, Mirrors;
    assert LinkOk(s.g, s.leaves, j);
    LeafSeen(s, s.leaves[j], order);
    NextFacts(s, s.leaves[j]);
  }

  lemma LeafSeen(s: Shape, n: Node, order: nat)
    requires PicturesShape(s, order) && n in s.g
    ensures Mirrors(n, s.g[n], order) && n.next == s.g[n].next && n.prev == s.g[n].prev
  {
    hide Pictures;
    Seen(s.g, order, n);
  }

  ghost predicate Walkable(g: map<Node, Rec>, ls: seq<Node>) {
    forall n :: n in ls ==> n in g && |g[n].vals| == |g[n].keys|
  }

  lemma WalkNothing(s: Shape)
    ensures Walk(s.g, s.leaves[..0]) == [] == Walk(s.g, s.leaves[|s.leaves|..])
  {}

  lemma WalkNext(s: Shape, j: nat)
    requires j < |s.leaves| && Walkable(s.g, s.leaves)
    ensures Walkable(s.g, s.leaves[..j]) && Walkable(s.g, s.leaves[..j + 1])
    ensures Walk(s.g, s.leaves[..j + 1]) == Walk(s.g, s.leaves[..j]) + LeafEntries(s.g[s.leaves[j]])
  {
    assert s.leaves[..j + 1][..j] == s.leaves[..j];
  }

  lemma WalkPrev(s: Shape, j: nat)
    requires j < |s.leaves| && Walkable(s.g, s.leaves)
    ensures Walkable(s.g, s.leaves[j..]) && Walkable(s.g, s.leaves[j + 1..])
    ensures Walk(s.g, s.leaves[j..]) == LeafEntries(s.g[s.leaves[j]]) + Walk(s.g, s.leaves[j + 1..])
  {
    var n := s.leaves[j];
    assert s.leaves[j..] == [n] + s.leaves[j + 1..];
    WalkConcat(s.g, [n], s.leaves[j + 1..]);
    assert Walk(s.g, [n]) == Walk(s.g, []) + LeafEntries(s.g[n]);
  }

  lemma TallyEnds(s: Shape, t: Tally)
    requires TallyOk(s, t)
    ensures |s.leaves| > 0 && t.first == s.leaves[0] && t.last == s.leaves[|s.leaves| - 1]
  {}

  method EntriesOf(ghost s: Shape, ghost j: nat, n: Node, ghost order: nat) returns (es: seq<Entry>)
    requires PicturesShape(s, order) && Inv(s) && j < |s.leaves| && n == s.leaves[j]
    ensures PicturesShape(s, order) && n in s.g && |s.g[n].vals| == |s.g[n].keys| && es == LeafEntries(s.g[n])
  {
    hide Inv;
    ChainSeen(s, j, order);
    ghost var r := s.g[n];
    assert forall i :: 0 <= i < n.keyCount ==> n.keys[i] == r.keys[i] && n.values[i] == r.vals[i];
    es := [];
    for i := 0 to n.keyCount
      invariant es == LeafEntries(r)[..i]
    {
      es := es + [(n.keys[i], n.values[i])];
    }
  }

  /** Follows `next` from the first leaf: the entries of the map, in key order. */
  method WalkForward(t: BTree) returns (es: seq<Entry>)
    requires t.Valid()
    ensures Lists(es, MapOf(t.shape))
  {
    hide Pos, Inv, PicturesShape, Footprint, NodesOf, Lists, TallyOk, Mirrors, LeafEntries, Walk;
    TallyEnds(t.shape, t.Count());
    ghost var s := t.shape;
    WalkDefined(s);
    assert Walkable(s.g, s.leaves);
    var current: Node? := t.firstLeaf;
    es := [];
    WalkNothing(s);
    ghost var j := 0;
    while current != null
      invariant t.Valid() && t.shape == s && j <= |s.leaves|
      invariant current == if j < |s.leaves| then s.leaves[j] else null
      invariant Walkable(s.g, s.leaves[..j]) && es == Walk(s.g, s.leaves[..j])
      decreases |s.leaves| - j
    {
      ChainSeen(s, j, t.order);
      var more := EntriesOf(s, j, current, t.order);
      WalkNext(s, j);
      es := es + more;
      current := current.next;
      j := j + 1;
    }
    assert s.leaves[..j] == s.leaves;
    ChainListsMap(s);
  }

  /** Follows `prev` from the last leaf: the same entries, collected from the back. */
  method WalkBackward(t: BTree) returns (es: seq<Entry>)
    requires t.Valid()
    ensures Lists(es, MapOf(t.shape))
  {
    hide Pos, Inv, PicturesShape, Footprint, NodesOf, Lists, TallyOk, Mirrors, LeafEntries, Walk;
    TallyEnds(t.shape, t.Count());
    ghost var s := t.shape;
    WalkDefined(s);
    assert Walkable(s.g, s.leaves);
    var current: Node? := t.lastLeaf;
    es := [];
    WalkNothing(s);
    ghost var j := |s.leaves|;
    while current != null
      invariant t.Valid() && t.shape == s && 0 <= j <= |s.leaves|
      invariant current == if j > 0 then s.leaves[j - 1] else null
      invariant Walkable(s.g, s.leaves[j..]) && es == Walk(s.g, s.leaves[j..])
      decreases j
    {
      ChainSeen(s, j - 1, t.order);
      var more := EntriesOf(s, j - 1, current, t.order);
      WalkPrev(s, j - 1);
      es := more + es;
      current := current.prev;
      j := j - 1;
    }
    assert s.leaves[0..] == s.leaves;
    ChainListsMap(s);
  }

  datatype Op = Set(key: Bytes, value: Bytes) | Del(key: Bytes)

  ghost predicate WellFormed(op: Op) {
    op.key != [] && (op.Set? ==> op.value != [])
  }

  ghost function Apply(m: map<Bytes, Value>, op: Op): map<Bytes, Value> {
    match op
    case Set(k, v) => m[k := Data(v)]
    case Del(k) => m - {k}
  }

  ghost function ApplyAll(m: map<Bytes, Value>, ops: seq<Op>): map<Bytes, Value> {
    if ops == [] then m else Apply(ApplyAll(m, ops[..|ops| - 1]), ops[|ops| - 1])
  }

  /** Any run of insertions and deletions leaves a valid tree that represents the plain-map result. */
  method Run(t: BTree, ops: seq<Op>)
    requires t.Valid() && forall op :: op in ops ==> WellFormed(op)
    modifies t.Repr()
    ensures t.Valid() && MapOf(t.shape) == ApplyAll(old(MapOf(t.shape)), ops)
    ensures old(AtLeast(t.shape, (t.order + 1) / 2 - 1)) && (forall op :: op in ops ==> op.Set?) ==>
      AtLeast(t.shape, (t.order + 1) / 2 - 1)
  {
    hide Pos, Inv, PicturesShape, Footprint, NodesOf, MapOf, Filled, TallyOk, AtLeast;
    var i := 0;
    assert ops[..0] == [];
    while i < |ops|
      invariant 0 <= i <= |ops|
      invariant t.Valid() && MapOf(t.shape) == ApplyAll(old(MapOf(t.shape)), ops[..i])
      invariant forall o :: o in t.Repr() && o !in old(t.Repr()) ==> fresh(o)
      invariant old(AtLeast(t.shape, (t.order + 1) / 2 - 1)) && (forall op :: op in ops ==> op.Set?) ==>
        AtLeast(t.shape, (t.order + 1) / 2 - 1)
    {
      assert ops[..i + 1][..i] == ops[..i] && ops[i] in ops;
      match ops[i] {
        case Set(k, v) => var st := t.Insert(k, v);
        case Del(k) => var st := t.Delete(k);
      }
      i := i + 1;
    }
    assert ops[..i] == ops;
  }

  /** However a tree is grown by insertions, its height is logarithmic in the number of its keys. */
  method Grow(order: nat, ops: seq<Op>) returns (t: BTree)
    requires 3 <= order <= 1000 && forall op :: op in ops ==> WellFormed(op) && op.Set?
    ensures t.Valid() && t.order == order && MapOf(t.shape) == ApplyAll(map[], ops) && t.totalKeys == |MapOf(t.shape)|
    ensures var least := (order + 1) / 2 - 1;
      t.height >= 2 ==> t.totalKeys >= 2 * (least * Power(least + 1, t.height - 2))
  {
    hide Pos, Inv, PicturesShape, Footprint, NodesOf, Filled, AtLeast, Power, TallyOk, MapOf, ApplyAll, SepsOf;
    t := new BTree(order);
    Run(t, ops);
    Shallow(t);
  }

  lemma Shallow(t: BTree)
    requires t.Valid() && AtLeast(t.shape, (t.order + 1) / 2 - 1)
    ensures t.totalKeys == |MapOf(t.shape)|
    ensures var least := (t.order + 1) / 2 - 1;
      t.height >= 2 ==> t.totalKeys >= 2 * (least * Power(least + 1, t.height - 2))
  {
    hide Pos, Inv, PicturesShape, AtLeast, Power;
    if t.height >= 2 {
      FilledTreeIsShallow(t.shape, t.order, t.Count());
    }
  }
}
