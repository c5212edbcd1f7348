/** What the red-black rules mean for the whole tree: its depth, its traversal, and runs of calls. */
module RBTheorems {
  import opened Bytes
  import opened RBShape
  import opened RBDelete
  import opened RBEngine

  // ----- depth

  /** A way down from a node: each node is a child of the one before it. */
  ghost predicate Path(s: Shape, ps: seq<Node>) {
    && (forall i :: 0 <= i < |ps| ==> ps[i] in s.g)
    && forall i :: 0 <= i < |ps| - 1 ==> s.g[ps[i]].left == ps[i + 1] || s.g[ps[i]].right == ps[i + 1]
  }

  ghost function Pow2(n: nat): nat {
    if n == 0 then 1 else 2 * Pow2(n - 1)
  }

  ghost function Blacks(s: Shape, ps: seq<Node>): nat {
    if ps == [] then 0 else (if IsRed(s, ps[0]) then 0 else 1) + Blacks(s, ps[1..])
  }

  /** A node of black height `h` has at least `2^h - 1` nodes below it, itself included. */
  lemma {:induction false} HeightNeedsNodes(s: Shape, n: Node?)
    requires Tree(s) && Balanced(s, NoGap) && (n in s.g || n == s.nil)
    ensures Pow2(BH(s, n)) <= SizeOf(s, n) + 1
    decreases SizeOf(s, n)
  {
    hide Pos, Ordered, Listed, RootOk, Hangs;
    if n in s.g {
      assert NodeOk(s, n) && BalOk(s, NoGap, n);
      var r := s.g[n];
      assert r.left in s.g ==> NodeOk(s, r.left);
      assert r.right in s.g ==> NodeOk(s, r.right);
      HeightNeedsNodes(s, r.left);
      HeightNeedsNodes(s, r.right);
    }
  }

  /** At most every other node on a way down is red. */
  lemma {:induction false} PathIsShort(s: Shape, ps: seq<Node>)
    requires RBShape.Valid(s) && Path(s, ps) && |ps| > 0
    ensures |ps| <= 2 * s.g[ps[0]].bh + (if s.g[ps[0]].red then 1 else 0)
    decreases |ps|
  {
    hide Pos, Tree;
    var n := ps[0];
    assert BalOk(s, NoGap, n) && RedOk(s, null, n);
    KidParents(s, n);
    if |ps| > 1 {
      assert ps[1] == ps[1..][0];
      PathIsShort(s, ps[1..]);
    }
  }

  lemma {:induction false} Pow2Monotone(a: nat, b: nat)
    requires a <= b
    ensures Pow2(a) <= Pow2(b)
    decreases b - a
  {
    if a < b { Pow2Monotone(a + 1, b); }
  }

  lemma {:induction false} Pow2Adds(a: nat, b: nat)
    ensures Pow2(a + b) == Pow2(a) * Pow2(b)
    decreases a
  {
    if a > 0 { Pow2Adds(a - 1, b); }
  }

  /** With `n` entries no way down is longer than `2 * log2(n + 1)`, written without the logarithm. */
  lemma DepthIsLogarithmic(s: Shape, ps: seq<Node>)
    requires RBShape.Valid(s) && Path(s, ps) && (ps != [] ==> ps[0] == s.root)
    ensures Pow2(|ps|) <= (Total(s) + 1) * (Total(s) + 1)
  {
    hide Pos, Tree, Balanced, RedsApart;
    if ps != [] {
      var h := s.g[s.root].bh;
      PathIsShort(s, ps);
      HeightNeedsNodes(s, s.root);
      SizeGrows(s, s.root);
      Pow2Monotone(|ps|, h + h);
      Pow2Adds(h, h);
      Squares(Pow2(h), Total(s) + 1);
    }
  }

  lemma Squares(a: nat, b: nat)
    requires a <= b
    ensures a * a <= b * b
  {
    assert a * a <= a * b <= b * b;
  }

  /** Every way from a node down to the sentinel passes the same number of black nodes. */
  lemma {:induction false} EqualBlacks(s: Shape, ps: seq<Node>)
    requires RBShape.Valid(s) && Path(s, ps) && |ps| > 0
    requires var n := ps[|ps| - 1]; s.g[n].left == s.nil || s.g[n].right == s.nil
    ensures Blacks(s, ps) == s.g[ps[0]].bh
    decreases |ps|
  {
    hide Pos, Tree;
    var n := ps[0];
    assert BalOk(s, NoGap, n);
    KidParents(s, n);
    if |ps| > 1 {
      assert ps[1] == ps[1..][0];
      EqualBlacks(s, ps[1..]);
    } else {
      assert ps[1..] == [];
    }
  }

  // ----- traversal

  /** The nodes below `n` in the order of `rbtree_traversal`. */
  ghost function InOrder(s: Shape, n: Node?): seq<Node>
    requires NodesFine(s)
    decreases SizeOf(s, n)
  {
    if n in s.g then
      assert NodeOk(s, n);
      assert s.g[n].left in s.g ==> NodeOk(s, s.g[n].left);
      assert s.g[n].right in s.g ==> NodeOk(s, s.g[n].right);
      var left := if s.g[n].left != s.nil then InOrder(s, s.g[n].left) else [];
      var right := if s.g[n].right != s.nil then InOrder(s, s.g[n].right) else [];
      left + [n] + right
    else []
  }

  lemma Cut<T>(xs: seq<T>, a: nat, p: nat, b: nat)
    requires a <= p < b <= |xs|
    ensures xs[a..p] + [xs[p]] + xs[p + 1..b] == xs[a..b]
  {}

  ghost function SideInOrder(s: Shape, n: Node, l: bool): seq<Node>
    requires NodesFine(s) && n in s.g
  {
    if s.g[n].Kid(l) != s.nil then InOrder(s, s.g[n].Kid(l)) else []
  }

  lemma InOrderUnfolds(s: Shape, n: Node)
    requires NodesFine(s) && n in s.g
    ensures InOrder(s, n) == SideInOrder(s, n, true) + [n] + SideInOrder(s, n, false)
  {
    hide NodeOk;
  }

  /** What hangs on side `l` of `n` is the stretch on that side. */
  lemma {:induction false} SideIsStretch(s: Shape, n: Node, l: bool)
    requires Tree(s) && n in s.g
    ensures var r := s.g[n];
      && r.From(l) <= r.To(l) <= |s.ns|
      && SideInOrder(s, n, l) == s.ns[r.From(l)..r.To(l)]
    decreases SizeOf(s, n), 0
  {
    hide Pos, Ordered, Listed, RootOk, Hangs, InOrder;
    assert NodeOk(s, n);
    var c := s.g[n].Kid(l);
    if c != s.nil {
      assert NodeOk(s, c);
      InOrderIsStretch(s, c);
    }
  }

  lemma {:induction false} InOrderIsStretch(s: Shape, n: Node)
    requires Tree(s) && n in s.g
    ensures s.g[n].a <= s.g[n].b <= |s.ns| && InOrder(s, n) == s.ns[s.g[n].a..s.g[n].b]
    decreases SizeOf(s, n), 1
  {
    hide Pos, Ordered, Listed, RootOk, Hangs, KidOk, InOrder, SideInOrder;
    assert NodeOk(s, n);
    var r := s.g[n];
    InOrderUnfolds(s, n);
    SideIsStretch(s, n, true);
    SideIsStretch(s, n, false);
    Cut(s.ns, r.a, r.p, r.b);
  }

  /** The traversal lists the nodes as the shape does. */
  lemma TraversalIsListing(s: Shape)
    requires Tree(s)
    ensures InOrder(s, s.root) == s.ns
  {
    hide Pos, NodeOk, Hangs, InOrder, Ordered, Listed;
    if s.root == s.nil {
      EmptyRoot(s);
      NothingInOrder(s);
    } else {
      InOrderIsStretch(s, s.root);
      assert s.ns[0..|s.ns|] == s.ns;
    }
  }

  /** The in-order traversal meets every node once, in rising key order, with the entries of the map. */
  lemma TraversalIsSorted(s: Shape, m: map<Bytes, Bytes>)
    requires Tree(s) && Holds(s, m)
    ensures var ns := InOrder(s, s.root);
      && (forall i :: 0 <= i < |ns| ==> ns[i] in s.g && s.g[ns[i]].key in m && m[s.g[ns[i]].key] == s.g[ns[i]].value)
      && (forall n :: n in s.g ==> n in ns)
      && (forall i, j :: 0 <= i < j < |ns| ==> Compare(s.g[ns[i]].key, s.g[ns[j]].key) < 0)
      && |ns| == |m|
  {
    hide Pos, NodeOk, Hangs, InOrder, RootOk;
    TraversalIsListing(s);
    forall i, j | 0 <= i < j < |s.ns| ensures Compare(s.g[s.ns[i]].key, s.g[s.ns[j]].key) < 0 {
      CompareIsPos(s.g[s.ns[i]].key, s.g[s.ns[j]].key);
    }
    forall n | n in s.g ensures n in s.ns { SpanHoldsPlace(s, n); }
    SizeIsTotal(s, m);
  }

  lemma NothingInOrder(s: Shape)
    requires Tree(s) && s.g == map[]
    ensures InOrder(s, s.root) == []
  {}

  lemma SpanHoldsPlace(s: Shape, n: Node)
    requires Tree(s) && n in s.g
    ensures n in s.ns
  {
    hide Pos, Ordered, Listed, RootOk, Hangs, KidOk;
    assert NodeOk(s, n);
  }

  ghost function KeysUpTo(s: Shape, i: nat): set<Bytes>
    requires Listed(s) && i <= |s.ns|
  {
    set j | 0 <= j < i :: s.g[s.ns[j]].key
  }

  lemma {:induction false} KeysCounted(s: Shape, i: nat)
    requires Listed(s) && Ordered(s) && i <= |s.ns|
    ensures |KeysUpTo(s, i)| == i
    decreases i
  {
    hide Pos;
    if i > 0 {
      KeysCounted(s, i - 1);
      var k := s.g[s.ns[i - 1]].key;
      assert KeysUpTo(s, i) == KeysUpTo(s, i - 1) + {k};
      assert forall j :: 0 <= j < i - 1 ==> Pos(s.g[s.ns[j]].key) < Pos(s.g[s.ns[i - 1]].key);
    }
  }

  lemma SizeIsTotal(s: Shape, m: map<Bytes, Bytes>)
    requires Tree(s) && Holds(s, m)
    ensures |m| == Total(s)
  {
    hide Pos, NodeOk, Hangs, RootOk;
    KeysCounted(s, |s.ns|);
    assert KeysUpTo(s, |s.ns|) == m.Keys;
  }

  // ----- runs

  datatype Op = Put(key: Bytes, value: Bytes) | Mod(key: Bytes, value: Bytes) | Del(key: Bytes)

  /** The represented map with the counter beside it. */
  datatype State = State(m: map<Bytes, Bytes>, count: int)

  ghost function Apply(st: State, op: Op): State {
    match op
    case Put(k, v) => State(if k in st.m then st.m else st.m[k := v], st.count + 1)
    case Mod(k, v) => State(if k in st.m then st.m[k := v] else st.m, st.count)
    case Del(k) => State(st.m - {k}, if k in st.m then st.count - 1 else st.count)
  }

  ghost function ApplyAll(st: State, ops: seq<Op>): State {
    if ops == [] then st else Apply(ApplyAll(st, ops[..|ops| - 1]), ops[|ops| - 1])
  }

  /** How many sets met a key that was present. */
  ghost function Repeats(st: State, ops: seq<Op>): nat {
    if ops == [] then 0
    else
      var before, op := ops[..|ops| - 1], ops[|ops| - 1];
      Repeats(st, before) + if op.Put? && op.key in ApplyAll(st, before).m then 1 else 0
  }

  /** The counter drifts from the true number of entries by exactly the repeated sets. */
  lemma {:induction false} CountDrifts(st: State, ops: seq<Op>)
    ensures var end := ApplyAll(st, ops); end.count - |end.m| == st.count - |st.m| + Repeats(st, ops)
    decreases |ops|
  {
    if ops != [] {
      var before, op := ops[..|ops| - 1], ops[|ops| - 1];
      CountDrifts(st, before);
      var mid := ApplyAll(st, before);
      if op.Del? && op.key in mid.m {
        assert (mid.m - {op.key}).Keys == mid.m.Keys - {op.key};
        assert |mid.m.Keys - {op.key}| == |mid.m.Keys| - 1;
      }
      assert op.Put? && op.key !in mid.m ==> mid.m[op.key := op.value].Keys == mid.m.Keys + {op.key};
      assert op.Mod? && op.key in mid.m ==> mid.m[op.key := op.value].Keys == mid.m.Keys;
    }
  }

  /** From an empty tree, the counter is the number of entries exactly if no set met a present key. */
  lemma CountIsExact(ops: seq<Op>)
    ensures var end := ApplyAll(State(map[], 0), ops);
      end.count == |end.m| <==> Repeats(State(map[], 0), ops) == 0
  {
    CountDrifts(State(map[], 0), ops);
  }

  /** Two sets of one key: one entry, counted twice. */
  lemma CountsTwice(k: Bytes, v: Bytes, w: Bytes)
    ensures var end := ApplyAll(State(map[], 0), [Put(k, v), Put(k, w)]); end == State(map[k := v], 2) && |end.m| == 1
  {
    var none := State(map[], 0);
    assert [Put(k, v), Put(k, w)][..1] == [Put(k, v)] && [Put(k, v)][..0] == [];
    assert ApplyAll(none, [Put(k, v)]) == Apply(ApplyAll(none, []), Put(k, v));
  }

  /** The same on a tree: its counter says 2 where the map has one entry. */
  method CountsTwiceInTree(k: Bytes, v: Bytes, w: Bytes) returns (t: RBTree)
    ensures t.Valid() && t.m == map[k := v] && |t.m| == 1 && t.count == 2
  {
    hide Pos, PicturesShape, NodesOf, Holds, RBShape.Valid;
    t := new RBTree();
    CountsTwice(k, v, w);
    Run(t, [Put(k, v), Put(k, w)]);
  }

  /** Any run of calls leaves a sound tree that represents the plain-map result. */
  method Run(t: RBTree, ops: seq<Op>)
    requires t.Valid()
    modifies t.Repr()
    ensures t.Valid() && State(t.m, t.count) == ApplyAll(old(State(t.m, t.count)), ops)
  {
    hide Pos, PicturesShape, NodesOf, Holds, RBShape.Valid;
    var i := 0;
    assert ops[..0] == [];
    while i < |ops|
      invariant 0 <= i <= |ops|
      invariant t.Valid() && State(t.m, t.count) == ApplyAll(old(State(t.m, t.count)), ops[..i])
      invariant forall o :: o in t.Repr() && o !in old(t.Repr()) ==> fresh(o)
    {
      assert ops[..i + 1][..i] == ops[..i];
      match ops[i] {
        case Put(k, v) => t.Set(k, v);
        case Mod(k, v) => var st := t.Modify(k, v);
        case Del(k) => var st := t.Delete(k);
      }
      i := i + 1;
    }
    assert ops[..i] == ops;
  }
}
