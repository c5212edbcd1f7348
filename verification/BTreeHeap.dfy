/**
  Nodes in the heap as a picture of a graph of records. Every edit of a node is paired
  with the edit of the graph it amounts to, so that the engine can reason about graphs.
 */
module BTreeHeap {
  import opened Bytes
  import opened BTreeNodes
  import opened BTreeShape

  /** Everything that belongs to the nodes `ns`. */
  ghost function Footprint(ns: set<Node>): set<object> {
    (set n: Node | n in ns :: n as object) +
    (set n: Node | n in ns :: n.keys as object) +
    (set n: Node | n in ns :: n.values as object) +
    (set n: Node | n in ns :: n.children as object)
  }

  lemma Owns(ns: set<Node>, n: Node)
    requires n in ns
    ensures {n, n.keys, n.values, n.children} <= Footprint(ns)
  {}

  lemma FootprintGrows(ns: set<Node>, n: Node)
    ensures Footprint(ns + {n}) == Footprint(ns) + {n, n.keys, n.values, n.children}
  {}

  lemma FootprintMonotone(ns: set<Node>, ms: set<Node>)
    requires ns <= ms
    ensures Footprint(ns) <= Footprint(ms)
  {}

  /** No two nodes share an array. */
  ghost predicate Apart(ns: set<Node>) {
    forall a, b :: a in ns && b in ns && a != b ==>
      a.keys != b.keys && a.values != b.values && a.children != b.children
  }

  /** The fields of `n` are what the record `r` says. */
  ghost predicate Mirrors(n: Node, r: Rec, order: nat)
    reads n, n.keys, n.values, n.children
  {
    && n.Shaped() && n.maxKeys == order && n.isLeaf == r.leaf
    && n.Keys() == r.keys && n.Values() == r.vals && n.Children() == r.kids
    && n.parent == r.parent && n.next == r.next && n.prev == r.prev
  }

  /** The heap is a picture of the graph `g`. */
  ghost predicate Pictures(g: map<Node, Rec>, order: nat)
    reads Footprint(g.Keys)
  {
    && Apart(g.Keys)
    && forall n {:trigger Mirrors(n, g[n], order)} :: n in g ==> Mirrors(n, g[n], order)
  }

  lemma Seen(g: map<Node, Rec>, order: nat, n: Node)
    requires Pictures(g, order) && n in g
    ensures Mirrors(n, g[n], order)
  {}

  /** The graphs differ in ranges and ranks only. */
  ghost predicate SamePicture(g: map<Node, Rec>, g': map<Node, Rec>) {
    && g'.Keys == g.Keys
    && forall n :: n in g ==> g'[n].(lo := g[n].lo, hi := g[n].hi, rank := g[n].rank) == g[n]
  }

  lemma Reshade(g: map<Node, Rec>, g': map<Node, Rec>, order: nat)
    requires Pictures(g, order) && SamePicture(g, g')
    ensures Pictures(g', order)
  {
    forall n | n in g' ensures Mirrors(n, g'[n], order) {
      assert Mirrors(n, g[n], order);
    }
  }

  /** A picture of a graph is a picture of every part of it. */
  lemma Forget(g: map<Node, Rec>, order: nat, n: Node)
    requires Pictures(g, order)
    ensures Pictures(g - {n}, order)
  {
    var g' := g - {n};
    forall x | x in g' ensures Mirrors(x, g'[x], order) {
      assert Mirrors(x, g[x], order);
    }
  }

  ghost function Blank(leaf: bool): Rec {
    Rec(leaf, [], [], if leaf then [] else [null], null, null, null, BOTTOM, TOP, 0)
  }

  method CreateNode(ghost g: map<Node, Rec>, leaf: bool, order: nat) returns (n: Node)
    requires Pictures(g, order) && MIN_ORDER <= order
    ensures n !in g && fresh({n, n.keys, n.values, n.children})
    ensures Pictures(g[n := Blank(leaf)], order)
  {
    n := new Node(leaf, order);
    ghost var g' := g[n := Blank(leaf)];
    forall x | x in g' ensures Mirrors(x, g'[x], order) {
      assert x != n ==> old(Mirrors(x, g[x], order));
    }
  }

  method SetParent(ghost g: map<Node, Rec>, ghost order: nat, n: Node, p: Node?)
    requires Pictures(g, order) && n in g
    modifies n`parent
    ensures Pictures(g[n := g[n].(parent := p)], order)
  {
    assert Mirrors(n, g[n], order);
    n.parent := p;
    ghost var g' := g[n := g[n].(parent := p)];
    forall x | x in g' ensures Mirrors(x, g'[x], order) {
      assert old(Mirrors(x, g[x], order));
    }
  }

  method SetNext(ghost g: map<Node, Rec>, ghost order: nat, n: Node, p: Node?)
    requires Pictures(g, order) && n in g
    modifies n`next
    ensures Pictures(g[n := g[n].(next := p)], order)
  {
    assert Mirrors(n, g[n], order);
    n.next := p;
    ghost var g' := g[n := g[n].(next := p)];
    forall x | x in g' ensures Mirrors(x, g'[x], order) {
      assert old(Mirrors(x, g[x], order));
    }
  }

  method SetPrev(ghost g: map<Node, Rec>, ghost order: nat, n: Node, p: Node?)
    requires Pictures(g, order) && n in g
    modifies n`prev
    ensures Pictures(g[n := g[n].(prev := p)], order)
  {
    assert Mirrors(n, g[n], order);
    n.prev := p;
    ghost var g' := g[n := g[n].(prev := p)];
    forall x | x in g' ensures Mirrors(x, g'[x], order) {
      assert old(Mirrors(x, g[x], order));
    }
  }

  method FillLeaf(ghost g: map<Node, Rec>, ghost order: nat, n: Node, ks: seq<Bytes>, vs: seq<Value>)
    requires Pictures(g, order) && n in g && g[n].leaf && |ks| == |vs| <= order
    modifies n`keyCount, n.keys, n.values
    ensures Pictures(g[n := g[n].(keys := ks, vals := vs)], order)
  {
    assert Mirrors(n, g[n], order);
    n.FillLeaf(ks, vs);
    ghost var g' := g[n := g[n].(keys := ks, vals := vs)];
    forall x | x in g' ensures Mirrors(x, g'[x], order) {
      assert old(Mirrors(x, g[x], order));
    }
  }

  method FillInner(ghost g: map<Node, Rec>, ghost order: nat, n: Node, ks: seq<Bytes>, cs: seq<Node?>)
    requires Pictures(g, order) && n in g && !g[n].leaf && |ks| <= order && |cs| == |ks| + 1
    modifies n`keyCount, n.keys, n.children
    ensures Pictures(g[n := g[n].(keys := ks, kids := cs)], order)
  {
    assert Mirrors(n, g[n], order);
    n.FillInner(ks, cs);
    ghost var g' := g[n := g[n].(keys := ks, kids := cs)];
    forall x | x in g' ensures Mirrors(x, g'[x], order) {
      assert old(Mirrors(x, g[x], order));
    }
  }

  method InsertEntry(ghost g: map<Node, Rec>, ghost order: nat, n: Node, i: nat, k: Bytes, v: Value)
    requires Pictures(g, order) && n in g && g[n].leaf && i <= |g[n].keys| == |g[n].vals| < order
    modifies n`keyCount, n.keys, n.values
    ensures Pictures(g[n := g[n].(keys := Insert(g[n].keys, i, k), vals := Insert(g[n].vals, i, v))], order)
  {
    assert Mirrors(n, g[n], order);
    n.InsertEntry(i, k, v);
    ghost var g' := g[n := g[n].(keys := Insert(g[n].keys, i, k), vals := Insert(g[n].vals, i, v))];
    forall x | x in g' ensures Mirrors(x, g'[x], order) {
      assert old(Mirrors(x, g[x], order));
    }
  }

  method SetValue(ghost g: map<Node, Rec>, ghost order: nat, n: Node, i: nat, v: Value)
    requires Pictures(g, order) && n in g && g[n].leaf && i < |g[n].vals|
    modifies n.values
    ensures Pictures(g[n := g[n].(vals := g[n].vals[i := v])], order)
  {
    assert Mirrors(n, g[n], order);
    n.values[i] := v;
    ghost var g' := g[n := g[n].(vals := g[n].vals[i := v])];
    forall x | x in g' ensures Mirrors(x, g'[x], order) {
      assert old(Mirrors(x, g[x], order));
    }
  }

  method SetKey(ghost g: map<Node, Rec>, ghost order: nat, n: Node, i: nat, k: Bytes)
    requires Pictures(g, order) && n in g && i < |g[n].keys|
    modifies n.keys
    ensures Pictures(g[n := g[n].(keys := g[n].keys[i := k])], order)
  {
    assert Mirrors(n, g[n], order);
    n.keys[i] := k;
    ghost var g' := g[n := g[n].(keys := g[n].keys[i := k])];
    forall x | x in g' ensures Mirrors(x, g'[x], order) {
      assert old(Mirrors(x, g[x], order));
    }
  }

  method InsertChild(ghost g: map<Node, Rec>, ghost order: nat, n: Node, i: nat, k: Bytes, c: Node)
    requires Pictures(g, order) && n in g && !g[n].leaf && i <= |g[n].keys| < order && |g[n].kids| == |g[n].keys| + 1
    modifies n`keyCount, n.keys, n.children
    ensures Pictures(g[n := g[n].(keys := Insert(g[n].keys, i, k), kids := Insert(g[n].kids, i + 1, c))], order)
  {
    assert Mirrors(n, g[n], order);
    n.InsertChild(i, k, c);
    ghost var g' := g[n := g[n].(keys := Insert(g[n].keys, i, k), kids := Insert(g[n].kids, i + 1, c))];
    forall x | x in g' ensures Mirrors(x, g'[x], order) {
      assert old(Mirrors(x, g[x], order));
    }
  }

  method RemoveEntry(ghost g: map<Node, Rec>, ghost order: nat, n: Node, i: nat)
    requires Pictures(g, order) && n in g && g[n].leaf && i < |g[n].keys| == |g[n].vals|
    modifies n`keyCount, n.keys, n.values, n.children
    ensures Pictures(g[n := g[n].(keys := Remove(g[n].keys, i), vals := Remove(g[n].vals, i))], order)
  {
    assert Mirrors(n, g[n], order);
    n.RemoveAt(i);
    ghost var g' := g[n := g[n].(keys := Remove(g[n].keys, i), vals := Remove(g[n].vals, i))];
    forall x | x in g' ensures Mirrors(x, g'[x], order) {
      assert old(Mirrors(x, g[x], order));
    }
  }

  method RemoveChild(ghost g: map<Node, Rec>, ghost order: nat, n: Node, i: nat)
    requires Pictures(g, order) && n in g && !g[n].leaf && i < |g[n].keys| && |g[n].kids| == |g[n].keys| + 1
    modifies n`keyCount, n.keys, n.values, n.children
    ensures Pictures(g[n := g[n].(keys := Remove(g[n].keys, i), kids := Remove(g[n].kids, i + 1))], order)
  {
    assert Mirrors(n, g[n], order);
    n.RemoveAt(i);
    ghost var g' := g[n := g[n].(keys := Remove(g[n].keys, i), kids := Remove(g[n].kids, i + 1))];
    forall x | x in g' ensures Mirrors(x, g'[x], order) {
      assert old(Mirrors(x, g[x], order));
    }
  }

  method AdoptAll(ghost g: map<Node, Rec>, ghost order: nat, p: Node, cs: seq<Node?>)
    requires Pictures(g, order) && forall c :: c in cs ==> c in g
    modifies (set c | c in cs)`parent
    ensures Pictures(Adopt(g, cs, p), order)
  {
    p.AdoptAll(cs);
    ghost var g' := Adopt(g, cs, p);
    assert g'.Keys == g.Keys;
    forall x | x in g' ensures Mirrors(x, g'[x], order) {
      assert old(Mirrors(x, g[x], order));
    }
  }
}
