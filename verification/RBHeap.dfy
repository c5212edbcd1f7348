/** Red-black nodes in the heap as a picture of a graph of records, and the edits of single fields. */
module RBHeap {
  import opened Bytes
  import opened RBShape

  ghost predicate Mirrors(n: Node, r: Rec)
    reads n
  {
    && n.red == r.red && n.left == r.left && n.right == r.right && n.parent == r.parent
    && n.key == r.key && n.value == r.value
  }

  /** The heap is a picture of the graph `g`. */
  ghost predicate Pictures(g: map<Node, Rec>)
    reads g.Keys
  {
    forall n {:trigger Mirrors(n, g[n])} :: n in g ==> Mirrors(n, g[n])
  }

  /** The graphs differ in places, stretches and black heights only. */
  ghost predicate SamePicture(g: map<Node, Rec>, g': map<Node, Rec>) {
    && g'.Keys == g.Keys
    && forall n :: n in g ==> g'[n].(a := g[n].a, b := g[n].b, p := g[n].p, bh := g[n].bh) == g[n]
  }

  lemma Seen(g: map<Node, Rec>, n: Node)
    requires Pictures(g) && n in g
    ensures Mirrors(n, g[n])
  {}

  lemma Reshade(g: map<Node, Rec>, g': map<Node, Rec>)
    requires Pictures(g) && SamePicture(g, g')
    ensures Pictures(g')
  {
    forall n | n in g' ensures Mirrors(n, g'[n]) {
      assert Mirrors(n, g[n]);
    }
  }

  lemma Forget(g: map<Node, Rec>, n: Node)
    requires Pictures(g)
    ensures Pictures(g - {n})
  {
    var g' := g - {n};
    forall x | x in g' ensures Mirrors(x, g'[x]) {
      assert Mirrors(x, g[x]);
    }
  }

  method SetKid(ghost g: map<Node, Rec>, n: Node, l: bool, c: Node?)
    requires Pictures(g) && n in g
    modifies n`left, n`right
    ensures Pictures(g[n := g[n].WithKid(l, c)])
  {
    assert Mirrors(n, g[n]);
    if l {
      n.left := c;
    } else {
      n.right := c;
    }
    ghost var g' := g[n := g[n].WithKid(l, c)];
    forall x | x in g' ensures Mirrors(x, g'[x]) {
      assert old(Mirrors(x, g[x]));
    }
  }

  method SetParent(ghost g: map<Node, Rec>, n: Node, q: Node?)
    requires Pictures(g) && n in g
    modifies n`parent
    ensures Pictures(g[n := g[n].(parent := q)]) && n.parent == q
  {
    assert Mirrors(n, g[n]);
    n.parent := q;
    ghost var g' := g[n := g[n].(parent := q)];
    forall x | x in g' ensures Mirrors(x, g'[x]) {
      assert old(Mirrors(x, g[x]));
    }
  }

  method SetRed(ghost g: map<Node, Rec>, n: Node, red: bool)
    requires Pictures(g) && n in g
    modifies n`red
    ensures Pictures(g[n := g[n].(red := red)])
  {
    assert Mirrors(n, g[n]);
    n.red := red;
    ghost var g' := g[n := g[n].(red := red)];
    forall x | x in g' ensures Mirrors(x, g'[x]) {
      assert old(Mirrors(x, g[x]));
    }
  }

  method SetPayload(ghost g: map<Node, Rec>, n: Node, key: Bytes, value: Bytes)
    requires Pictures(g) && n in g
    modifies n`key, n`value
    ensures Pictures(g[n := g[n].(key := key, value := value)])
  {
    assert Mirrors(n, g[n]);
    n.key, n.value := key, value;
    ghost var g' := g[n := g[n].(key := key, value := value)];
    forall x | x in g' ensures Mirrors(x, g'[x]) {
      assert old(Mirrors(x, g[x]));
    }
  }

  /** The field edits of a rotation of `x` towards `l`, one by one. */
  ghost function RotateEdits(s: Shape, x: Node, y: Node, l: bool): map<Node, Rec>
    requires x in s.g && y in s.g
  {
    var d, q := s.g[y].Kid(l), s.g[x].parent;
    var g1: map<Node, Rec> := s.g[x := s.g[x].WithKid(!l, d)];
    var g2: map<Node, Rec> := if d in g1 then g1[d := g1[d].(parent := x)] else g1;
    var g3: map<Node, Rec> := g2[y := g2[y].(parent := q)];
    var g4: map<Node, Rec> := if q in g3 then g3[q := g3[q].WithKid(g3[q].left == x, y)] else g3;
    var g5: map<Node, Rec> := g4[y := g4[y].WithKid(l, x)];
    g5[x := g5[x].(parent := y)]
  }

  lemma RotatePicture(s: Shape, x: Node, l: bool)
    requires Tree(s) && x in s.g && s.g[x].Kid(!l) != s.nil
    ensures CanRotate(s, x, l) && SamePicture(RotateEdits(s, x, Riser(s, x, l), l), Rotated(s, x, l).g)
  {
    hide Pos, Tree, Rotated;
    RotateAround(s, x, l);
    var y := Riser(s, x, l);
    var e, s' := RotateEdits(s, x, y, l), Rotated(s, x, l);
    RotatedAt(s, x, l, x);
    forall n | n in s.g ensures n in e && n in s'.g
      && s'.g[n].(a := e[n].a, b := e[n].b, p := e[n].p, bh := e[n].bh) == e[n] {
      RotatedAt(s, x, l, n);
    }
  }

  lemma RotateAround(s: Shape, x: Node, l: bool)
    requires Tree(s) && x in s.g && s.g[x].Kid(!l) != s.nil
    ensures CanRotate(s, x, l) && s.nil !in s.g
    ensures var y := Riser(s, x, l);
      var d, q := s.g[y].Kid(l), s.g[x].parent;
      && d != x && d != y && q != x && q != y && (d == s.nil || d in s.g) && (q == s.nil || q in s.g)
        && (d in s.g ==> q != d)
      && (q in s.g ==> s.g[q].left == x || s.g[q].right == x)
      && (x == s.root <==> q == s.nil)
  {
    hide Pos, Ordered, Listed;
    RotationFacts(s, x, l);
  }
}
