/**
  Twelve insertions and two deletions that leave a B+tree of order 3 with an underfull inner node.
  The separators, each with its level, fix the tree, so the proof follows them from call to call.
 */
module BTreeWitness {
  import opened Bytes
  import opened BTreeNodes
  import opened BTreeShape
  import opened BTreeHeap
  import opened BTreeSteps
  import opened BTreeClimb
  import opened BTreeLinks
  import opened BTreeEngine

  // ----- keys of one byte

  lemma PosByte(a: Byte, b: Byte)
    ensures Pos([a]) < Pos([b]) <==> a < b
    ensures [a] == [b] <==> a == b
    ensures BOTTOM < Pos([a]) < TOP
  {
    assert [a][1..] == [] && [b][1..] == [];
    assert [a][0] == a && [b][0] == b;
  }

  function Singles(xs: seq<Byte>): (r: seq<Bytes>)
    ensures |r| == |xs| && forall i :: 0 <= i < |xs| ==> r[i] == [xs[i]]
  {
    seq(|xs|, i requires 0 <= i < |xs| => [xs[i]])
  }

  predicate Rising(xs: seq<Byte>) {
    forall i, j :: 0 <= i < j < |xs| ==> xs[i] < xs[j]
  }

  lemma SinglesSorted(xs: seq<Byte>)
    requires Rising(xs)
    ensures Sorted(Singles(xs))
  {
    hide Pos;
    forall i, j | 0 <= i < j < |xs| ensures Pos(Singles(xs)[i]) < Pos(Singles(xs)[j]) {
      PosByte(xs[i], xs[j]);
    }
  }

  lemma SinglesHas(xs: seq<Byte>, k: Bytes)
    ensures k in Singles(xs) <==> |k| == 1 && k[0] in xs
  {
    if k in Singles(xs) {
      var i :| 0 <= i < |xs| && Singles(xs)[i] == k;
    }
    if |k| == 1 && k[0] in xs {
      var i :| 0 <= i < |xs| && xs[i] == k[0];
      assert Singles(xs)[i] == k;
    }
  }

  /** A sorted sequence is determined by its members. */
  lemma {:induction false} SortedSame(a: seq<Bytes>, b: seq<Bytes>)
    requires Sorted(a) && Sorted(b) && forall k :: k in a <==> k in b
    ensures a == b
  {
    hide Pos;
    if a == [] {
      if b != [] { HasHead(b); }
    } else {
      assert a[0] in b && b != [];
      assert b[0] in a;
      var i :| 0 <= i < |a| && a[i] == b[0];
      var j :| 0 <= j < |b| && b[j] == a[0];
      assert a[0] == b[0];
      forall k ensures k in a[1..] <==> k in b[1..] {
        TailMembers(a, k);
        TailMembers(b, k);
      }
      SortedSame(a[1..], b[1..]);
      assert a == [a[0]] + a[1..] && b == [b[0]] + b[1..];
    }
  }

  lemma HasHead(a: seq<Bytes>)
    requires a != []
    ensures exists k :: k in a
  {
    assert a[0] in a;
  }

  lemma TailMembers(a: seq<Bytes>, k: Bytes)
    requires Sorted(a) && a != []
    ensures k in a[1..] <==> k in a && k != a[0]
  {
    hide Pos;
    if k in a && k != a[0] {
      var i :| 0 <= i < |a| && a[i] == k;
      assert a[1..][i - 1] == k;
    }
  }

  // ----- trees whose separators are single bytes

  /** The separators as a map from byte to level. */
  ghost predicate Encodes(seps: set<(Bytes, nat)>, t: map<Byte, nat>) {
    && (forall e :: e in seps ==> |e.0| == 1 && e.0[0] in t && t[e.0[0]] == e.1)
    && (forall b: Byte :: b in t ==> b > 0 && ([b], t[b]) in seps)
  }

  ghost predicate SepsAre(s: Shape, t: map<Byte, nat>) {
    Encodes(SepsOf(s), t)
  }

  lemma EncodesMore(seps: set<(Bytes, nat)>, t: map<Byte, nat>, x: Byte, r: nat)
    requires Encodes(seps, t) && x > 0 && x !in t
    ensures Encodes(seps + {([x], r)}, t[x := r])
  {}

  lemma EncodesLess(seps: set<(Bytes, nat)>, t: map<Byte, nat>, x: Byte)
    requires Encodes(seps, t) && x in t
    ensures Encodes(seps - {([x], t[x])}, t - {x})
  {
    forall e | e in seps - {([x], t[x])} ensures e.0[0] in t - {x} {
      assert e.0 == [e.0[0]];
    }
  }

  ghost predicate KeysAre(s: Shape, a: nat, b: nat)
    requires b < 256
  {
    forall k :: k in MapOf(s) <==> |k| == 1 && a <= k[0] <= b
  }

  /** No separator above `rank` lies strictly between `a` and `b`, and each of them is one or an end. */
  ghost predicate Gap(t: map<Byte, nat>, rank: nat, a: nat, b: nat) {
    && a < b <= 256
    && (a == 0 || (a in t && t[a] > rank))
    && (b == 256 || (b in t && t[b] > rank))
    && forall x :: x in t && t[x] > rank ==> x <= a || b <= x
  }

  /** The range of `n` goes from `a` to `b`. */
  ghost predicate Spans(s: Shape, n: Node, a: nat, b: nat) {
    && a < b <= 256 && n in s.g
    && s.g[n].lo == (if a == 0 then BOTTOM else Pos([a]))
    && s.g[n].hi == (if b == 256 then TOP else Pos([b]))
  }

  lemma SpanCovers(s: Shape, n: Node, a: nat, b: nat, x: Byte)
    requires Spans(s, n, a, b) && x > 0
    ensures s.g[n].Covers([x]) <==> a <= x < b
  {
    hide Pos;
    if a > 0 { PosByte(a, x); } else { PosByte(x, x); }
    if b < 256 { PosByte(x, b); } else { PosByte(x, x); }
    if a > 0 { PosByte(x, a); }
  }

  lemma FindSpan(s: Shape, t: map<Byte, nat>, n: Node, x: Byte, a: nat, b: nat)
    requires Inv(s) && SepsAre(s, t) && n in s.g && s.g[n].Covers([x]) && Gap(t, s.g[n].rank, a, b) && a <= x < b
    ensures Spans(s, n, a, b)
  {
    hide Pos, Inv, SepsOf;
    RangeEnds(s, n);
    if a > 0 { NoSepInside(s, n, ([a], t[a])); }
    if b < 256 { NoSepInside(s, n, ([b], t[b])); }
    LowerIs(s, t, n, x, a, b);
    UpperIs(s, t, n, x, a, b);
  }

  lemma LowerIs(s: Shape, t: map<Byte, nat>, n: Node, x: Byte, a: nat, b: nat)
    requires SepsAre(s, t) && n in s.g && s.g[n].Covers([x]) && Gap(t, s.g[n].rank, a, b) && a <= x < b
    requires s.g[n].lo == BOTTOM || exists e :: e in SepsOf(s) && e.1 > s.g[n].rank && Pos(e.0) == s.g[n].lo
    requires a > 0 ==> Pos([a]) <= s.g[n].lo || s.g[n].hi <= Pos([a])
    ensures s.g[n].lo == (if a == 0 then BOTTOM else Pos([a]))
  {
    hide Pos, SepsOf;
    if a > 0 { PosByte(x, a); PosByte(a, x); }
    if s.g[n].lo != BOTTOM {
      var e :| e in SepsOf(s) && e.1 > s.g[n].rank && Pos(e.0) == s.g[n].lo;
      assert e.0 == [e.0[0]];
      PosByte(x, e.0[0]);
      if a > 0 { PosByte(e.0[0], a); PosByte(a, e.0[0]); }
    }
  }

  lemma UpperIs(s: Shape, t: map<Byte, nat>, n: Node, x: Byte, a: nat, b: nat)
    requires SepsAre(s, t) && n in s.g && s.g[n].Covers([x]) && Gap(t, s.g[n].rank, a, b) && a <= x < b
    requires s.g[n].hi == TOP || exists e :: e in SepsOf(s) && e.1 > s.g[n].rank && Pos(e.0) == s.g[n].hi
    requires b < 256 ==> Pos([b]) <= s.g[n].lo || s.g[n].hi <= Pos([b])
    ensures s.g[n].hi == (if b == 256 then TOP else Pos([b]))
  {
    hide Pos, SepsOf;
    if b < 256 { PosByte(x, b); PosByte(b, x); }
    if s.g[n].hi != TOP {
      var e :| e in SepsOf(s) && e.1 > s.g[n].rank && Pos(e.0) == s.g[n].hi;
      assert e.0 == [e.0[0]];
      PosByte(x, e.0[0]);
      PosByte(e.0[0], x);
      if b < 256 { PosByte(b, e.0[0]); PosByte(e.0[0], b); }
    }
  }

  /** The keys of an inner node that spans `a` to `b`. */
  lemma InnerIs(s: Shape, t: map<Byte, nat>, n: Node, a: nat, b: nat, xs: seq<Byte>)
    requires Inv(s) && SepsAre(s, t) && n in s.g && !s.g[n].leaf && Spans(s, n, a, b) && Rising(xs)
    requires forall x: Byte :: x in xs <==> x in t && t[x] == s.g[n].rank && a <= x < b
    ensures s.g[n].keys == Singles(xs)
  {
    hide Pos, Inv, SepsOf, Sorted, Spans, Rising, Singles;
    InnerRange(s, n);
    SinglesSorted(xs);
    forall k ensures k in s.g[n].keys <==> k in Singles(xs) {
      SinglesHas(xs, k);
      InnerKeys(s, n, k);
      if |k| == 1 {
        assert k == [k[0]];
        if k[0] > 0 { SpanCovers(s, n, a, b, k[0]); }
      }
    }
    SortedSame(s.g[n].keys, Singles(xs));
  }

  /** The keys of a leaf that spans `a` to `b`. */
  lemma LeafIs(s: Shape, n: Node, a: nat, b: nat, lo: nat, hi: nat, xs: seq<Byte>)
    requires Inv(s) && 0 < lo && hi < 256 && KeysAre(s, lo, hi) && LeafIn(s, n) && Spans(s, n, a, b) && Rising(xs)
    requires forall x: Byte :: x in xs <==> lo <= x <= hi && a <= x < b
    ensures s.g[n].keys == Singles(xs)
  {
    hide Pos, Inv, Sorted, Spans, Rising, Singles;
    LeafInvFacts(s, n);
    SinglesSorted(xs);
    forall k ensures k in s.g[n].keys <==> k in Singles(xs) {
      SinglesHas(xs, k);
      LeafMembers(s, n, k);
      if |k| == 1 {
        assert k == [k[0]];
        if k[0] > 0 { SpanCovers(s, n, a, b, k[0]); }
      }
    }
    SortedSame(s.g[n].keys, Singles(xs));
  }

  lemma LeafMembers(s: Shape, n: Node, k: Bytes)
    requires Inv(s) && LeafIn(s, n)
    ensures k in s.g[n].keys <==> k in MapOf(s) && s.g[n].Covers(k)
  {
    hide Pos, Inv, Sorted;
    LeafInvFacts(s, n);
  }

  // ----- the nodes along the right edge and around the least key

  /** Every level has a node that covers a key. */
  lemma LeafOver(s: Shape, k: Bytes) returns (n: Node)
    requires Inv(s)
    ensures LeafIn(s, n) && s.g[n].Covers(k)
  {
    hide Pos, Inv;
    RootCovers(s, k);
    n := s.root;
    while !s.g[n].leaf
      invariant n in s.g && s.g[n].Covers(k)
      decreases s.g[n].rank
    {
      n := KidOver(s, n, k);
    }
  }

  lemma KidOver(s: Shape, n: Node, k: Bytes) returns (c: Node)
    requires Inv(s) && InnerIn(s, n) && s.g[n].Covers(k)
    ensures c in s.g && s.g[c].Covers(k) && s.g[c].rank < s.g[n].rank
  {
    hide Pos, Chain, Holds, RootOk, Hangs, Sorted;
    assert NodeOk(s.g, n);
    var i := 0;
    while i < |s.g[n].keys| && Pos(s.g[n].keys[i]) <= Pos(k)
      invariant 0 <= i <= |s.g[n].keys| && s.g[n].Lower(i) <= Pos(k)
    {
      i := i + 1;
    }
    assert ChildOk(s.g, n, i);
    c := s.g[n].kids[i];
  }

  /** Where separators of the next level exist, a node has a parent; where none do, it is the root. */
  lemma ParentIff(s: Shape, t: map<Byte, nat>, n: Node, order: nat)
    requires MIN_ORDER <= order && Inv(s) && Filled(s, order) && SepsAre(s, t) && n in s.g
    ensures (exists x :: x in t && t[x] > s.g[n].rank) ==> n != s.root
    ensures (forall x :: x in t ==> t[x] <= s.g[n].rank) ==> n == s.root
  {
    hide Pos, Inv, SepsOf;
    RootIn(s);
    if x :| x in t && t[x] > s.g[n].rank {
      SepHome(s, ([x], t[x]));
    }
    if n != s.root && forall x :: x in t ==> t[x] <= s.g[n].rank {
      ParentAbove(s, n);
      var i := SlotRange(s, n);
      var p := s.g[n].parent;
      assert |s.g[p].keys| > 0;
      SepIn(s, p, s.g[p].keys[0]);
    }
  }

  lemma SepHome(s: Shape, e: (Bytes, nat))
    requires e in SepsOf(s)
    ensures exists q :: q in s.g && s.g[q].rank == e.1
  {}

  /** The leaf at the right end, and the place of the next key in it. */
  lemma LastLeaf(s: Shape, t: map<Byte, nat>, a: nat, i: nat, xs: seq<Byte>) returns (n: Node)
    requires Inv(s) && SepsAre(s, t) && i < 255 && KeysAre(s, 1, i) && Gap(t, 0, a, 256) && a <= i + 1 && Rising(xs)
    requires forall x: Byte :: x in xs <==> 1 <= x <= i && a <= x < 256
    ensures Fits(s, n, |xs|, [i + 1]) && s.g[n].keys == Singles(xs) && Spans(s, n, a, 256) && s.g[n].rank == 0
  {
    hide Pos, Inv, Sorted, SepsOf, Encodes, Rising;
    n := LeafOver(s, [i + 1]);
    LeafInvFacts(s, n);
    FindSpan(s, t, n, i + 1, a, 256);
    LeafIs(s, n, a, 256, 1, i, xs);
    forall j | 0 <= j < |xs| ensures Pos(s.g[n].keys[j]) < Pos([i + 1]) {
      assert xs[j] in xs;
      PosByte(xs[j], i + 1);
    }
    SinglesHas(xs, [i + 1]);
  }

  /** The parent of a node at the right end. */
  lemma LastParent(s: Shape, t: map<Byte, nat>, n: Node, c: nat, a: nat, xs: seq<Byte>) returns (p: Node)
    requires Inv(s) && SepsAre(s, t) && n in s.g && n != s.root && Spans(s, n, c, 256) && Rising(xs) && c <= 254
    requires Gap(t, s.g[n].rank + 1, a, 256) && a <= c
    requires forall x: Byte :: x in xs <==> x in t && t[x] == s.g[n].rank + 1 && a <= x < 256
    ensures Rises(s, n) && p in s.g && p == s.g[n].parent && s.g[p].keys == Singles(xs) && Spans(s, p, a, 256)
    ensures s.g[p].rank == s.g[n].rank + 1 && IndexIn(s.g[p].kids, n) == |xs|
  {
    hide Pos, Inv, Sorted, SepsOf, Encodes, Rising, Spans;
    RootIn(s);
    ParentAbove(s, n);
    p := s.g[n].parent;
    var j := SlotRange(s, n);
    SpanCovers(s, n, c, 256, 255);
    FindSpan(s, t, p, 255, a, 256);
    InnerIs(s, t, p, a, 256, xs);
    SpanEnd(s, n, c);
    if j < |xs| { PosByte(xs[j], xs[j]); }
    OneSlot(s, p, j, IndexIn(s.g[p].kids, n), n);
  }

  lemma SpanEnd(s: Shape, n: Node, c: nat)
    requires Spans(s, n, c, 256)
    ensures s.g[n].hi == TOP
  {}

  // ----- twelve keys in ascending order

  /** The separators once the keys 1 to `i` are in. */
  function SepsAt(i: nat): map<Byte, nat> {
    if i < 4 then map[]
    else if i < 6 then map[3 := 1]
    else if i < 8 then map[3 := 1, 5 := 1]
    else if i < 10 then map[3 := 1, 5 := 1, 7 := 1]
    else if i < 12 then map[3 := 1, 7 := 1, 9 := 1, 5 := 2]
    else map[3 := 1, 7 := 1, 9 := 1, 5 := 2, 11 := 1]
  }

  ghost predicate At(s: Shape, i: nat)
    requires i < 256
  {
    Inv(s) && Filled(s, 3) && KeysAre(s, 1, i) && SepsAre(s, SepsAt(i))
  }

  lemma Quiet(s: Shape, s': Shape, i: nat, a: nat, xs: seq<Byte>)
    requires i < 12 && At(s, i) && SepsInserted(s, s', [i + 1], 3)
    requires Gap(SepsAt(i), 0, a, 256) && a <= i + 1 && Rising(xs) && |xs| < 3
    requires forall x: Byte :: x in xs <==> 1 <= x <= i && a <= x < 256
    ensures SepsAre(s', SepsAt(i))
  {
    hide Pos, Inv, SepsOf, Encodes, Rising, Filled, Gap, Spans, SepsAt;
    var n := LastLeaf(s, SepsAt(i), a, i, xs);
  }

  /** A full leaf at the right end splits, and the last key but one moves up. */
  lemma Splits(s: Shape, s': Shape, i: nat, a: nat, xs: seq<Byte>) returns (n: Node)
    requires i < 12 && At(s, i) && SepsInserted(s, s', [i + 1], 3)
    requires Gap(SepsAt(i), 0, a, 256) && a <= i + 1 && Rising(xs) && |xs| == 3 && xs[2] == i
    requires forall x: Byte :: x in xs <==> 1 <= x <= i && a <= x < 256
    ensures n in s.g && s.g[n].rank == 0 && Spans(s, n, a, 256)
    ensures SepsOf(s') == Climbed(s, SepsOf(s), n, [i], 3)
  {
    hide Pos, Inv, SepsOf, Encodes, Rising, Filled, Gap, Spans, SepsAt, Climbed;
    n := LastLeaf(s, SepsAt(i), a, i, xs);
    assert LeafPromoted(s, n, 3, [i + 1], 3) == [i];
  }

  lemma FirstSplit(s: Shape, s': Shape)
    requires At(s, 3) && SepsInserted(s, s', [4], 3)
    ensures SepsAre(s', SepsAt(4))
  {
    hide Pos, Inv, SepsOf, Encodes, Filled, Spans;
    var n := Splits(s, s', 3, 0, [1, 2, 3]);
    ParentIff(s, SepsAt(3), n, 3);
    EncodesMore(SepsOf(s), SepsAt(3), 3, 1);
    assert SepsAt(3)[3 := 1] == SepsAt(4);
  }

  /** A split that ends in a parent with room. */
  lemma Joins(s: Shape, s': Shape, i: nat, a: nat, c: nat, xs: seq<Byte>, ys: seq<Byte>)
    requires 0 < i < 12 && At(s, i) && SepsInserted(s, s', [i + 1], 3)
    requires Gap(SepsAt(i), 0, a, 256) && a <= i + 1 && Rising(xs) && |xs| == 3 && xs[2] == i
    requires forall x: Byte :: x in xs <==> 1 <= x <= i && a <= x < 256
    requires Gap(SepsAt(i), 1, c, 256) && c <= a && Rising(ys) && |ys| < 3
    requires forall x: Byte :: x in ys <==> x in SepsAt(i) && SepsAt(i)[x] == 1 && c <= x < 256
    requires i !in SepsAt(i) && a in SepsAt(i) && SepsAt(i)[a] > 0
    ensures SepsAre(s', SepsAt(i)[i := 1])
  {
    hide Pos, Inv, SepsOf, Encodes, Filled, Gap, Spans, SepsAt, Rising, Rises;
    var n := Splits(s, s', i, a, xs);
    ParentIff(s, SepsAt(i), n, 3);
    var p := LastParent(s, SepsAt(i), n, a, c, ys);
    EncodesMore(SepsOf(s), SepsAt(i), i, 1);
  }

  /** The split that makes the root split. */
  lemma SecondLevel(s: Shape, s': Shape)
    requires At(s, 9) && SepsInserted(s, s', [10], 3)
    ensures SepsAre(s', SepsAt(10))
  {
    hide Pos, Inv, SepsOf, Encodes, Filled, Spans, Rises, Climbed;
    var t := SepsAt(9);
    var n := Splits(s, s', 9, 7, [7, 8, 9]);
    ParentIff(s, t, n, 3);
    var p := LastParent(s, t, n, 7, 0, [3, 5, 7]);
    ParentIff(s, t, p, 3);
    RootSplits(s, n, p);
    FiveMovesUp(SepsOf(s));
  }

  lemma RootSplits(s: Shape, n: Node, p: Node)
    requires n in s.g && n != s.root && Rises(s, n) && p == s.g[n].parent == s.root && s.g[p].keys == Singles([3, 5, 7])
    requires IndexIn(s.g[p].kids, n) == 3 && s.g[p].rank == 1
    ensures Climbed(s, SepsOf(s), n, [9], 3) == SepsOf(s) + {([9], 1)} - {([5], 1)} + {([5], 2)}
  {
    hide SepsOf, Rises;
    RisesFacts(s, n);
    assert Insert(s.g[p].keys, 3, [9])[InnerPoint(3)] == [5];
    assert Climbed(s, SepsOf(s), n, [9], 3) == Climbed(s, SepsOf(s) + {([9], 1)} - {([5], 1)}, p, [5], 3);
  }

  lemma FiveMovesUp(seps: set<(Bytes, nat)>)
    requires Encodes(seps, SepsAt(9))
    ensures Encodes(seps + {([9], 1)} - {([5], 1)} + {([5], 2)}, SepsAt(10))
  {
    hide Encodes;
    var t, joined := SepsAt(9), seps + {([9], 1)};
    EncodesMore(seps, t, 9, 1);
    EncodesLess(joined, t[9 := 1], 5);
    EncodesMore(joined - {([5], 1)}, t[9 := 1] - {5}, 5, 2);
    assert (t[9 := 1] - {5})[5 := 2] == SepsAt(10);
  }

  lemma QuietFirst(s: Shape, s': Shape, i: nat)
    requires i < 3 && At(s, i) && SepsInserted(s, s', [i + 1], 3)
    ensures SepsAre(s', SepsAt(i + 1))
  {
    hide Pos, SepsOf, Encodes, At, SepsInserted;
    Quiet(s, s', i, 0, Upto(1, i));
  }

  lemma QuietLater(s: Shape, s': Shape, i: nat)
    requires 4 <= i < 12 && i % 2 == 0 && At(s, i) && SepsInserted(s, s', [i + 1], 3)
    ensures SepsAre(s', SepsAt(i + 1))
  {
    hide Pos, SepsOf, Encodes, At, SepsInserted;
    Quiet(s, s', i, i - 1, Upto(i - 1, i));
  }

  lemma JoinsFirst(s: Shape, s': Shape, i: nat)
    requires (i == 5 || i == 7) && At(s, i) && SepsInserted(s, s', [i + 1], 3)
    ensures SepsAre(s', SepsAt(i + 1))
  {
    hide Pos, SepsOf, Encodes, At, SepsInserted;
    if i == 5 {
      Joins(s, s', 5, 3, 0, [3, 4, 5], [3]);
    } else {
      Joins(s, s', 7, 5, 0, [5, 6, 7], [3, 5]);
    }
    assert SepsAt(i)[i := 1] == SepsAt(i + 1);
  }

  lemma JoinsLast(s: Shape, s': Shape)
    requires At(s, 11) && SepsInserted(s, s', [12], 3)
    ensures SepsAre(s', SepsAt(12))
  {
    hide Pos, SepsOf, Encodes, At, SepsInserted;
    Joins(s, s', 11, 9, 5, [9, 10, 11], [7, 9]);
    assert SepsAt(11)[11 := 1] == SepsAt(12);
  }

  /** One more key in ascending order. */
  lemma Ascends(s: Shape, s': Shape, i: nat)
    requires i < 12 && At(s, i) && SepsInserted(s, s', [i + 1], 3)
    ensures SepsAre(s', SepsAt(i + 1))
  {
    hide Pos, SepsAt, SepsAre, At, SepsInserted;
    if i < 3 {
      QuietFirst(s, s', i);
    } else if i == 3 {
      FirstSplit(s, s');
    } else if i == 5 || i == 7 {
      JoinsFirst(s, s', i);
    } else if i == 9 {
      SecondLevel(s, s');
    } else if i == 11 {
      JoinsLast(s, s');
    } else {
      QuietLater(s, s', i);
    }
  }

  function Upto(a: nat, b: nat): (xs: seq<Byte>)
    requires a <= b + 1 && b < 256
    ensures |xs| == b + 1 - a && (forall i :: 0 <= i < |xs| ==> xs[i] == a + i) && Rising(xs)
    ensures forall x: Byte :: x in xs <==> a <= x <= b
    decreases b + 1 - a
  {
    if a > b then [] else [a] + Upto(a + 1, b)
  }


  // ----- the deletion that gives up

  /** The tree after the twelve insertions and the deletion of the least key. */
  ghost predicate Ready(s: Shape) {
    Inv(s) && Filled(s, 3) && KeysAre(s, 2, 12) && SepsAre(s, SepsAt(12))
  }

  /** A node that spans the keys below `b` sits left of `b`, the only separator of its parent below `c`. */
  lemma FirstSlot(s: Shape, t: map<Byte, nat>, n: Node, x: Byte, b: Byte, c: nat) returns (p: Node, q: Node)
    requires Inv(s) && SepsAre(s, t) && n in s.g && n != s.root && Spans(s, n, 0, b) && 0 < x < b < c
    requires s.g[n].Covers([x])
    requires Gap(t, s.g[n].rank + 1, 0, c)
    requires forall y: Byte :: y == b <==> y in t && t[y] == s.g[n].rank + 1 && y < c
    ensures p in s.g && !s.g[p].leaf && IsSlot(s, p, 0, n) && s.g[p].keys == [[b]]
    ensures s.g[p].rank == s.g[n].rank + 1 && Spans(s, p, 0, c) && s.g[p].Covers([x])
    ensures q in s.g && IsSlot(s, p, 1, q) && Spans(s, q, b, c) && s.g[q].rank == s.g[n].rank
  {
    hide Pos, Inv, Sorted, SepsOf, Encodes;
    ParentAbove(s, n);
    p := s.g[n].parent;
    var i := SlotRange(s, n);
    FindSpan(s, t, p, x, 0, c);
    InnerIs(s, t, p, 0, c, [b]);
    assert s.g[p].keys == [[b]];
    PosByte(x, b);
    NeighbourFacts(s, p, i, n, 1);
    q := s.g[p].kids[1];
    KidRange(s, p, 1);
  }

  lemma KidRange(s: Shape, p: Node, i: nat)
    requires Inv(s) && p in s.g && !s.g[p].leaf && i <= |s.g[p].keys| && |s.g[p].kids| == |s.g[p].keys| + 1
    ensures var c := s.g[p].kids[i];
      c in s.g && s.g[c].lo == s.g[p].Lower(i) && s.g[c].hi == s.g[p].Upper(i) && s.g[c].rank + 1 == s.g[p].rank
  {
    hide Pos, Sorted, Chain, Holds, Hangs, RootOk;
    assert NodeOk(s.g, p);
    assert ChildOk(s.g, p, i);
  }

  lemma LeafByRank(s: Shape, n: Node)
    requires Inv(s) && n in s.g
    ensures s.g[n].leaf <==> s.g[n].rank == 0
  {
    hide Pos, Sorted, Chain, Holds, Hangs, RootOk, ChildOk;
    assert NodeOk(s.g, n);
  }

  /** Key 2 sits alone in its leaf beside a leaf of two, under a lone separator beside a node of three. */
  lemma Cornered(s: Shape) returns (n: Node)
    requires Ready(s)
    ensures LeafIn(s, n) && CoversIn(s, n, [2]) && Stuck(s, n, FillOf(s, n) - 1, 3)
  {
    hide Pos, Inv, Sorted, SepsOf, Encodes, Filled, Spans, KeysAre, Stuck, Lends;
    var t := SepsAt(12);
    n := LeafOver(s, [2]);
    LeafByRank(s, n);
    FindSpan(s, t, n, 2, 0, 3);
    LeafIs(s, n, 0, 3, 2, 12, [2]);
    ParentIff(s, t, n, 3);
    var p, c := FirstSlot(s, t, n, 2, 3, 5);
    LeafByRank(s, c);
    LeafIs(s, c, 3, 5, 2, 12, [3, 4]);
    ParentIff(s, t, p, 3);
    var r, q := FirstSlot(s, t, p, 2, 5, 256);
    LeafByRank(s, q);
    InnerIs(s, t, q, 5, 256, [7, 9, 11]);
    StuckHere(s, p, 0, n, 0, 3);
    StuckHere(s, r, 0, p, 0, 3);
    OnlyRight(s, p, n, c);
    OnlyRight(s, r, p, q);
  }

  lemma OnlyRight(s: Shape, p: Node, n: Node, c: Node)
    requires IsSlot(s, p, 0, n) && IsSlot(s, p, 1, c) && FillOf(s, p) == 1 && c in s.g
    ensures Lends(s, p, 0, 3) <==> FillOf(s, c) > 2
  {}

  lemma SpareLeaf(s: Shape)
    requires At(s, 12)
    ensures HasSpare(s, [1], 3)
  {
    hide Pos, Inv, Sorted, SepsOf, Encodes, Filled, Spans, KeysAre;
    var t := SepsAt(12);
    forall n | n in s.g && LeafIn(s, n) && CoversIn(s, n, [1]) ensures FillOf(s, n) > MinFill(3) {
      LeafByRank(s, n);
      FindSpan(s, t, n, 1, 0, 3);
      LeafIs(s, n, 0, 3, 1, 12, [1, 2]);
    }
  }

  lemma MoreKeys(m: map<Bytes, Value>, m': map<Bytes, Value>, i: nat, v: Value)
    requires i < 255 && (forall k :: k in m <==> |k| == 1 && 1 <= k[0] <= i) && m' == m[[i + 1] := v]
    ensures forall k :: k in m' <==> |k| == 1 && 1 <= k[0] <= i + 1
  {
    forall k: Bytes ensures |k| == 1 && k[0] == i + 1 <==> k == [i + 1] {}
  }

  lemma StuckGivesUp(s: Shape)
    requires Ready(s)
    ensures GivesUp(s, 3, [2])
  {
    hide Pos, Inv, Filled, SepsAre, Stuck;
    var n := Cornered(s);
    GivesUpAt(s, 3, [2], n);
  }

  lemma NewTree(s: Shape)
    requires Inv(s) && Filled(s, 3) && MapOf(s) == map[] && SepsOf(s) == {}
    ensures At(s, 0)
  {
    hide Inv, Filled, SepsOf;
  }

  lemma OneMore(s: Shape, s': Shape, i: nat, v: Value)
    requires i < 12 && At(s, i) && SepsInserted(s, s', [i + 1], 3) && MapOf(s') == MapOf(s)[[i + 1] := v]
    requires Inv(s') && Filled(s', 3)
    ensures At(s', i + 1)
  {
    hide Pos, Inv, Filled, SepsOf, SepsInserted, SepsAt;
    Ascends(s, s', i);
    MoreKeys(MapOf(s), MapOf(s'), i, v);
  }

  lemma LeastGone(s: Shape, s': Shape)
    requires At(s, 12) && Inv(s') && Filled(s', 3) && MapOf(s') == MapOf(s) - {[1]} && SepsOf(s') == SepsOf(s)
    ensures Ready(s')
  {
    hide Pos, Inv, Filled, SepsOf, SepsAt;
    forall k: Bytes ensures |k| == 1 && k[0] == 1 <==> k == [1] {}
  }

  lemma NoEscape(s: Shape, k: Bytes)
    requires At(s, 12) && HasSpare(s, k, 3)
    ensures !GivesUp(s, 3, k)
  {
    hide Pos, Inv, Filled, SepsAre, SepsAt, KeysAre;
  }

  /**
    The keys 1 to 12 in ascending order, then the deletion of 1 and of 2: the second deletion takes
    the key out, but reports "not supported" and leaves an inner node below the minimum fill.
   */
  method GivesUpAfterInsertions() returns (t: BTree, first: Status, second: Status)
    ensures fresh(t) && t.Valid() && t.order == 3 && first == Ok
    ensures second == ErrNotSupported && !Filled(t.shape, t.order)
    ensures forall k :: k in MapOf(t.shape) <==> |k| == 1 && 3 <= k[0] <= 12
  {
    hide Pos, Inv, PicturesShape, Footprint, NodesOf, MapOf, Filled, TallyOk;
    hide At, SepsInserted, GivesUp, HasSpare, SepsOf, KeysAre, Ready;
    t := new BTree(3);
    NewTree(t.shape);
    var i := 0;
    while i < 12
      invariant 0 <= i <= 12 && t.Valid() && t.order == 3 && fresh(t) && fresh(t.Repr()) && At(t.shape, i)
    {
      ghost var s := t.shape;
      AtFacts(s, i);
      var st := t.Insert([i + 1], [i + 1]);
      OneMore(s, t.shape, i, CopyValue([i + 1]));
      i := i + 1;
    }
    ghost var s := t.shape;
    AtFacts(s, 12);
    SpareLeaf(s);
    NoEscape(s, [1]);
    first := t.Delete([1]);
    LeastGone(s, t.shape);
    ghost var s' := t.shape;
    StuckGivesUp(s');
    ReadyFacts(s');
    second := t.Delete([2]);
    TwoGone(s', t.shape);
  }

  lemma AtFacts(s: Shape, i: nat)
    requires i <= 12 && At(s, i)
    ensures Filled(s, 3) && forall k :: k in MapOf(s) <==> |k| == 1 && 1 <= k[0] <= i
  {
    hide Pos, Inv, Filled, SepsAre, SepsAt;
  }

  lemma ReadyFacts(s: Shape)
    requires Ready(s)
    ensures Filled(s, 3)
  {
    hide Pos, Inv, Filled, SepsAre, SepsAt;
  }

  lemma TwoGone(s: Shape, s': Shape)
    requires Ready(s) && MapOf(s') == MapOf(s) - {[2]}
    ensures forall k :: k in MapOf(s') <==> |k| == 1 && 3 <= k[0] <= 12
  {
    hide Pos, Inv, Filled, SepsAre, SepsAt;
    forall k: Bytes ensures |k| == 1 && k[0] == 2 <==> k == [2] {}
  }

  // ----- a merge that lowers the tree

  /** The separators of a tree of order 5 once the keys 1 to `i` are in. */
  function FiveAt(i: nat): map<Byte, nat> {
    if i < 6 then map[] else map[4 := 1]
  }

  ghost predicate AtFive(s: Shape, i: nat)
    requires i < 256
  {
    Inv(s) && Filled(s, 5) && KeysAre(s, 1, i) && SepsAre(s, FiveAt(i))
  }

  /** Five keys share a leaf; the sixth splits it. */
  lemma FiveAscends(s: Shape, s': Shape, i: nat)
    requires i < 6 && AtFive(s, i) && SepsInserted(s, s', [i + 1], 5)
    ensures SepsAre(s', FiveAt(i + 1)) && (LeafCounts(s, [i + 1], 5) <==> i == 5)
  {
    hide Pos, Inv, SepsOf, Encodes, Filled, Spans, Rising, Climbed;
    var n := LastLeaf(s, map[], 0, i, Upto(1, i));
    LeafCountsAt(s, [i + 1], n, 5);
    if i == 5 {
      ParentIff(s, map[], n, 5);
      assert LeafPromoted(s, n, 5, [6], 5) == [4];
      RootClimbs(s, n, [4]);
      EncodesMore(SepsOf(s), map[], 4, 1);
      assert map[][4 := 1] == FiveAt(6);
    }
  }

  lemma RootClimbs(s: Shape, n: Node, sep: Bytes)
    requires n in s.g && n == s.root && s.g[n].rank == 0
    ensures Climbed(s, SepsOf(s), n, sep, 5) == SepsOf(s) + {(sep, 1)}
  {
    hide SepsOf;
  }

  lemma FiveMore(s: Shape, s': Shape, i: nat, v: Value)
    requires i < 6 && AtFive(s, i) && SepsInserted(s, s', [i + 1], 5) && MapOf(s') == MapOf(s)[[i + 1] := v]
    requires Inv(s') && Filled(s', 5)
    ensures AtFive(s', i + 1) && (LeafCounts(s, [i + 1], 5) <==> i == 5) && [i + 1] !in MapOf(s)
  {
    hide Pos, Inv, Filled, SepsOf, SepsInserted, FiveAt, LeafCounts;
    FiveAscends(s, s', i);
    MoreKeys(MapOf(s), MapOf(s'), i, v);
  }

  /** Two leaves under a root with the separator 4; the first holds the keys from `a` on. */
  ghost predicate TwoLeaves(s: Shape, a: nat)
    requires a < 256
  {
    Inv(s) && Filled(s, 5) && KeysAre(s, a, 6) && SepsAre(s, map[4 := 1])
  }

  lemma FirstOfTwo(s: Shape, a: Byte) returns (n: Node, p: Node)
    requires 1 <= a <= 3 && TwoLeaves(s, a)
    ensures LeafIn(s, n) && CoversIn(s, n, [a]) && FillOf(s, n) == 4 - a && n != s.root && p == s.root && p in s.g
    ensures IsSlot(s, p, 0, n) && FillOf(s, p) == 1 && FillAt(s, p, 1) == 3
  {
    hide Pos, Inv, Sorted, SepsOf, Encodes, Filled, Spans, KeysAre;
    var t: map<Byte, nat> := map[4 := 1];
    n := LeafOver(s, [a]);
    LeafByRank(s, n);
    FindSpan(s, t, n, a, 0, 4);
    LeafIs(s, n, 0, 4, a, 6, Upto(a, 3));
    ParentIff(s, t, n, 5);
    var c: Node;
    p, c := FirstSlot(s, t, n, a, 4, 256);
    LeafByRank(s, c);
    LeafIs(s, c, 4, 256, a, 6, [4, 5, 6]);
    ParentIff(s, t, p, 5);
  }

  /** With three keys the first leaf can spare one; with two it is merged, which leaves no inner node. */
  lemma FirstMerges(s: Shape, a: Byte)
    requires 1 <= a <= 2 && TwoLeaves(s, a)
    ensures [a] in MapOf(s) && (MergesLeaf(s, [a], 2, 3) <==> a == 2) && !GivesUp(s, 5, [a])
    ensures a == 1 ==> HasSpare(s, [1], 5)
  {
    hide Pos, Inv, SepsOf, Encodes, Filled, Lends, Stuck, HasSpare;
    var n, p := FirstOfTwo(s, a);
    MergesLeafAt(s, [a], n, 2, 3);
    MergesHere(s, p, 0, n, FillOf(s, n) - 1, 5);
    LendsFirst(s, p, n);
    GivesUpAt(s, 5, [a], n);
    NotStuck(s, n, FillOf(s, n) - 1, 5);
    NotStuck(s, p, 0, 5);
    if a == 2 { StuckHere(s, p, 0, n, 1, 5); }
    SpareAt(s, [a], n);
  }

  lemma LendsFirst(s: Shape, p: Node, n: Node)
    requires IsSlot(s, p, 0, n) && FillOf(s, p) == 1 && FillAt(s, p, 1) == 3
    ensures !Lends(s, p, 0, 5)
  {}

  lemma SpareAt(s: Shape, k: Bytes, n: Node)
    requires Inv(s) && LeafIn(s, n) && CoversIn(s, n, k)
    ensures HasSpare(s, k, 5) <==> FillOf(s, n) > 2
  {
    hide Pos, Sorted, Holds, Hangs, NodesOk, RootOk, FillOf;
    forall x | x in s.g && LeafIn(s, x) && CoversIn(s, x, k) ensures x == n {
      LeavesApart(s, x, n, k);
    }
  }

  lemma FiveKeysGo(s: Shape, s': Shape, a: Byte)
    requires 1 <= a <= 2 && TwoLeaves(s, a) && Inv(s') && Filled(s', 5) && MapOf(s') == MapOf(s) - {[a]}
    ensures SepsOf(s') == SepsOf(s) ==> TwoLeaves(s', a + 1)
    ensures forall k :: k in MapOf(s') <==> |k| == 1 && a + 1 <= k[0] <= 6
  {
    hide Pos, Inv, Filled, SepsOf;
    forall k: Bytes ensures |k| == 1 && k[0] == a <==> k == [a] {}
  }

  lemma FiveFacts(s: Shape, i: nat)
    requires i <= 6 && AtFive(s, i)
    ensures Filled(s, 5) && [i + 1] !in MapOf(s) && (i == 6 ==> TwoLeaves(s, 1))
  {
    hide Pos, Inv, Filled, SepsAre;
  }

  /** A filled tree with one leaf has no other node above it. */
  lemma OneLeafIsLow(s: Shape, t: Tally, order: nat)
    requires 3 <= order && Inv(s) && Filled(s, order) && TallyOk(s, t) && t.leaves == 1
    ensures t.height == 1
  {
    hide Pos, Inv, SepsOf;
    var n := LeafOver(s, [1]);
    LeafByRank(s, s.root);
    OnlyLeaf(s, n);
    if !s.g[s.root].leaf {
      var k := s.g[s.root].keys[0];
      SepIn(s, s.root, k);
      LeafByRank(s, n);
      NoSepInside(s, n, (k, s.g[s.root].rank));
      InsideKeySpace(k);
    }
  }

  lemma OnlyLeaf(s: Shape, n: Node)
    requires Inv(s) && LeafIn(s, n) && |s.leaves| == 1
    ensures s.g[n].lo == BOTTOM && s.g[n].hi == TOP
  {
    hide Pos, Sorted, Holds, Hangs, NodesOk, RootOk;
    assert n in s.leaves && s.leaves[0] == n;
    assert LinkOk(s.g, s.leaves, 0);
  }

  lemma InsideKeySpace(k: Bytes)
    ensures BOTTOM < Pos(k) < TOP
  {}

  /**
    A tree of order 5 with the keys 1 to 6: deleting 1 leaves its leaf the two keys it must have, deleting
    2 merges the leaves, and the tree ends at height 1 with one leaf.
   */
  method MergesToOneLeaf() returns (t: BTree)
    ensures t.Valid() && t.order == 5 && t.height == 1 && t.leafNodes == 1
    ensures forall k :: k in MapOf(t.shape) <==> |k| == 1 && 3 <= k[0] <= 6
  {
    hide Pos, Inv, PicturesShape, Footprint, NodesOf, MapOf, Filled, TallyOk;
    hide AtFive, SepsInserted, GivesUp, HasSpare, SepsOf, KeysAre, TwoLeaves, MergesLeaf, LeafCounts, AtLeast;
    t := new BTree(5);
    FiveStarts(t.shape);
    var i := 0;
    while i < 6
      invariant 0 <= i <= 6 && t.Valid() && t.order == 5 && fresh(t) && fresh(t.Repr()) && AtFive(t.shape, i)
      invariant t.leafNodes == if i < 6 then 1 else 2
    {
      ghost var s := t.shape;
      FiveFacts(s, i);
      var st := t.Insert([i + 1], [i + 1]);
      FiveMore(s, t.shape, i, CopyValue([i + 1]));
      i := i + 1;
    }
    ghost var s := t.shape;
    FiveFacts(s, 6);
    FirstMerges(s, 1);
    var first := t.Delete([1]);
    FiveKeysGo(s, t.shape, 1);
    ghost var s' := t.shape;
    FirstMerges(s', 2);
    var second := t.Delete([2]);
    FiveKeysGo(s', t.shape, 2);
    OneLeafIsLow(t.shape, t.Count(), 5);
  }

  lemma FiveStarts(s: Shape)
    requires Inv(s) && Filled(s, 5) && MapOf(s) == map[] && SepsOf(s) == {}
    ensures AtFive(s, 0)
  {
    hide Inv, Filled, SepsOf;
  }
}
