/** Buckets of the hash table: a short linked list of nodes, or an ordered tree of many. */
module Buckets {
  import opened Bytes

  datatype Entry = Entry(key: Bytes, value: Bytes)

  /** What a bucket holds; a tree lists its entries in key order. */
  datatype Content = Content(isTree: bool, nodes: seq<Entry>, size: int)

  const TREEIFY_THRESHOLD := 8
  const UNTREEIFY_THRESHOLD := 6

  ghost predicate Distinct(nodes: seq<Entry>) {
    forall i, j :: 0 <= i < j < |nodes| ==> nodes[i].key != nodes[j].key
  }

  ghost predicate Sorted(nodes: seq<Entry>) {
    forall i, j :: 0 <= i < j < |nodes| ==> Pos(nodes[i].key) < Pos(nodes[j].key)
  }

  /** The entries are those of `m`, each once. */
  ghost predicate Lists(nodes: seq<Entry>, m: map<Bytes, Bytes>) {
    && Distinct(nodes)
    && (forall i :: 0 <= i < |nodes| ==> nodes[i].key in m && m[nodes[i].key] == nodes[i].value)
    && (forall k :: k in m ==> exists i :: 0 <= i < |nodes| && nodes[i].key == k)
  }

  /** A bucket of either form that represents `m`. */
  ghost predicate BucketOk(b: Content, m: map<Bytes, Bytes>) {
    && Lists(b.nodes, m) && b.size == |b.nodes|
    && (if b.isTree then Sorted(b.nodes) && |b.nodes| >= 7 else |b.nodes| <= 7)
  }

  // ----- what edits of the entries mean for the map

  lemma FoundIsListed(nodes: seq<Entry>, m: map<Bytes, Bytes>, i: int, key: Bytes)
    requires Lists(nodes, m) && -1 <= i < |nodes| && (i >= 0 ==> nodes[i].key == key)
    requires i < 0 ==> forall j :: 0 <= j < |nodes| ==> nodes[j].key != key
    ensures i >= 0 <==> key in m
    ensures i >= 0 ==> m[key] == nodes[i].value
  {}

  lemma Updated(nodes: seq<Entry>, m: map<Bytes, Bytes>, i: nat, value: Bytes)
    requires Lists(nodes, m) && i < |nodes|
    ensures Lists(nodes[i := Entry(nodes[i].key, value)], m[nodes[i].key := value])
  {
    var nodes', m' := nodes[i := Entry(nodes[i].key, value)], m[nodes[i].key := value];
    forall k | k in m' ensures exists j :: 0 <= j < |nodes'| && nodes'[j].key == k {
      var j :| 0 <= j < |nodes| && nodes[j].key == k;
      assert nodes'[j].key == k;
    }
  }

  lemma Inserted(nodes: seq<Entry>, m: map<Bytes, Bytes>, i: nat, e: Entry)
    requires Lists(nodes, m) && i <= |nodes| && e.key !in m
    ensures Lists(Inserting(nodes, i, e), m[e.key := e.value])
  {
    var nodes', m' := Inserting(nodes, i, e), m[e.key := e.value];
    forall k | k in m' ensures exists j :: 0 <= j < |nodes'| && nodes'[j].key == k {
      if k == e.key {
        assert nodes'[i].key == k;
      } else {
        var j :| 0 <= j < |nodes| && nodes[j].key == k;
        assert nodes'[if j < i then j else j + 1].key == k;
      }
    }
  }

  lemma Removed(nodes: seq<Entry>, m: map<Bytes, Bytes>, i: nat)
    requires Lists(nodes, m) && i < |nodes|
    ensures Lists(Dropping(nodes, i), m - {nodes[i].key})
  {
    var nodes', m' := Dropping(nodes, i), m - {nodes[i].key};
    forall k | k in m' ensures exists j :: 0 <= j < |nodes'| && nodes'[j].key == k {
      var j :| 0 <= j < |nodes| && nodes[j].key == k;
      assert nodes'[if j < i then j else j - 1].key == k;
    }
  }

  /** As many entries as keys. */
  lemma {:induction false} ListsSize(nodes: seq<Entry>, m: map<Bytes, Bytes>)
    requires Lists(nodes, m)
    ensures |nodes| == |m|
    decreases |nodes|
  {
    if nodes == [] {
      assert forall k :: k in m ==> false;
      assert m == map[];
    } else {
      var last := |nodes| - 1;
      Removed(nodes, m, last);
      assert Dropping(nodes, last) == nodes[..last];
      ListsSize(nodes[..last], m - {nodes[last].key});
      assert (m - {nodes[last].key}).Keys == m.Keys - {nodes[last].key};
      assert |m.Keys - {nodes[last].key}| == |m.Keys| - 1;
    }
  }

  // ----- nodes

  class HashNode {
    const key: Bytes
    var value: Bytes
    var next: HashNode?

    constructor (key: Bytes, value: Bytes)
      ensures this.key == key && this.value == value && next == null
    {
      this.key, this.value, next := key, value, null;
    }
  }

  ghost function NodeSet(ns: seq<HashNode>): set<HashNode> {
    set n | n in ns
  }

  ghost predicate Different(ns: seq<HashNode>) {
    forall i, j :: 0 <= i < j < |ns| ==> ns[i] != ns[j]
  }

  ghost function At(ns: seq<HashNode>, i: int): HashNode? {
    if 0 <= i < |ns| then ns[i] else null
  }

  /** From place `i` on, each node points to the one after it. */
  ghost predicate LinkedFrom(ns: seq<HashNode>, i: nat)
    reads NodeSet(ns)`next
  {
    forall j :: i <= j < |ns| ==> ns[j].next == At(ns, j + 1)
  }

  ghost function Entries(ns: seq<HashNode>): (r: seq<Entry>)
    reads NodeSet(ns)`value
    ensures |r| == |ns| && forall i :: 0 <= i < |ns| ==> r[i] == Entry(ns[i].key, ns[i].value)
  {
    if ns == [] then [] else Entries(ns[..|ns| - 1]) + [Entry(ns[|ns| - 1].key, ns[|ns| - 1].value)]
  }

  function Inserting<T>(xs: seq<T>, i: nat, x: T): seq<T>
    requires i <= |xs|
  {
    xs[..i] + [x] + xs[i..]
  }

  function Dropping<T>(xs: seq<T>, i: nat): seq<T>
    requires i < |xs|
  {
    xs[..i] + xs[i + 1..]
  }

  lemma EntriesInserting(ns: seq<HashNode>, i: nat, n: HashNode)
    requires i <= |ns|
    ensures Entries(Inserting(ns, i, n)) == Inserting(Entries(ns), i, Entry(n.key, n.value))
  {
    hide Entries, Inserting;
    var es, e, r := Entries(ns), Entry(n.key, n.value), Inserting(ns, i, n);
    InsertingSize(ns, i, n);
    InsertingSize(es, i, e);
    forall j | 0 <= j < |r| ensures Entries(r)[j] == Inserting(es, i, e)[j] {
      InsertingAt(ns, i, n, j);
      InsertingAt(es, i, e, j);
    }
  }

  lemma InsertingSize<T>(xs: seq<T>, i: nat, x: T)
    requires i <= |xs|
    ensures |Inserting(xs, i, x)| == |xs| + 1
  {}

  lemma InsertingAt<T>(xs: seq<T>, i: nat, x: T, j: nat)
    requires i <= |xs| && j <= |xs|
    ensures |Inserting(xs, i, x)| == |xs| + 1
    ensures Inserting(xs, i, x)[j] == if j < i then xs[j] else if j == i then x else xs[j - 1]
  {}

  lemma DroppingSize<T>(xs: seq<T>, i: nat)
    requires i < |xs|
    ensures |Dropping(xs, i)| == |xs| - 1
  {}

  lemma DroppingAt<T>(xs: seq<T>, i: nat, j: nat)
    requires i < |xs| && j < |xs| - 1
    ensures |Dropping(xs, i)| == |xs| - 1 && Dropping(xs, i)[j] == xs[if j < i then j else j + 1]
  {}

  lemma EntriesDropping(ns: seq<HashNode>, i: nat)
    requires i < |ns|
    ensures Entries(Dropping(ns, i)) == Dropping(Entries(ns), i)
  {
    hide Entries, Dropping;
    var es, r := Entries(ns), Dropping(ns, i);
    DroppingSize(ns, i);
    DroppingSize(es, i);
    forall j | 0 <= j < |r| ensures Entries(r)[j] == Dropping(es, i)[j] {
      DroppingAt(ns, i, j);
      DroppingAt(es, i, j);
    }
  }

  lemma InsertingSet(ns: seq<HashNode>, i: nat, n: HashNode)
    requires i <= |ns| && Different(ns) && n !in ns
    ensures Different(Inserting(ns, i, n)) && NodeSet(Inserting(ns, i, n)) == NodeSet(ns) + {n}
    ensures |Inserting(ns, i, n)| == |ns| + 1
  {
    var r := Inserting(ns, i, n);
    assert r[i] == n;
    forall x | x in ns ensures x in r {
      var j :| 0 <= j < |ns| && ns[j] == x;
      assert r[if j < i then j else j + 1] == x;
    }
  }

  lemma DroppingSet(ns: seq<HashNode>, i: nat)
    requires i < |ns| && Different(ns)
    ensures Different(Dropping(ns, i)) && NodeSet(Dropping(ns, i)) == NodeSet(ns) - {ns[i]}
    ensures |Dropping(ns, i)| == |ns| - 1
  {
    var r := Dropping(ns, i);
    forall x | x in ns && x != ns[i] ensures x in r {
      var j :| 0 <= j < |ns| && ns[j] == x;
      assert r[if j < i then j else j - 1] == x;
    }
    forall x | x in r ensures x in ns && x != ns[i] {
      var j :| 0 <= j < |r| && r[j] == x;
      assert x == ns[if j < i then j else j + 1];
    }
  }

  /** The same nodes in another order list the same map. */
  lemma ListsReordered(ns: seq<HashNode>, ns': seq<HashNode>, m: map<Bytes, Bytes>)
    requires Lists(Entries(ns), m) && Different(ns') && NodeSet(ns') == NodeSet(ns)
    ensures Lists(Entries(ns'), m)
  {
    hide Entries;
    forall i | 0 <= i < |ns'| ensures exists j :: 0 <= j < |ns| && ns[j] == ns'[i] {
      assert ns'[i] in NodeSet(ns');
      assert ns'[i] in NodeSet(ns);
    }
    forall i, j | 0 <= i < j < |ns'| ensures ns'[i].key != ns'[j].key {
      var a :| 0 <= a < |ns| && ns[a] == ns'[i];
      var b :| 0 <= b < |ns| && ns[b] == ns'[j];
      assert Entries(ns)[a].key == ns'[i].key && Entries(ns)[b].key == ns'[j].key;
    }
    forall i | 0 <= i < |ns'| ensures ns'[i].key in m && m[ns'[i].key] == ns'[i].value {
      var a :| 0 <= a < |ns| && ns[a] == ns'[i];
      assert Entries(ns)[a] == Entry(ns'[i].key, ns'[i].value);
    }
    forall k | k in m ensures exists i :: 0 <= i < |ns'| && Entries(ns')[i].key == k {
      var a :| 0 <= a < |ns| && Entries(ns)[a].key == k;
      assert ns[a] in NodeSet(ns);
      assert ns[a] in NodeSet(ns');
      var i :| 0 <= i < |ns'| && ns'[i] == ns[a];
      assert Entries(ns')[i].key == k;
    }
  }

  /** Nodes in key order. */
  ghost predicate Rising(ns: seq<HashNode>) {
    forall i, j :: 0 <= i < j < |ns| ==> Pos(ns[i].key) < Pos(ns[j].key)
  }

  ghost predicate KeysApart(ns: seq<HashNode>) {
    forall i, j :: 0 <= i < j < |ns| ==> ns[i].key != ns[j].key
  }

  lemma RisingEntries(ns: seq<HashNode>)
    ensures Rising(ns) <==> Sorted(Entries(ns))
  {
    hide Pos, Entries;
  }

  lemma ListedApart(ns: seq<HashNode>, m: map<Bytes, Bytes>)
    requires Lists(Entries(ns), m)
    ensures KeysApart(ns) && Different(ns)
  {
    hide Entries;
    assert forall i :: 0 <= i < |ns| ==> Entries(ns)[i].key == ns[i].key;
  }

  lemma RisingInserting(ns: seq<HashNode>, i: nat, n: HashNode)
    requires Rising(ns) && i <= |ns|
    requires forall j :: 0 <= j < i ==> Pos(ns[j].key) < Pos(n.key)
    requires i < |ns| ==> Pos(n.key) < Pos(ns[i].key)
    ensures Rising(Inserting(ns, i, n))
  {
    hide Pos;
  }

  lemma RisingDropping(ns: seq<HashNode>, i: nat)
    requires Rising(ns) && i < |ns|
    ensures Rising(Dropping(ns, i))
  {
    hide Pos;
  }

  /** Where an ordered tree has a key, or would put it. */
  method SearchTree(tree: seq<HashNode>, key: Bytes) returns (i: nat, found: bool)
    requires Rising(tree)
    ensures i <= |tree| && (forall j :: 0 <= j < i ==> Pos(tree[j].key) < Pos(key))
    ensures i < |tree| && !found ==> Pos(key) < Pos(tree[i].key)
    ensures found <==> i < |tree| && tree[i].key == key
    ensures !found ==> forall j :: 0 <= j < |tree| ==> tree[j].key != key
  {
    hide Pos;
    i := 0;
    while i < |tree| && Compare(tree[i].key, key) < 0
      invariant i <= |tree| && forall j :: 0 <= j < i ==> Pos(tree[j].key) < Pos(key)
    {
      CompareIsPos(tree[i].key, key);
      i := i + 1;
    }
    if i < |tree| { CompareIsPos(tree[i].key, key); }
    found := i < |tree| && tree[i].key == key;
  }

  class Bucket {
    var isTree: bool
    /** The head of the list; null while there is a tree. */
    var list: HashNode?
    /** The nodes that the tree holds, in key order. */
    var tree: seq<HashNode>
    var size: int
    /** The nodes that the list links, in order. */
    ghost var chain: seq<HashNode>

    ghost function Nodes(): seq<HashNode>
      reads this
    {
      if isTree then tree else chain
    }

    ghost function Repr(): set<object>
      reads this
    {
      {this} + NodeSet(Nodes())
    }

    ghost predicate Valid()
      reads this, NodeSet(Nodes())
    {
      Different(Nodes()) && (!isTree ==> LinkedFrom(chain, 0) && list == At(chain, 0))
    }

    ghost function View(): Content
      reads this, NodeSet(Nodes())
    {
      Content(isTree, Entries(Nodes()), size)
    }

    constructor ()
      ensures Valid() && View() == Content(false, [], 0) && fresh(Repr())
    {
      isTree, list, tree, size, chain := false, null, [], 0, [];
    }

    /** The node of a key, with the node before it in a list. */
    method Find(key: Bytes) returns (n: HashNode?, prev: HashNode?, i: nat)
      requires Valid() && (isTree ==> Sorted(View().nodes))
      ensures n != null ==> i < |Nodes()| && n == Nodes()[i] && n.key == key && (!isTree ==> prev == At(chain, i - 1))
      ensures n == null ==> forall j :: 0 <= j < |Nodes()| ==> Nodes()[j].key != key
    {
      hide Pos, Entries;
      prev := null;
      if isTree {
        RisingEntries(tree);
        var found: bool;
        i, found := SearchTree(tree, key);
        n := if found then tree[i] else null;
        return;
      }
      n, i := list, 0;
      while n != null
        invariant i <= |chain| && n == At(chain, i) && prev == At(chain, i - 1)
        invariant forall j :: 0 <= j < i ==> chain[j].key != key
        decreases |chain| - i
      {
        if n.key == key {
          return;
        }
        prev, n, i := n, n.next, i + 1;
      }
    }

    /** `rbtree_adapter_insert` of a node with a new key. */
    method InsertIntoTree(n: HashNode)
      requires isTree && Different(tree) && Rising(tree) && n !in tree && forall x :: x in tree ==> x.key != n.key
      modifies this`tree
      ensures Different(tree) && Rising(tree) && NodeSet(tree) == old(NodeSet(tree)) + {n}
    {
      hide Pos;
      var at, found := SearchTree(tree, n.key);
      assert !found;
      InsertingSet(tree, at, n);
      RisingInserting(tree, at, n);
      tree := Inserting(tree, at, n);
    }

    /** `_treeify_bucket`: the nodes of the list go into a tree one by one. */
    method Treeify(ghost m: map<Bytes, Bytes>)
      requires Valid() && !isTree && Lists(View().nodes, m) && size == |chain| >= 7
      modifies this, NodeSet(chain)`next
      ensures Valid() && isTree && BucketOk(View(), m) && size == old(size) && NodeSet(tree) == old(NodeSet(chain))
    {
      hide Pos, Entries, Lists, Different, Rising, KeysApart, LinkedFrom;
      ghost var ns := chain;
      ListedApart(ns, m);
      NothingTaken(ns);
      var node := list;
      list, tree, isTree := null, [], true;
      ghost var i := 0;
      while node != null
        invariant i <= |ns| && node == At(ns, i) && LinkedFrom(ns, i) && isTree && size == |ns|
        invariant Different(tree) && Rising(tree) && NodeSet(tree) == NodeSet(ns[..i])
        decreases |ns| - i
      {
        NotTaken(ns, i, tree);
        var next := Detach(ns, i, node);
        InsertIntoTree(node);
        OneTaken(ns, i);
        node, i := next, i + 1;
      }
      assert ns[..i] == ns;
      ListsReordered(ns, tree, m);
      RisingEntries(tree);
      SameSize(ns, tree);
      chain := [];
    }

    /** `_untreeify_bucket`: the traversal is linked up back to front. */
    method Untreeify(ghost m: map<Bytes, Bytes>)
      requires Valid() && isTree && Lists(View().nodes, m) && size == |tree| <= 7
      modifies this, NodeSet(tree)`next
      ensures Valid() && !isTree && BucketOk(View(), m) && size == old(size) && NodeSet(chain) == old(NodeSet(tree))
    {
      hide Pos, Entries, Lists, Different, LinkedFrom, Inserting;
      ghost var ns: seq<HashNode> := [];
      var head: HashNode? := null;
      NothingTaken(tree);
      ListedApart(tree, m);
      var i := 0;
      while i < |tree|
        invariant i <= |tree| && tree == old(tree) && isTree && size == |tree| && |ns| == i
        invariant LinkedFrom(ns, 0) && head == At(ns, 0) && Different(ns) && NodeSet(ns) == NodeSet(tree[..i])
      {
        NotTaken(tree, i, ns);
        InsertingSet(ns, 0, tree[i]);
        LinkFront(ns, tree[i], head);
        head := tree[i];
        ns := Inserting(ns, 0, tree[i]);
        OneTaken(tree, i);
        i := i + 1;
      }
      assert tree[..|tree|] == tree;
      ListsReordered(tree, ns, m);
      list, isTree, chain, tree := head, false, ns, [];
    }

    /** Adds or updates an entry; tells whether the key is new. */
    method PutInto(key: Bytes, value: Bytes, ghost m: map<Bytes, Bytes>) returns (added: bool)
      requires Valid() && BucketOk(View(), m)
      modifies Repr()
      ensures Valid() && BucketOk(View(), m[key := value]) && added == (key !in m)
      ensures isTree <==> old(isTree) || (added && old(size) == 7)
      ensures forall o :: o in Repr() && o !in old(Repr()) ==> fresh(o)
    {
      hide Pos, Entries, Lists, Different, Rising, LinkedFrom, Inserting, Sorted;
      var n, prev, i := Find(key);
      FoundIsListed(View().nodes, m, if n != null then i else -1, key);
      added := n == null;
      if n != null {
        Updated(View().nodes, m, i, value);
        RisingEntries(Nodes());
        Overwrite(Nodes(), i, n, value);
        RisingEntries(Nodes());
        return;
      }
      var node := new HashNode(key, value);
      ghost var ns := Nodes();
      EntriesInserting(ns, 0, node);
      Inserted(Entries(ns), m, 0, Entry(key, value));
      InsertingSet(ns, 0, node);
      if isTree {
        AddToTree(node, m);
      } else {
        AddToList(node, m[key := value]);
      }
    }

    /** A new node in front of a list, which becomes a tree when it is long. */
    method AddToList(node: HashNode, ghost m: map<Bytes, Bytes>)
      requires Valid() && !isTree && node !in chain && size == |chain| <= 7
      requires Lists(Entries(Inserting(chain, 0, node)), m)
      modifies this, NodeSet(chain)`next, node`next
      ensures Valid() && BucketOk(View(), m) && NodeSet(Nodes()) == old(NodeSet(chain)) + {node}
      ensures isTree <==> old(size) == 7
    {
      hide Pos, Entries, Lists, Different, LinkedFrom, Inserting, Sorted;
      InsertingSet(chain, 0, node);
      LinkFront(chain, node, list);
      list := node;
      chain := Inserting(chain, 0, node);
      size := size + 1;
      if size >= TREEIFY_THRESHOLD {
        Treeify(m);
      }
    }

    /** A new node in a tree. */
    method AddToTree(node: HashNode, ghost m: map<Bytes, Bytes>)
      requires Valid() && BucketOk(View(), m) && isTree && node !in tree && node.key !in m
      modifies this`tree, this`size
      ensures Valid() && BucketOk(View(), m[node.key := node.value]) && NodeSet(tree) == old(NodeSet(tree)) + {node}
    {
      hide Pos, Entries, Lists, Different, Rising, Inserting, Sorted;
      ghost var ns := tree;
      EntriesInserting(ns, 0, node);
      Inserted(Entries(ns), m, 0, Entry(node.key, node.value));
      InsertingSet(ns, 0, node);
      RisingEntries(ns);
      AbsentKey(ns, m, node.key);
      InsertIntoTree(node);
      size := size + 1;
      ListsReordered(Inserting(ns, 0, node), tree, m[node.key := node.value]);
      RisingEntries(tree);
      SameSize(Inserting(ns, 0, node), tree);
    }

    /** Takes an entry out; tells whether there was one. */
    method DeleteFrom(key: Bytes, ghost m: map<Bytes, Bytes>) returns (gone: bool)
      requires Valid() && BucketOk(View(), m)
      modifies Repr()
      ensures Valid() && BucketOk(View(), m - {key}) && gone == (key in m)
      ensures isTree <==> old(isTree) && (!gone || old(size) > 7)
      ensures Repr() <= old(Repr())
    {
      hide Pos, Entries, Lists, Different, Rising, LinkedFrom, Dropping, Sorted;
      var n, prev, i := Find(key);
      FoundIsListed(View().nodes, m, if n != null then i else -1, key);
      gone := n != null;
      if n == null {
        assert m - {key} == m;
        return;
      }
      ghost var ns := Nodes();
      EntriesDropping(ns, i);
      Removed(Entries(ns), m, i);
      DroppingSet(ns, i);
      RisingEntries(ns);
      if isTree {
        DropFromTree(i, m - {key});
      } else {
        UnlinkNode(i, prev, n);
      }
    }

    /** Takes the node at place `i` out of the tree. */
    method DropFromTree(i: nat, ghost m: map<Bytes, Bytes>)
      requires Valid() && isTree && i < |tree| == size && size >= 7 && Rising(tree)
      requires Lists(Entries(Dropping(tree, i)), m)
      modifies this, NodeSet(tree)`next
      ensures Valid() && BucketOk(View(), m) && NodeSet(Nodes()) <= old(NodeSet(tree))
      ensures isTree <==> old(size) > 7
    {
      hide Pos, Entries, Lists, Different, Rising, LinkedFrom, Dropping, Sorted;
      RisingDropping(tree, i);
      DroppingSet(tree, i);
      tree := Dropping(tree, i);
      size := size - 1;
      RisingEntries(tree);
      if size <= UNTREEIFY_THRESHOLD {
        Untreeify(m);
      }
    }

    /** Takes the node at place `i` out of the list. */
    method UnlinkNode(ghost i: nat, prev: HashNode?, n: HashNode)
      requires Valid() && !isTree && i < |chain| && n == chain[i] && prev == At(chain, i - 1)
      modifies this`list, this`chain, this`size, NodeSet(chain)`next
      ensures Valid() && chain == Dropping(old(chain), i) && size == old(size) - 1
    {
      hide Different, LinkedFrom, Dropping;
      DroppingSet(chain, i);
      Bypass(chain, i, prev, n);
      if prev == null {
        list := n.next;
      }
      chain := Dropping(chain, i);
      size := size - 1;
    }
  }

  lemma AbsentKey(ns: seq<HashNode>, m: map<Bytes, Bytes>, key: Bytes)
    requires Lists(Entries(ns), m) && key !in m
    ensures forall x :: x in ns ==> x.key != key
  {
    hide Entries;
    forall x | x in ns ensures x.key != key {
      var i :| 0 <= i < |ns| && ns[i] == x;
      assert Entries(ns)[i].key == x.key;
    }
  }

  /** Replaces the value of a node. */
  method Overwrite(ghost ns: seq<HashNode>, ghost i: nat, n: HashNode, value: Bytes)
    requires Different(ns) && i < |ns| && n == ns[i]
    modifies n`value
    ensures Entries(ns) == old(Entries(ns))[i := Entry(n.key, value)]
  {
    hide Entries;
    n.value := value;
  }

  ghost function Maybe(n: HashNode?): set<HashNode> {
    if n == null then {} else {n}
  }

  /** Unlinks the node at `i` of a list from the one before it, if any. */
  method Bypass(ghost ns: seq<HashNode>, ghost i: nat, prev: HashNode?, n: HashNode)
    requires LinkedFrom(ns, 0) && Different(ns) && i < |ns| && n == ns[i] && prev == At(ns, i - 1)
    modifies Maybe(prev)`next
    ensures LinkedFrom(Dropping(ns, i), 0) && n.next == old(n.next)
    ensures At(Dropping(ns, i), 0) == if prev == null then n.next else At(ns, 0)
  {
    if prev != null {
      prev.next := n.next;
    }
    ghost var rest := Dropping(ns, i);
    forall j | 0 <= j < |rest| ensures rest[j].next == At(rest, j + 1) {
      DroppingAt(ns, i, j);
      assert At(rest, j + 1) == if j + 1 < i then At(ns, j + 1) else At(ns, j + 2);
    }
  }

  /** Takes the next node off a list that is being used up. */
  method Detach(ghost ns: seq<HashNode>, ghost i: nat, node: HashNode) returns (next: HashNode?)
    requires LinkedFrom(ns, i) && Different(ns) && i < |ns| && node == ns[i]
    modifies node`next
    ensures next == At(ns, i + 1) && LinkedFrom(ns, i + 1)
  {
    next := node.next;
    node.next := null;
  }

  /** Puts a node in front of a list. */
  method LinkFront(ghost ns: seq<HashNode>, node: HashNode, head: HashNode?)
    requires LinkedFrom(ns, 0) && node !in ns && head == At(ns, 0)
    modifies node`next
    ensures LinkedFrom(Inserting(ns, 0, node), 0) && At(Inserting(ns, 0, node), 0) == node
  {
    node.next := head;
    ghost var all := Inserting(ns, 0, node);
    forall j | 0 <= j < |all| ensures all[j].next == At(all, j + 1) {
      assert j > 0 ==> all[j] == ns[j - 1] && ns[j - 1].next == At(ns, j);
      assert At(all, j + 1) == At(ns, j);
    }
  }

  lemma NothingTaken(ns: seq<HashNode>)
    ensures NodeSet(ns[..0]) == {} && NodeSet([]) == {} && Different([]) && Rising([]) && LinkedFrom([], 0)
  {}

  lemma OneTaken(ns: seq<HashNode>, i: nat)
    requires i < |ns|
    ensures NodeSet(ns[..i + 1]) == NodeSet(ns[..i]) + {ns[i]}
  {
    assert ns[..i + 1] == ns[..i] + [ns[i]];
  }

  lemma NotTaken(ns: seq<HashNode>, i: nat, taken: seq<HashNode>)
    requires KeysApart(ns) && i < |ns| && NodeSet(taken) == NodeSet(ns[..i])
    ensures ns[i] !in taken && forall x :: x in taken ==> x.key != ns[i].key
  {
    forall x | x in taken ensures x.key != ns[i].key {
      assert x in NodeSet(taken);
      assert x in NodeSet(ns[..i]);
      var j :| 0 <= j < i && ns[j] == x;
    }
  }

  lemma {:induction false} SameSize(a: seq<HashNode>, b: seq<HashNode>)
    requires Different(a) && Different(b) && NodeSet(a) == NodeSet(b)
    ensures |a| == |b|
  {
    SizeOfSet(a);
    SizeOfSet(b);
  }

  lemma {:induction false} SizeOfSet(a: seq<HashNode>)
    requires Different(a)
    ensures |NodeSet(a)| == |a|
    decreases |a|
  {
    if a != [] {
      var before, last := a[..|a| - 1], a[|a| - 1];
      SizeOfSet(before);
      assert NodeSet(a) == NodeSet(before) + {last};
    }
  }
}
