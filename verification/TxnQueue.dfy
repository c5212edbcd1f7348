/** The coordinator's queue of transactions: a linked list kept by falling priority, then by arrival. */
module TxnQueue {

  type Id = nat

  /** A queued transaction; `stamp` is its place in the order of arrivals. */
  datatype Item = Item(txn: Id, priority: int, stamp: nat)

  const SUCCESS := 0
  const QUEUE_FULL := -8

  // ----- the order

  /** `a` leaves the queue before `b`. */
  ghost predicate Before(a: Item, b: Item) {
    a.priority > b.priority || (a.priority == b.priority && a.stamp < b.stamp)
  }

  ghost predicate Ordered(q: seq<Item>) {
    forall i, j :: 0 <= i < j < |q| ==> Before(q[i], q[j])
  }

  /** All items arrived before `clock`. */
  ghost predicate Stamped(q: seq<Item>, clock: nat) {
    forall x :: x in q ==> x.stamp < clock
  }

  /** The one among the waiting items that has the highest priority and, within it, waits longest. */
  ghost predicate Foremost(waiting: set<Item>, x: Item) {
    x in waiting && forall y :: y in waiting && y != x ==> Before(x, y)
  }

  ghost function Waiting(q: seq<Item>): set<Item> {
    set x | x in q
  }

  /** The list once `x` has arrived: in front of the first item of lower priority. */
  ghost function Arrive(q: seq<Item>, x: Item): seq<Item> {
    if q == [] || x.priority > q[0].priority then [x] + q else [q[0]] + Arrive(q[1..], x)
  }

  /** Where the scanning loop stops is where `Arrive` puts the item. */
  lemma {:induction false} ArriveAt(q: seq<Item>, x: Item, i: nat)
    requires i <= |q| && (forall j :: 0 <= j < i ==> q[j].priority >= x.priority)
    requires i < |q| ==> q[i].priority < x.priority
    ensures Arrive(q, x) == q[..i] + [x] + q[i..]
    decreases i
  {
    if i > 0 {
      ArriveAt(q[1..], x, i - 1);
      assert q[1..][..i - 1] == q[1..i];
      assert q[..i] == [q[0]] + q[1..i];
    }
  }

  /** A newcomer keeps the order and joins the waiting items. */
  lemma {:induction false} ArriveKeepsOrder(q: seq<Item>, x: Item)
    requires Ordered(q) && Stamped(q, x.stamp)
    ensures Ordered(Arrive(q, x)) && Waiting(Arrive(q, x)) == Waiting(q) + {x} && |Arrive(q, x)| == |q| + 1
    decreases |q|
  {
    if q == [] || x.priority > q[0].priority {
      forall i, j | 0 <= i < j < |[x] + q| ensures Before(([x] + q)[i], ([x] + q)[j]) {
        assert i == 0 && j > 1 ==> Before(q[0], q[j - 1]);
        assert i > 0 ==> Before(q[i - 1], q[j - 1]);
      }
    } else {
      ArriveKeepsOrder(q[1..], x);
      var r := Arrive(q[1..], x);
      assert Arrive(q, x) == [q[0]] + r;
      forall j | 0 <= j < |r| ensures Before(q[0], r[j]) {
        assert r[j] in Waiting(r);
        if r[j] != x {
          var i :| 0 <= i < |q[1..]| && q[1..][i] == r[j];
          assert Before(q[0], q[i + 1]);
        } else {
          assert q[0] in q;
        }
      }
      forall y | y in q ensures y in Arrive(q, x) {
        assert y == q[0] || y in q[1..];
        assert y in q[1..] ==> y in Waiting(r);
      }
      forall y | y in Arrive(q, x) ensures y in q || y == x {
        assert y == q[0] || y in r;
        assert y in r ==> y in Waiting(r);
      }
    }
  }

  /** The head of an ordered list is the foremost waiting item, and the rest waits on. */
  lemma HeadIsForemost(q: seq<Item>)
    requires Ordered(q) && q != []
    ensures Foremost(Waiting(q), q[0]) && Waiting(q[1..]) == Waiting(q) - {q[0]} && Ordered(q[1..])
    ensures forall y :: y in q[1..] ==>
      q[0].priority > y.priority || (q[0].priority == y.priority && q[0].stamp < y.stamp)
  {
    forall y | y in Waiting(q) && y != q[0] ensures Before(q[0], y) && y in q[1..] {
      var i :| 0 <= i < |q| && q[i] == y;
      assert Before(q[0], q[i]) && q[1..][i - 1] == y;
    }
    forall y | y in q[1..] ensures y in q && y != q[0] {
      var i :| 0 <= i < |q[1..]| && q[1..][i] == y;
      assert Before(q[0], q[i + 1]);
    }
  }

  // ----- the linked list

  class Link {
    const txn: Id
    const priority: int
    var next: Link?

    constructor (txn: Id, priority: int)
      ensures this.txn == txn && this.priority == priority && next == null
    {
      this.txn, this.priority, next := txn, priority, null;
    }
  }

  ghost function LinkSet(links: seq<Link>): set<Link> {
    set x | x in links
  }

  ghost predicate Distinct(links: seq<Link>) {
    forall i, j :: 0 <= i < j < |links| ==> links[i] != links[j]
  }

  ghost predicate NextOk(links: seq<Link>, i: nat)
    requires i < |links|
    reads links[i]
  {
    links[i].next == if i + 1 < |links| then links[i + 1] else null
  }

  /** The links hang together in this order. */
  ghost predicate Chained(links: seq<Link>)
    reads LinkSet(links)
  {
    Distinct(links) && forall i {:trigger NextOk(links, i)} :: 0 <= i < |links| ==> NextOk(links, i)
  }

  ghost predicate Shows(links: seq<Link>, items: seq<Item>) {
    |links| == |items| && forall i :: 0 <= i < |links| ==>
      links[i].txn == items[i].txn && links[i].priority == items[i].priority
  }

  ghost predicate Ends(links: seq<Link>, head: Link?, tail: Link?) {
    if links == [] then head == null && tail == null else head == links[0] && tail == links[|links| - 1]
  }

  ghost function Spliced(links: seq<Link>, at: nat, node: Link): seq<Link>
    requires at <= |links|
  {
    links[..at] + [node] + links[at..]
  }

  /** Hangs `node` in after `current`, or in front of all links. */
  method Splice(ghost links: seq<Link>, ghost at: nat, current: Link?, head: Link?, node: Link)
    requires Chained(links) && node !in LinkSet(links) && at <= |links|
    requires at > 0 ==> current == links[at - 1]
    requires at == 0 ==> current == null && head == (if links == [] then null else links[0])
    modifies node, current
    ensures Chained(Spliced(links, at, node))
    ensures node.next == if at < |links| then links[at] else null
  {
    ghost var ls := Spliced(links, at, node);
    if current == null {
      node.next := head;
    } else {
      assert NextOk(links, at - 1);
      node.next := current.next;
      current.next := node;
    }
    forall i | 0 <= i < |ls| ensures NextOk(ls, i) {
      assert i < at ==> ls[i] == links[i] && old(NextOk(links, i));
      assert i > at ==> ls[i] == links[i - 1] && old(NextOk(links, i - 1));
    }
  }

  lemma SplicedShows(links: seq<Link>, items: seq<Item>, at: nat, node: Link, x: Item)
    requires Shows(links, items) && at <= |links| && node.txn == x.txn && node.priority == x.priority
    ensures Shows(Spliced(links, at, node), items[..at] + [x] + items[at..])
  {}

  lemma ChainTail(links: seq<Link>)
    requires Chained(links) && links != []
    ensures Chained(links[1..]) && links[0].next == if |links| > 1 then links[1] else null
  {
    assert NextOk(links, 0);
    forall i | 0 <= i < |links[1..]| ensures NextOk(links[1..], i) {
      assert NextOk(links, i + 1);
    }
  }

  class Queue {
    var head: Link?
    var tail: Link?
    var size: int
    const maxSize: int
    ghost var links: seq<Link>
    ghost var items: seq<Item>
    ghost var clock: nat

    ghost function Repr(): set<object>
      reads this
    {
      {this} + LinkSet(links)
    }

    ghost predicate Valid()
      reads this, Repr()
    {
      && Chained(links) && Shows(links, items) && Ends(links, head, tail)
      && size == |links|
      && Ordered(items) && Stamped(items, clock)
    }

    /** A size that is not positive stands for the default of 1000. */
    constructor (max: int)
      ensures Valid() && items == [] && fresh(Repr())
      ensures maxSize == if max <= 0 then 1000 else max
    {
      maxSize := if max <= 0 then 1000 else max;
      head, tail, size := null, null, 0;
      links, items, clock := [], [], 0;
    }

    /** Adds a transaction; a queue that stays full for the waiting time refuses it. */
    method Enqueue(txn: Id, priority: int) returns (status: int)
      requires Valid()
      modifies Repr()
      ensures Valid() && forall o :: o in Repr() && o !in old(Repr()) ==> fresh(o)
      ensures status == if old(size) >= maxSize then -8 else 0
      ensures status == QUEUE_FULL ==> items == old(items) && clock == old(clock)
      ensures status == SUCCESS ==>
        var x := Item(txn, priority, old(clock));
        && items == Arrive(old(items), x) && Waiting(items) == old(Waiting(items)) + {x}
        && clock == old(clock) + 1 && size == old(size) + 1
    {
      if size >= maxSize {
        return QUEUE_FULL;
      }
      hide Ordered, Waiting, Arrive, Chained, Shows, Stamped;
      var node := new Link(txn, priority);
      Admit(node, Item(txn, priority, clock));
      return SUCCESS;
    }

    /** Hangs a new link in at its place. */
    method Admit(node: Link, ghost x: Item)
      requires Valid() && node !in LinkSet(links) && node.txn == x.txn && node.priority == x.priority
      requires x.stamp == clock
      modifies Repr(), node
      ensures Valid() && LinkSet(links) == old(LinkSet(links)) + {node}
      ensures items == Arrive(old(items), x) && Waiting(items) == old(Waiting(items)) + {x}
      ensures clock == old(clock) + 1 && size == old(size) + 1
    {
      hide Ordered, Waiting, Before, Arrive, Chained, Shows, Spliced, Stamped, LinkSet;
      ghost var q, ls := items, links;
      ArriveKeepsOrder(q, x);
      StampedNext(q, x);
      var current;
      ghost var at;
      current, at := SlotFor(node.priority, x);
      SplicedShows(ls, q, at, node, x);
      SplicedEnds(ls, at, node);
      Splice(ls, at, current, head, node);
      if current == null {
        head := node;
        if tail == null { tail := node; }
      } else if node.next == null {
        tail := node;
      }
      size := size + 1;
      links, items, clock := Spliced(ls, at, node), Arrive(q, x), clock + 1;
    }

    /** Where a newcomer goes: after `current`, or in front of all. */
    method SlotFor(priority: int, ghost x: Item) returns (current: Link?, ghost at: nat)
      requires Valid() && x.priority == priority
      ensures Chained(links)
      ensures at <= |links| == |items| && Arrive(items, x) == items[..at] + [x] + items[at..]
      ensures at > 0 ==> current == links[at - 1] && current in LinkSet(links)
      ensures at == 0 ==> current == null
    {
      hide Ordered, Chained, Arrive, Stamped;
      current, at := null, 0;
      if head != null && priority <= head.priority {
        current, at := LastBefore(priority);
      }
      ArriveAt(items, x, at);
    }

    /** The last link that a newcomer of this priority has to let go first. */
    method LastBefore(priority: int) returns (current: Link, ghost at: nat)
      requires Valid() && head != null && priority <= head.priority
      ensures Chained(links)
      ensures 0 < at <= |links| == |items| && current == links[at - 1]
      ensures forall j :: 0 <= j < at ==> items[j].priority >= priority
      ensures at < |items| ==> items[at].priority < priority
    {
      hide Ordered;
      current, at := head, 1;
      assert NextOk(links, 0);
      while current.next != null && current.next.priority >= priority
        invariant 0 < at <= |links| && current == links[at - 1] && NextOk(links, at - 1)
        invariant forall j :: 0 <= j < at ==> items[j].priority >= priority
        decreases |links| - at
      {
        assert NextOk(links, at);
        current := current.next;
        at := at + 1;
      }
    }

    /** Takes out the foremost transaction; on an empty queue the wait runs out. */
    method Dequeue() returns (found: bool, txn: Id)
      requires Valid()
      modifies this`head, this`tail, this`size, this`links, this`items
      ensures Valid() && Repr() <= old(Repr())
      ensures found == (old(items) != [])
      ensures !found ==> items == old(items)
      ensures found ==>
        var x := old(items)[0];
        && txn == x.txn && Foremost(old(Waiting(items)), x)
        && Waiting(items) == old(Waiting(items)) - {x} && items == old(items)[1..] && size == old(size) - 1
        && forall y :: y in items ==> x.priority > y.priority || (x.priority == y.priority && x.stamp < y.stamp)
    {
      if size == 0 {
        return false, 0;
      }
      HeadIsForemost(items);
      hide Ordered, Waiting, Foremost, Chained;
      ChainTail(links);
      txn := head.txn;
      head := head.next;
      if head == null { tail := null; }
      size := size - 1;
      assert forall y :: y in items[1..] ==> y in items;
      links, items := links[1..], items[1..];
      found := true;
    }
  }

  lemma SplicedEnds(links: seq<Link>, at: nat, node: Link)
    requires at <= |links|
    ensures var ls := Spliced(links, at, node);
      && |ls| == |links| + 1 && LinkSet(ls) == LinkSet(links) + {node}
      && ls[0] == (if at == 0 then node else links[0])
      && ls[|ls| - 1] == (if at == |links| then node else links[|links| - 1])
  {}

  lemma StampedNext(q: seq<Item>, x: Item)
    requires Stamped(q, x.stamp) && Waiting(Arrive(q, x)) == Waiting(q) + {x}
    ensures Stamped(Arrive(q, x), x.stamp + 1)
  {
    forall y | y in Arrive(q, x) ensures y.stamp < x.stamp + 1 {
      assert y in Waiting(Arrive(q, x));
    }
  }
}
