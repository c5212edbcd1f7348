/** Whole runs of the cache, and what a get sees of a set. */
module LruRuns {
  import opened Bytes
  import opened Options
  import opened Words
  import opened LruSpec
  import opened CacheHeap
  import opened LruCache

  /** The table was given the default seed. */
  ghost predicate OneSeed(c: Cache) {
    forall key: Bytes :: c.table.Agrees(key)
  }

  ghost function StateOf(c: Cache, latest: map<Bytes, Bytes>): LruSpec.Run
    reads c, c.list, EntrySet(c.list.es)
  {
    LruSpec.Run(c.View(), c.clock, latest)
  }

  ghost function Stepped(c: Cache, r: LruSpec.Run, op: (Op, nat)): LruSpec.Run {
    Step(r, op.0, op.1, c.maxEntries, c.EvictCount())
  }

  /** One call on the cache is one step of the list specification. */
  method Call(c: Cache, op: (Op, nat), ghost latest: map<Bytes, Bytes>)
    requires c.Valid() && OneSeed(c)
    modifies c.Repr()
    ensures c.Valid() && forall o :: o in c.Repr() && o !in old(c.Repr()) ==> fresh(o)
    ensures StateOf(c, Stepped(c, old(StateOf(c, latest)), op).latest) == Stepped(c, old(StateOf(c, latest)), op)
  {
    hide Members, Items, Table.Valid, RecencyList.Valid, Good, Without, SetItems, GetItems, LiveItems;
    hide Cache.Valid, KeepsOthers, CostsNothing, GetResult;
    match op.0 {
      case Set(key, value, ttl) =>
        var st := c.Set(key, value, ttl, op.1);
      case Get(key) =>
        var st, value := c.Get(key, op.1);
      case Delete(key) =>
        var st := c.Delete(key);
      case Cleanup =>
        var count := c.Cleanup(op.1);
    }
  }

  lemma ValidIsGood(c: Cache)
    requires c.Valid()
    ensures Good(c.View(), c.clock) && c.current == |c.View()|
  {}

  /** The state after the first `i` operations, as the specification has it. */
  ghost function Reached(c: Cache, r: LruSpec.Run, ops: seq<(Op, nat)>): LruSpec.Run {
    Steps(r, ops, c.maxEntries, c.EvictCount())
  }

  /**
    Every run of calls on the cache is the run of the list specification; no value is stale, and a
    positive limit is never exceeded where evictions drop something.
   */
  method Run(c: Cache, ops: seq<(Op, nat)>, ghost latest: map<Bytes, Bytes>)
    requires c.Valid() && OneSeed(c) && Fresh(c.View(), latest)
    modifies c.Repr()
    ensures c.Valid() && forall o :: o in c.Repr() && o !in old(c.Repr()) ==> fresh(o)
    ensures var end := Reached(c, old(StateOf(c, latest)), ops);
      c.View() == end.items && c.clock == end.clock && Fresh(c.View(), end.latest)
    ensures c.maxEntries > 0 && c.EvictCount() >= 1 && old(c.current) <= c.maxEntries ==> c.current <= c.maxEntries
  {
    hide Members, Items, Table.Valid, RecencyList.Valid, Good, Fresh, Step, StateOf;
    hide Cache.Valid;
    ghost var start := StateOf(c, latest);
    ghost var r := start;
    StateParts(c, latest);
    assert ops[..0] == [];
    for i := 0 to |ops|
      invariant c.Valid() && r == Reached(c, start, ops[..i]) && StateOf(c, r.latest) == r && Fresh(r.items, r.latest)
      invariant forall o :: o in c.Repr() && o !in old(c.Repr()) ==> fresh(o)
      invariant c.maxEntries > 0 && c.EvictCount() >= 1 && old(c.current) <= c.maxEntries ==> |r.items| <= c.maxEntries
    {
      StepsMore(start, ops, i, c.maxEntries, c.EvictCount());
      StateParts(c, r.latest);
      StepFresh(r, ops[i].0, ops[i].1, c.maxEntries, c.EvictCount());
      if c.maxEntries > 0 && c.EvictCount() >= 1 && old(c.current) <= c.maxEntries {
        StepBounded(r, ops[i].0, ops[i].1, c.maxEntries, c.EvictCount());
      }
      Call(c, ops[i], r.latest);
      r := Stepped(c, r, ops[i]);
    }
    assert ops[..|ops|] == ops;
    StateParts(c, r.latest);
  }

  lemma StateParts(c: Cache, latest: map<Bytes, Bytes>)
    requires c.Valid()
    ensures var r := StateOf(c, latest);
      r.items == c.View() && r.clock == c.clock && r.latest == latest && Good(r.items, r.clock)
        && c.current == |r.items|
  {}

  /** The same of a cache that starts empty. */
  method RunNew(hash: Hash, buckets: nat, maxEntries: nat, batch: nat, minBatch: nat, ops: seq<(Op, nat)>)
    returns (c: Cache)
    ensures c.Valid() && c.maxEntries == maxEntries
    ensures var end := Reached(c, LruSpec.Run([], 0, map[]), ops);
      c.View() == end.items && c.clock == end.clock && Fresh(c.View(), end.latest)
    ensures maxEntries > 0 && (batch >= 1 || minBatch >= 1) ==> c.current <= maxEntries
  {
    hide Members, Items, Table.Valid, RecencyList.Valid, Good, Cache.Linked;
    c := new Cache(hash, hash, buckets, maxEntries, batch, minBatch);
    EmptyGood();
    ValidIsGood(c);
    Run(c, ops, map[]);
  }

  // ----- what a get sees of a set

  /**
    A key that was set is seen exactly if its two hashes agree and its time to live, counted from the
    creation of the entry, has not run out.
   */
  method SetThenGet(c: Cache, key: Bytes, value: Bytes, ttl: nat, now: nat, later: nat)
    returns (st: Status, got: Status, seen: Bytes)
    requires c.Valid() && Accepted(Op.Set(key, value, ttl)) && c.DropsAgree(c.View())
    modifies c.Repr()
    ensures c.Valid() && (got == Success || got == KeyNotFound) && (got == Success ==> seen == value)
    ensures st ==
      if c.table.Agrees(key) || old(IndexOf(Evicted(c.View(), c.maxEntries, c.EvictCount()), key)) < 0 then Success
        else KeyExists
    ensures got == Success <==>
      && c.table.Agrees(key)
      && (ttl == 0 || later <= (old(CreatedBy(c.View(), key, now, c.maxEntries, c.EvictCount())) + ttl) % WORD64)
  {
    hide Members, Items, Table.Valid, RecencyList.Valid, Good, SetItems, GetItems, GetResult, CreatedBy, Table.Agrees;
    hide Cache.Valid, Cache.DropsAgree, IndexOf;
    ghost var items := c.View();
    ValidIsGood(c);
    st := c.Set(key, value, ttl, now);
    got, seen := c.Get(key, later);
    SetIsSeenIff(items, key, value, ttl, now, old(c.clock), c.maxEntries, c.EvictCount(), later);
  }

  /** A value set again at time 10 to live for 5 is not seen at time 10, because the entry is of time 0. */
  method SetButMissed(hash: Hash, key: Bytes, value: Bytes) returns (first: Status, second: Status, got: Status)
    requires KeyFits(key) && value != [] && |value| <= MAX_VALUE
    ensures first == Success && second == Success && got == KeyNotFound
  {
    hide Members, Items, Table.Valid, RecencyList.Valid, Good, Cache.Linked, Cache.Sound, CreatedBy;
    var c := new Cache(hash, hash, 64, 0, 0, 0);
    first := c.Set(key, value, 0, 0);
    OfTimeZero(key, value);
    assert c.View() == SetItems([], key, value, 0, 0, 0, 0, 0);
    var seen: Bytes;
    second, got, seen := SetThenGet(c, key, value, 5, 10, 10);
  }

  lemma OfTimeZero(key: Bytes, value: Bytes)
    ensures CreatedBy(SetItems([], key, value, 0, 0, 0, 0, 0), key, 10, 0, 0) == 0
  {
    assert SetItems([], key, value, 0, 0, 0, 0, 0) == [Item(key, value, 0, 0, 0)];
  }

  /** A full cache of two entries. */
  method FullCache(hash: Hash, a: Bytes, b: Bytes, value: Bytes) returns (c: Cache)
    requires KeyFits(a) && KeyFits(b) && a != b && value != [] && |value| <= MAX_VALUE
    ensures c.Valid() && fresh(c.Repr()) && OneSeed(c) && c.clock == 2 && c.maxEntries == 2 && c.EvictCount() == 1
    ensures c.View() == SetItems(SetItems([], b, value, 0, 0, 0, 2, 1), a, value, 0, 0, 1, 2, 1)
  {
    hide Members, Items, Table.Valid, RecencyList.Valid, Good, Cache.Linked, Cache.Sound;
    hide SetItems, IndexOf, Evicted;
    c := new Cache(hash, hash, 64, 2, 0, 1);
    var st := c.Set(b, value, 0, 0);
    st := c.Set(a, value, 0, 0);
  }

  /** A cache of two entries: setting the value of `b` again costs the entry of `a`. */
  method SetCostsOther(hash: Hash, a: Bytes, b: Bytes, value: Bytes) returns (before: Status, after: Status)
    requires KeyFits(a) && KeyFits(b) && a != b && value != [] && |value| <= MAX_VALUE
    ensures before == Success && after == KeyNotFound
  {
    hide Members, Items, Table.Valid, RecencyList.Valid, Good, Cache.Valid;
    hide SetItems, GetItems, GetResult, IndexOf, Evicted;
    TwoItems(a, b, value);
    var c := FullCache(hash, a, b, value);
    var st, seen := c.Get(a, 0);
    before := st;
    st, seen := c.Get(b, 0);
    assert fresh(c.Repr());
    st := c.Set(b, value, 0, 0);
    assert fresh(c.Repr());
    after, seen := c.Get(a, 0);
  }

  /** The items of that run. */
  lemma TwoItems(a: Bytes, b: Bytes, value: Bytes)
    requires a != b
    ensures var one := SetItems([], b, value, 0, 0, 0, 2, 1);
      var two := SetItems(one, a, value, 0, 0, 1, 2, 1);
      var three := GetItems(two, a, 0, 2);
      var four := GetItems(three, b, 0, 3);
      var five := SetItems(four, b, value, 0, 0, 4, 2, 1);
      && GetResult(two, a, 0) == Some(value) && GetResult(five, a, 0) == None
      && |four| == 2 && IndexOf(four, b) >= 0
  {
    var one := SetItems([], b, value, 0, 0, 0, 2, 1);
    assert one == [Item(b, value, 0, 0, 0)];
    var two := SetItems(one, a, value, 0, 0, 1, 2, 1);
    assert two == [Item(a, value, 0, 0, 1), Item(b, value, 0, 0, 0)];
    assert IndexOf(two, a) == 0;
    var three := GetItems(two, a, 0, 2);
    assert three == [Item(a, value, 0, 0, 2), Item(b, value, 0, 0, 0)];
    var four := GetItems(three, b, 0, 3);
    assert four == [Item(b, value, 0, 0, 3), Item(a, value, 0, 0, 2)];
    var kept := Evicted(four, 2, 1);
    assert kept == [Item(b, value, 0, 0, 3)];
    var five := SetItems(four, b, value, 0, 0, 4, 2, 1);
    assert five == [Item(b, value, 0, 0, 4)];
  }

  /** With a seed under which the hashes of `a` differ, `a` is not seen, and its eviction leaves the table wrong. */
  method OtherSeedLoses(own: Hash, look: Hash, a: Bytes, b: Bytes) returns (c: Cache, first: Status, got: Status)
    requires KeyFits(a) && KeyFits(b) && own(a) != look(a)
    ensures first == Success && got == KeyNotFound && !c.Valid()
  {
    hide Members, Items, Table.Valid, RecencyList.Valid, Good, Cache.Linked;
    c := new Cache(own, look, 64, 1, 0, 1);
    first := c.Set(a, [1], 0, 0);
    var seen: Bytes;
    got, seen := c.Get(a, 0);
    assert c.View()[0].key == a;
    var second := c.Set(b, [2], 0, 0);
  }
}
