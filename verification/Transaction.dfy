/** What a transaction does to the store it runs on, and what undoing it leaves. */
module TxnEffects {
  import opened Bytes
  import opened Options

  type Store = map<Bytes, Bytes>

  datatype Call = Set(key: Bytes, value: Bytes) | Del(key: Bytes) | Mod(key: Bytes, value: Bytes)

  datatype Kind = OpSet | OpDel | OpMod

  /** An entry of the operation list; `was` is the value found when the call was made. */
  datatype Item = Item(kind: Kind, key: Bytes, value: Bytes, was: Option<Bytes>)

  ghost function Find(m: Store, k: Bytes): Option<Bytes> {
    if k in m then Some(m[k]) else None
  }

  /** The engine's set: it only adds absent keys. */
  ghost function PutIfAbsent(m: Store, k: Bytes, v: Bytes): Store {
    if k in m then m else m[k := v]
  }

  ghost function Replace(m: Store, k: Bytes, v: Bytes): Store {
    if k in m then m[k := v] else m
  }

  /** Carrying out an operation. */
  ghost function Perform(m: Store, item: Item): Store {
    match item.kind
    case OpSet => PutIfAbsent(m, item.key, item.value)
    case OpDel => m - {item.key}
    case OpMod => Replace(m, item.key, item.value)
  }

  /** Taking it back, as rollback does. */
  ghost function Undo(m: Store, item: Item): Store {
    match item.was
    case Some(v) => PutIfAbsent(m, item.key, v)
    case None => if item.kind == OpSet then m - {item.key} else m
  }

  ghost function PerformAll(m: Store, items: seq<Item>): Store {
    if items == [] then m else Perform(PerformAll(m, items[..|items| - 1]), items[|items| - 1])
  }

  ghost function UndoAll(m: Store, items: seq<Item>): Store
    decreases |items|
  {
    if items == [] then m else UndoAll(Undo(m, items[|items| - 1]), items[..|items| - 1])
  }

  /** What a call records when the store is `m`: nothing if it modifies an absent key. */
  ghost function Recorded(m: Store, c: Call): seq<Item> {
    match c
    case Set(k, v) => [Item(OpSet, k, v, Find(m, k))]
    case Del(k) => [Item(OpDel, k, [], Find(m, k))]
    case Mod(k, v) => if k in m then [Item(OpMod, k, v, Find(m, k))] else []
  }

  /** The store after one call that takes effect at once. */
  ghost function Now(m: Store, c: Call): Store {
    PerformAll(m, Recorded(m, c))
  }

  /** The store after calls that take effect at once, and the operations they record. */
  ghost function Eager(m: Store, calls: seq<Call>): Store
    decreases |calls|
  {
    if calls == [] then m else Eager(Now(m, calls[0]), calls[1..])
  }

  ghost function EagerItems(m: Store, calls: seq<Call>): seq<Item>
    decreases |calls|
  {
    if calls == [] then [] else Recorded(m, calls[0]) + EagerItems(Now(m, calls[0]), calls[1..])
  }

  /** A deferred call sees the store as it was; a set does not look at it at all. */
  ghost function Noted(m: Store, c: Call): seq<Item> {
    if c.Set? then [Item(OpSet, c.key, c.value, None)] else Recorded(m, c)
  }

  ghost function DeferredItems(m: Store, calls: seq<Call>): seq<Item> {
    if calls == [] then [] else DeferredItems(m, calls[..|calls| - 1]) + Noted(m, calls[|calls| - 1])
  }

  ghost function Deferred(m: Store, calls: seq<Call>): Store {
    PerformAll(m, DeferredItems(m, calls))
  }

  lemma {:induction false} UndoConcat(m: Store, a: seq<Item>, b: seq<Item>)
    ensures UndoAll(m, a + b) == UndoAll(UndoAll(m, b), a)
    decreases |b|
  {
    if b == [] {
      assert a + b == a;
    } else {
      assert (a + b)[..|a + b| - 1] == a + b[..|b| - 1];
      UndoConcat(Undo(m, b[|b| - 1]), a, b[..|b| - 1]);
    }
  }

  lemma {:induction false} PerformConcat(m: Store, a: seq<Item>, b: seq<Item>)
    ensures PerformAll(m, a + b) == PerformAll(PerformAll(m, a), b)
    decreases |b|
  {
    if b == [] {
      assert a + b == a;
    } else {
      assert (a + b)[..|a + b| - 1] == a + b[..|b| - 1];
      PerformConcat(m, a, b[..|b| - 1]);
    }
  }

  lemma {:induction false} EagerAppend(m: Store, calls: seq<Call>, c: Call)
    ensures Eager(m, calls + [c]) == Now(Eager(m, calls), c)
    ensures EagerItems(m, calls + [c]) == EagerItems(m, calls) + Recorded(Eager(m, calls), c)
    decreases |calls|
  {
    if calls == [] {
      assert calls + [c] == [c] && [c][1..] == [];
      assert Eager(Now(m, c), []) == Now(m, c) && EagerItems(Now(m, c), []) == [];
    } else {
      assert (calls + [c])[1..] == calls[1..] + [c];
      EagerAppend(Now(m, calls[0]), calls[1..], c);
    }
  }

  // ----- rollback

  /** What rollback leaves of a key whose value was `v`: undo brings back deleted keys but no changed values. */
  ghost function Residue(calls: seq<Call>, k: Bytes, v: Bytes): Bytes
    decreases |calls|
  {
    if calls == [] || calls[0] == Del(k) then v
    else if calls[0].Mod? && calls[0].key == k then Residue(calls[1..], k, calls[0].value)
    else Residue(calls[1..], k, v)
  }

  ghost function Leftover(m: Store, calls: seq<Call>): Store {
    map k | k in m :: Residue(calls, k, m[k])
  }

  lemma RecordedOne(m: Store, c: Call)
    ensures |Recorded(m, c)| <= 1
    ensures Recorded(m, c) == [] ==> Now(m, c) == m
    ensures |Recorded(m, c)| == 1 ==> Now(m, c) == Perform(m, Recorded(m, c)[0])
    ensures forall s :: UndoAll(s, Recorded(m, c)) == if Recorded(m, c) == [] then s else Undo(s, Recorded(m, c)[0])
  {
    var items := Recorded(m, c);
    if items != [] {
      assert items[..0] == [];
      assert PerformAll(m, []) == m;
      forall s ensures UndoAll(s, items) == Undo(s, items[0]) {
        assert UndoAll(Undo(s, items[0]), []) == Undo(s, items[0]);
      }
    }
  }

  /** One key after one call. */
  lemma NowAt(m: Store, c: Call, k: Bytes)
    ensures Find(Now(m, c), k) ==
      if c.key != k then Find(m, k)
      else match c
        case Set(_, v) => if k in m then Some(m[k]) else Some(v)
        case Del(_) => None
        case Mod(_, v) => if k in m then Some(v) else None
  {
    RecordedOne(m, c);
  }

  /** One key after the call, made on `m`, is taken back on `s`. */
  lemma TakenBackAt(m: Store, c: Call, s: Store, k: Bytes)
    ensures Find(UndoAll(s, Recorded(m, c)), k) ==
      if c.key != k then Find(s, k)
      else if k in m then (if k in s then Some(s[k]) else Some(m[k]))
      else if c.Set? then None
      else Find(s, k)
  {
    RecordedOne(m, c);
  }

  lemma LeftoverAt(m: Store, calls: seq<Call>, k: Bytes)
    ensures Find(Leftover(m, calls), k) == if k in m then Some(Residue(calls, k, m[k])) else None
  {}

  lemma LeftoverStep(m: Store, calls: seq<Call>)
    requires calls != []
    ensures UndoAll(Leftover(Now(m, calls[0]), calls[1..]), Recorded(m, calls[0])) == Leftover(m, calls)
  {
    hide UndoAll, Now, Recorded, Leftover;
    var c := calls[0];
    var m1 := Now(m, c);
    var l := Leftover(m1, calls[1..]);
    var r := UndoAll(l, Recorded(m, c));
    forall k ensures Find(r, k) == Find(Leftover(m, calls), k) {
      NowAt(m, c, k);
      LeftoverAt(m1, calls[1..], k);
      TakenBackAt(m, c, l, k);
      LeftoverAt(m, calls, k);
    }
    SameFinds(r, Leftover(m, calls));
  }

  /** Rolling back calls that took effect leaves exactly the old keys, each with its residue. */
  lemma {:induction false} RollbackLeaves(m: Store, calls: seq<Call>)
    ensures UndoAll(Eager(m, calls), EagerItems(m, calls)) == Leftover(m, calls)
    decreases |calls|
  {
    if calls == [] {
      assert Leftover(m, calls) == m;
    } else {
      var m1 := Now(m, calls[0]);
      RollbackLeaves(m1, calls[1..]);
      UndoConcat(Eager(m, calls), Recorded(m, calls[0]), EagerItems(m1, calls[1..]));
      LeftoverStep(m, calls);
    }
  }

  lemma {:induction false} NoModNoResidue(calls: seq<Call>, k: Bytes, v: Bytes)
    requires forall c :: c in calls ==> !c.Mod?
    ensures Residue(calls, k, v) == v
    decreases |calls|
  {
    if calls != [] {
      assert calls[0] in calls;
      NoModNoResidue(calls[1..], k, v);
    }
  }

  /** A script of sets and deletes is undone completely. */
  lemma RollbackRestores(m: Store, calls: seq<Call>)
    requires forall c :: c in calls ==> !c.Mod?
    ensures UndoAll(Eager(m, calls), EagerItems(m, calls)) == m
  {
    RollbackLeaves(m, calls);
    forall k | k in m ensures Residue(calls, k, m[k]) == m[k] {
      NoModNoResidue(calls, k, m[k]);
    }
    assert Leftover(m, calls) == m;
  }

  /** With modifications, the keys come back, and the values do exactly if every residue is the old value. */
  lemma RollbackRestoresIff(m: Store, calls: seq<Call>)
    ensures UndoAll(Eager(m, calls), EagerItems(m, calls)).Keys == m.Keys
    ensures UndoAll(Eager(m, calls), EagerItems(m, calls)) == m <==>
      forall k :: k in m ==> Residue(calls, k, m[k]) == m[k]
  {
    RollbackLeaves(m, calls);
    var l := Leftover(m, calls);
    assert l.Keys == m.Keys;
    if forall k :: k in m ==> Residue(calls, k, m[k]) == m[k] {
      assert l == m;
    }
  }

  // ----- commit

  /** What the calls themselves made of a key that was absent: its first and its latest value. */
  datatype Own = Gone | Own(first: Bytes, last: Bytes)

  ghost function OwnOf(calls: seq<Call>, k: Bytes): Own {
    if calls == [] then Gone
    else
      var own, c := OwnOf(calls[..|calls| - 1], k), calls[|calls| - 1];
      if c.key != k then own
      else
        match c
        case Set(_, v) => if own.Gone? then Own(v, v) else own
        case Del(_) => Gone
        case Mod(_, v) => if own.Gone? then Gone else own.(last := v)
  }

  ghost function Holds(own: Own, last: bool): Option<Bytes> {
    if own.Gone? then None else Some(if last then own.last else own.first)
  }

  lemma DeferredAppend(m: Store, calls: seq<Call>, c: Call)
    ensures Deferred(m, calls + [c]) == PerformAll(Deferred(m, calls), Noted(m, c))
    ensures DeferredItems(m, calls + [c]) == DeferredItems(m, calls) + Noted(m, c)
  {
    assert (calls + [c])[..|calls + [c]| - 1] == calls;
    PerformConcat(m, DeferredItems(m, calls), Noted(m, c));
  }

  /** One key after a noted call, made on `m`, is carried out on `s`. */
  lemma NotedAt(m: Store, s: Store, c: Call, k: Bytes)
    ensures Find(PerformAll(s, Noted(m, c)), k) ==
      if c.key != k then Find(s, k)
      else match c
        case Set(_, v) => if k in s then Some(s[k]) else Some(v)
        case Del(_) => None
        case Mod(_, v) => if k in m && k in s then Some(v) else Find(s, k)
  {
    var items := Noted(m, c);
    assert PerformAll(s, []) == s;
    if items != [] {
      assert items[..0] == [];
    }
  }

  /** Key by key: deferred and immediate execution agree on old keys and may differ in the latest value of new ones. */
  lemma {:induction false} BothAt(m: Store, calls: seq<Call>, k: Bytes)
    ensures k in m ==> Find(Eager(m, calls), k) == Find(Deferred(m, calls), k)
    ensures k !in m ==>
      && Find(Eager(m, calls), k) == Holds(OwnOf(calls, k), true)
      && Find(Deferred(m, calls), k) == Holds(OwnOf(calls, k), false)
    decreases |calls|
  {
    hide Now, Recorded, Noted, PerformAll;
    if calls == [] {
      BothStart(m);
    } else {
      hide Eager, Deferred;
      var before, c := calls[..|calls| - 1], calls[|calls| - 1];
      assert calls == before + [c];
      BothAt(m, before, k);
      EagerAppend(m, before, c);
      DeferredAppend(m, before, c);
      NowAt(Eager(m, before), c, k);
      NotedAt(m, Deferred(m, before), c, k);
    }
  }

  lemma BothStart(m: Store)
    ensures Eager(m, []) == m && Deferred(m, []) == m
  {}

  /** The transaction did not leave the key as its own with a value other than the first. */
  ghost predicate Settled(m: Store, calls: seq<Call>, k: Bytes) {
    k !in m && OwnOf(calls, k).Own? ==> OwnOf(calls, k).first == OwnOf(calls, k).last
  }

  /**
    Committing deferred calls gives the store that immediate execution would have given, exactly if no
    key that the transaction itself added and left in place was modified to another value.
   */
  lemma DeferredMatchesEagerIff(m: Store, calls: seq<Call>)
    ensures Eager(m, calls) == Deferred(m, calls) <==> forall k :: Settled(m, calls, k)
  {
    hide Eager, Deferred;
    var e, d := Eager(m, calls), Deferred(m, calls);
    forall k ensures Find(e, k) == Find(d, k) <==> Settled(m, calls, k) {
      BothAt(m, calls, k);
    }
    if forall k :: Settled(m, calls, k) {
      forall k ensures Find(e, k) == Find(d, k) {
        assert Settled(m, calls, k);
      }
      SameFinds(e, d);
    }
  }

  lemma SameFinds(e: Store, d: Store)
    requires forall k :: Find(e, k) == Find(d, k)
    ensures e == d
  {
    forall k ensures k in e <==> k in d {
      assert Find(e, k) == Find(d, k);
    }
    forall k | k in e ensures e[k] == d[k] {
      assert Find(e, k) == Find(d, k);
    }
  }

  lemma {:induction false} NoModOwn(calls: seq<Call>, k: Bytes)
    requires forall c :: c in calls ==> !c.Mod?
    ensures OwnOf(calls, k).Own? ==> OwnOf(calls, k).first == OwnOf(calls, k).last
    decreases |calls|
  {
    if calls != [] {
      assert calls[|calls| - 1] in calls;
      NoModOwn(calls[..|calls| - 1], k);
    }
  }

  /** For sets and deletes, deferring makes no difference. */
  lemma DeferredMatchesEager(m: Store, calls: seq<Call>)
    requires forall c :: c in calls ==> !c.Mod?
    ensures Eager(m, calls) == Deferred(m, calls)
  {
    forall k ensures Settled(m, calls, k) {
      NoModOwn(calls, k);
    }
    DeferredMatchesEagerIff(m, calls);
  }

  lemma OwnModified(k: Bytes, v: Bytes, w: Bytes)
    ensures OwnOf([Set(k, v), Mod(k, w)], k) == Own(v, w)
  {
    var one := [Set(k, v)];
    assert one[..0] == [];
    assert OwnOf([], k) == Gone;
    assert OwnOf(one, k) == Own(v, v);
    var both := [Set(k, v), Mod(k, w)];
    assert both[..1] == one;
  }

  /** A modification of a value is not undone, and a deferred one of the transaction's own key is lost. */
  lemma ModificationsSurvive(k: Bytes, v: Bytes, w: Bytes)
    requires v != w
    ensures UndoAll(Eager(map[k := v], [Mod(k, w)]), EagerItems(map[k := v], [Mod(k, w)])) == map[k := w]
    ensures Eager(map[], [Set(k, v), Mod(k, w)]) != Deferred(map[], [Set(k, v), Mod(k, w)])
  {
    var calls := [Mod(k, w)];
    assert Residue(calls, k, v) == Residue(calls[1..], k, w) == w;
    RollbackLeaves(map[k := v], calls);
    assert Leftover(map[k := v], calls) == map[k := w];
    var both := [Set(k, v), Mod(k, w)];
    OwnModified(k, v, w);
    assert !Settled(map[], both, k);
    DeferredMatchesEagerIff(map[], both);
  }
}

/** Transactions on the red-black tree engine: recorded operations, carried out at once or at commit. */
module Transactions {
  import opened Bytes
  import opened Options
  import opened TxnEffects
  import RBEngine
  import RBShape

  datatype Status = Active | Committed | Aborted

  class Transaction {
    /** At the read-uncommitted level operations take effect at once. */
    const immediate: bool
    const engine: RBEngine.RBTree
    var status: Status
    var items: seq<Item>
    ghost const start: Store
    ghost var calls: seq<Call>

    ghost predicate Valid()
      reads this, engine, engine.Repr()
    {
      && engine.Valid() && this !in engine.Repr()
      && (status == Active && immediate ==> items == EagerItems(start, calls) && engine.m == Eager(start, calls))
      && (status == Active && !immediate ==> items == DeferredItems(start, calls) && engine.m == start)
    }

    constructor (engine: RBEngine.RBTree, immediate: bool)
      requires engine.Valid()
      ensures Valid() && this.engine == engine && this.immediate == immediate && status == Active
      ensures calls == [] && start == engine.m
    {
      this.engine, this.immediate, start := engine, immediate, engine.m;
      status, items, calls := Active, [], [];
    }

    /** `txn_set`. */
    method Set(key: Bytes, value: Bytes) returns (r: int)
      requires Valid()
      modifies this`items, this`calls, engine.Repr()
      ensures Valid() && status == old(status)
      ensures forall o :: o in engine.Repr() && o !in old(engine.Repr()) ==> fresh(o)
      ensures r == if status == Active then 0 else -1
      ensures calls == if r == 0 then old(calls) + [TxnEffects.Set(key, value)] else old(calls)
      ensures r != 0 || !immediate ==> engine.m == old(engine.m)
      ensures r == 0 && immediate ==>
        engine.m == if key in old(engine.m) then old(engine.m) else old(engine.m)[key := value]
    {
      hide RBEngine.Holds, RBEngine.NodesOf, RBEngine.PicturesShape, RBShape.Valid, EagerItems, DeferredItems, Eager;
      hide PerformAll;
      if status != Active {
        return -1;
      }
      ghost var c := TxnEffects.Set(key, value);
      EagerAppend(start, calls, c);
      DeferredAppend(start, calls, c);
      RecordedOne(Eager(start, calls), c);
      calls := calls + [c];
      var was := None;
      if immediate {
        var found, v := engine.Get(key);
        if found {
          was := Some(v);
        }
        engine.Set(key, value);
      }
      items := items + [Item(OpSet, key, value, was)];
      return 0;
    }

    /** `txn_delete`. */
    method Delete(key: Bytes) returns (r: int)
      requires Valid()
      modifies this`items, this`calls, engine.Repr()
      ensures Valid() && status == old(status)
      ensures forall o :: o in engine.Repr() && o !in old(engine.Repr()) ==> fresh(o)
      ensures r == if status == Active then 0 else -1
      ensures calls == if r == 0 then old(calls) + [Del(key)] else old(calls)
      ensures r != 0 || !immediate ==> engine.m == old(engine.m)
      ensures r == 0 && immediate ==> engine.m == old(engine.m) - {key}
    {
      hide RBEngine.Holds, RBEngine.NodesOf, RBEngine.PicturesShape, RBShape.Valid, EagerItems, DeferredItems, Eager;
      hide PerformAll;
      if status != Active {
        return -1;
      }
      ghost var c := Del(key);
      EagerAppend(start, calls, c);
      DeferredAppend(start, calls, c);
      RecordedOne(Eager(start, calls), c);
      calls := calls + [c];
      var found, v := engine.Get(key);
      items := items + [Item(OpDel, key, [], if found then Some(v) else None)];
      if immediate {
        var st := engine.Delete(key);
      }
      return 0;
    }

    /** `txn_modify`: a key the engine does not have is refused. */
    method Modify(key: Bytes, value: Bytes) returns (r: int)
      requires Valid()
      modifies this`items, this`calls, engine.Repr()
      ensures Valid() && status == old(status)
      ensures forall o :: o in engine.Repr() && o !in old(engine.Repr()) ==> fresh(o)
      ensures r == if status == Active && key in old(engine.m) then 0 else -1
      ensures calls == if status == Active then old(calls) + [Mod(key, value)] else old(calls)
      ensures r != 0 || !immediate ==> engine.m == old(engine.m)
      ensures r == 0 && immediate ==> engine.m == old(engine.m)[key := value]
    {
      hide RBEngine.Holds, RBEngine.NodesOf, RBEngine.PicturesShape, RBShape.Valid, EagerItems, DeferredItems, Eager;
      hide PerformAll;
      if status != Active {
        return -1;
      }
      ghost var c := Mod(key, value);
      EagerAppend(start, calls, c);
      DeferredAppend(start, calls, c);
      RecordedOne(Eager(start, calls), c);
      calls := calls + [c];
      var found, v := engine.Get(key);
      if !found {
        return -1;
      }
      items := items + [Item(OpMod, key, value, Some(v))];
      if immediate {
        var st := engine.Modify(key, value);
      }
      return 0;
    }

    /** `txn_commit`: the store is as after the calls, made at once or deferred. */
    method Commit() returns (r: int)
      requires Valid()
      modifies this`status, engine.Repr()
      ensures Valid() && status == (if r == 0 then Committed else old(status))
      ensures r == if old(status) == Active then 0 else -1
      ensures engine.m == if r != 0 then old(engine.m) else if immediate then Eager(start, calls)
        else Deferred(start, calls)
    {
      hide RBEngine.Holds, RBEngine.NodesOf, RBEngine.PicturesShape, RBShape.Valid, EagerItems, DeferredItems, Eager;
      if status != Active {
        return -1;
      }
      if !immediate {
        var i := 0;
        assert items[..0] == [];
        while i < |items|
          invariant 0 <= i <= |items| && engine.Valid() && this !in engine.Repr() && status == Active
          invariant engine.m == PerformAll(start, items[..i])
          invariant forall o :: o in engine.Repr() && o !in old(engine.Repr()) ==> fresh(o)
        {
          assert items[..i + 1][..i] == items[..i];
          var item := items[i];
          match item.kind {
            case OpSet => engine.Set(item.key, item.value);
            case OpDel => var st := engine.Delete(item.key);
            case OpMod => var st := engine.Modify(item.key, item.value);
          }
          i := i + 1;
        }
        assert items[..i] == items;
      }
      status := Committed;
      return 0;
    }

    /** `txn_rollback`: the old keys with what modifications left of their values. */
    method Rollback() returns (r: int)
      requires Valid()
      modifies this`status, engine.Repr()
      ensures Valid() && status == (if r == 0 then Aborted else old(status))
      ensures r == if old(status) == Active then 0 else -1
      ensures r == 0 ==> engine.m == if immediate then Leftover(start, calls) else start
      ensures r == 0 && (forall c :: c in calls ==> !c.Mod?) ==> engine.m == start
      ensures r != 0 ==> engine.m == old(engine.m)
    {
      hide RBEngine.Holds, RBEngine.NodesOf, RBEngine.PicturesShape, RBShape.Valid, EagerItems, DeferredItems, Eager;
      hide Leftover, PerformAll;
      if status != Active {
        return -1;
      }
      if immediate {
        var idx := |items| - 1;
        assert items[..|items|] == items;
        while idx >= 0
          invariant -1 <= idx < |items| && engine.Valid() && this !in engine.Repr() && status == Active
          invariant UndoAll(engine.m, items[..idx + 1]) == UndoAll(Eager(start, calls), EagerItems(start, calls))
          invariant forall o :: o in engine.Repr() && o !in old(engine.Repr()) ==> fresh(o)
        {
          assert items[..idx + 1][..idx] == items[..idx];
          var item := items[idx];
          match item.kind {
            case OpSet =>
              if item.was.Some? {
                engine.Set(item.key, item.was.value);
              } else {
                var st := engine.Delete(item.key);
              }
            case OpDel =>
              if item.was.Some? {
                engine.Set(item.key, item.was.value);
              }
            case OpMod =>
              if item.was.Some? {
                engine.Set(item.key, item.was.value);
              }
          }
          idx := idx - 1;
        }
        RollbackLeaves(start, calls);
        if forall c :: c in calls ==> !c.Mod? { RollbackRestores(start, calls); }
      }
      status := Aborted;
      return 0;
    }
  }
}
