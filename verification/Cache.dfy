/** The least-recently-used cache as a list of items, the most recently touched first. */
module LruSpec {
  import opened Bytes
  import opened Options
  import opened Words

  const MAX_KEY := 1024
  const MAX_VALUE := 1024 * 1024

  /** `touched` numbers the touches of all entries, in order. */
  datatype Item = Item(key: Bytes, value: Bytes, created: nat, ttl: nat, touched: nat)

  ghost predicate Expired(it: Item, now: nat) {
    it.ttl != 0 && now > (it.created + it.ttl) % WORD64
  }

  ghost predicate DistinctKeys(items: seq<Item>) {
    forall i, j :: 0 <= i < j < |items| ==> items[i].key != items[j].key
  }

  /** In order of the last touch, and touched before `clock`. */
  ghost predicate Recent(items: seq<Item>, clock: nat) {
    && (forall i, j :: 0 <= i < j < |items| ==> items[i].touched > items[j].touched)
    && forall i :: 0 <= i < |items| ==> items[i].touched < clock
  }

  ghost function IndexOf(items: seq<Item>, key: Bytes): (i: int)
    ensures -1 <= i < |items| && (i >= 0 ==> items[i].key == key)
    ensures i < 0 ==> forall j :: 0 <= j < |items| ==> items[j].key != key
  {
    if items == [] then -1
    else if items[|items| - 1].key == key then |items| - 1
    else IndexOf(items[..|items| - 1], key)
  }

  ghost function Without<T>(xs: seq<T>, i: nat): seq<T>
    requires i < |xs|
  {
    xs[..i] + xs[i + 1..]
  }

  /** Makes room: drops the `k` items at the end when `max` is reached; `max` 0 means no limit. */
  ghost function Evicted(items: seq<Item>, max: nat, k: nat): (r: seq<Item>)
    ensures r <= items
  {
    if max > 0 && |items| >= max then items[..if k <= |items| then |items| - k else 0] else items
  }

  ghost function SetItems(items: seq<Item>, key: Bytes, value: Bytes, ttl: nat, now: nat, clock: nat, max: nat,
    k: nat): seq<Item> {
    var kept := Evicted(items, max, k);
    var i := IndexOf(kept, key);
    if i >= 0 then [kept[i].(value := value, ttl := ttl, touched := clock)] + Without(kept, i)
    else [Item(key, value, now, ttl, clock)] + kept
  }

  ghost function GetItems(items: seq<Item>, key: Bytes, now: nat, clock: nat): seq<Item> {
    var i := IndexOf(items, key);
    if i >= 0 && !Expired(items[i], now) then [items[i].(touched := clock)] + Without(items, i) else items
  }

  /** What a get returns. */
  ghost function GetResult(items: seq<Item>, key: Bytes, now: nat): Option<Bytes> {
    var i := IndexOf(items, key);
    if i >= 0 && !Expired(items[i], now) then Some(items[i].value) else None
  }

  ghost function DeleteItems(items: seq<Item>, key: Bytes): seq<Item> {
    var i := IndexOf(items, key);
    if i >= 0 then Without(items, i) else items
  }

  ghost function LiveItems(items: seq<Item>, now: nat): (r: seq<Item>)
    ensures |r| <= |items| && forall x :: x in r <==> x in items && !Expired(x, now)
  {
    if items == [] then []
    else
      var rest, last := LiveItems(items[..|items| - 1], now), items[|items| - 1];
      if Expired(last, now) then rest else rest + [last]
  }

  // ----- what the operations keep

  ghost predicate Good(items: seq<Item>, clock: nat) {
    DistinctKeys(items) && Recent(items, clock)
  }

  lemma WithoutGood(items: seq<Item>, i: nat, clock: nat)
    requires Good(items, clock) && i < |items|
    ensures Good(Without(items, i), clock) && |Without(items, i)| == |items| - 1
    ensures forall j :: 0 <= j < |items| - 1 ==> Without(items, i)[j].key != items[i].key
  {}

  lemma FrontGood(items: seq<Item>, it: Item, clock: nat)
    requires Good(items, clock) && it.touched == clock && forall j :: 0 <= j < |items| ==> items[j].key != it.key
    ensures Good([it] + items, clock + 1)
  {}

  lemma SetGood(items: seq<Item>, key: Bytes, value: Bytes, ttl: nat, now: nat, clock: nat, max: nat, k: nat)
    requires Good(items, clock)
    ensures Good(SetItems(items, key, value, ttl, now, clock, max, k), clock + 1)
  {
    var kept := Evicted(items, max, k);
    var i := IndexOf(kept, key);
    if i >= 0 {
      WithoutGood(kept, i, clock);
      FrontGood(Without(kept, i), kept[i].(value := value, ttl := ttl, touched := clock), clock);
    } else {
      FrontGood(kept, Item(key, value, now, ttl, clock), clock);
    }
  }

  lemma GetGood(items: seq<Item>, key: Bytes, now: nat, clock: nat)
    requires Good(items, clock)
    ensures Good(GetItems(items, key, now, clock), clock + 1) && |GetItems(items, key, now, clock)| == |items|
  {
    var i := IndexOf(items, key);
    if i >= 0 && !Expired(items[i], now) {
      WithoutGood(items, i, clock);
      FrontGood(Without(items, i), items[i].(touched := clock), clock);
    }
  }

  lemma DeleteGood(items: seq<Item>, key: Bytes, clock: nat)
    requires Good(items, clock)
    ensures Good(DeleteItems(items, key), clock) && |DeleteItems(items, key)| <= |items|
    ensures IndexOf(DeleteItems(items, key), key) < 0
  {
    var i := IndexOf(items, key);
    if i >= 0 { WithoutGood(items, i, clock); }
  }

  lemma LiveStep(items: seq<Item>, now: nat)
    requires items != []
    ensures var before, last := items[..|items| - 1], items[|items| - 1];
      LiveItems(items, now) == if Expired(last, now) then LiveItems(before, now) else LiveItems(before, now) + [last]
  {}

  lemma {:induction false} LiveGood(items: seq<Item>, now: nat, clock: nat)
    requires Good(items, clock)
    ensures Good(LiveItems(items, now), clock)
    decreases |items|
  {
    hide LiveItems, Expired;
    if items == [] {
      NoneLive(now);
    } else {
      var before, last := items[..|items| - 1], items[|items| - 1];
      LiveStep(items, now);
      LiveGood(before, now, clock);
      LiveAmong(items, now);
      BackGood(LiveItems(before, now), last, clock);
    }
  }

  lemma NoneLive(now: nat)
    ensures LiveItems([], now) == []
  {}

  lemma LiveAmong(items: seq<Item>, now: nat)
    requires items != [] && DistinctKeys(items)
    requires forall i, j :: 0 <= i < j < |items| ==> items[i].touched > items[j].touched
    ensures var live, last := LiveItems(items[..|items| - 1], now), items[|items| - 1];
      forall j :: 0 <= j < |live| ==> live[j].touched > last.touched && live[j].key != last.key
  {
    hide Expired;
    var before, last := items[..|items| - 1], items[|items| - 1];
    var live := LiveItems(before, now);
    forall j | 0 <= j < |live| ensures live[j].touched > last.touched && live[j].key != last.key {
      assert live[j] in before;
    }
  }

  lemma BackGood(items: seq<Item>, it: Item, clock: nat)
    requires Good(items, clock) && it.touched < clock
    requires forall j :: 0 <= j < |items| ==> items[j].touched > it.touched && items[j].key != it.key
    ensures Good(items + [it], clock)
  {}

  /** A set drops exactly the items touched longest ago. */
  lemma EvictsOldest(items: seq<Item>, clock: nat, max: nat, k: nat, gone: Item, stays: Item)
    requires Recent(items, clock) && gone in items && gone !in Evicted(items, max, k) && stays in Evicted(items, max, k)
    ensures gone.touched < stays.touched && max > 0 && |items| >= max
    ensures |items| - |Evicted(items, max, k)| == if k <= |items| then k else |items|
  {
    var kept := Evicted(items, max, k);
    var i :| 0 <= i < |items| && items[i] == gone;
    var j :| 0 <= j < |kept| && kept[j] == stays;
    assert items[j] == stays;
    assert forall n :: 0 <= n < |kept| ==> kept[n] == items[n] && kept[n] in kept;
  }

  /** A set keeps within a positive limit exactly if it drops something when full, or meets its key again. */
  lemma SetBoundedIff(items: seq<Item>, key: Bytes, value: Bytes, ttl: nat, now: nat, clock: nat, max: nat, k: nat)
    requires max > 0 && |items| <= max
    ensures |SetItems(items, key, value, ttl, now, clock, max, k)| <= max <==>
      k >= 1 || |items| < max || IndexOf(items, key) >= 0
  {
    assert k == 0 ==> Evicted(items, max, k) == items;
  }

  /** A get that finds its key puts it first, and keeps the others as they are. */
  lemma GetComesFirst(items: seq<Item>, key: Bytes, now: nat, clock: nat)
    ensures var r := GetItems(items, key, now, clock);
      match GetResult(items, key, now)
      case Some(v) => |r| > 0 && r[0].key == key && r[0].value == v && r[0].touched == clock
      case None => r == items
  {}

  /** A delete takes out exactly the items of its key. */
  lemma DeleteIs(items: seq<Item>, key: Bytes, clock: nat)
    requires Good(items, clock)
    ensures forall it :: it in DeleteItems(items, key) <==> it in items && it.key != key
  {
    hide Without;
    var i := IndexOf(items, key);
    forall it ensures it in DeleteItems(items, key) <==> it in items && it.key != key {
      if i >= 0 {
        if it in items && it.key != key { WithoutHas(items, i, it); }
        if it in Without(items, i) {
          WithoutIn(items, i, it);
          NotAgain(items, i, it, clock);
        }
      }
    }
  }

  lemma NotAgain(items: seq<Item>, i: nat, it: Item, clock: nat)
    requires Good(items, clock) && i < |items| && it in Without(items, i)
    ensures it.key != items[i].key
  {
    var j :| 0 <= j < |Without(items, i)| && Without(items, i)[j] == it;
    assert it == items[if j < i then j else j + 1];
  }

  /** A set keeps every item of another key. */
  ghost predicate KeepsOthers(items: seq<Item>, key: Bytes, r: seq<Item>) {
    forall it :: it in items && it.key != key ==> it in r
  }

  lemma WithoutHas<T>(xs: seq<T>, i: nat, x: T)
    requires i < |xs| && x in xs && x != xs[i]
    ensures x in Without(xs, i)
  {
    var j :| 0 <= j < |xs| && xs[j] == x;
    assert Without(xs, i)[if j < i then j else j - 1] == x;
  }

  lemma WithoutIn<T>(xs: seq<T>, i: nat, x: T)
    requires i < |xs| && x in Without(xs, i)
    ensures x in xs
  {
    var j :| 0 <= j < |Without(xs, i)| && Without(xs, i)[j] == x;
    assert x == xs[if j < i then j else j + 1];
  }

  /** Of other keys, a set leaves exactly what the eviction leaves. */
  lemma OthersAreKept(
    items: seq<Item>, key: Bytes, value: Bytes, ttl: nat, now: nat, clock: nat, max: nat, k: nat, it: Item)
    requires it.key != key
    ensures it in SetItems(items, key, value, ttl, now, clock, max, k) <==> it in Evicted(items, max, k)
  {
    hide Without, Evicted;
    var kept := Evicted(items, max, k);
    var i := IndexOf(kept, key);
    if i >= 0 {
      if it in kept { WithoutHas(kept, i, it); }
      if it in Without(kept, i) { WithoutIn(kept, i, it); }
    }
  }

  /** The cache is not full, or the eviction drops nothing or at most the entry of the key itself. */
  ghost predicate CostsNothing(items: seq<Item>, key: Bytes, max: nat, k: nat) {
    || max == 0 || |items| < max || k == 0
    || ((k == 1 || |items| == 1) && items[|items| - 1].key == key)
  }

  /**
    A set of a present key needs no room. It costs no other entry exactly if `CostsNothing` holds before.
   */
  lemma PresentKeyCostsNothingIff(
    items: seq<Item>, key: Bytes, value: Bytes, ttl: nat, now: nat, clock: nat, max: nat, k: nat)
    requires Good(items, clock) && IndexOf(items, key) >= 0
    ensures KeepsOthers(items, key, SetItems(items, key, value, ttl, now, clock, max, k)) <==>
      CostsNothing(items, key, max, k)
  {
    hide SetItems;
    var kept, r := Evicted(items, max, k), SetItems(items, key, value, ttl, now, clock, max, k);
    forall it | it in items && it.key != key ensures it in r <==> it in kept {
      OthersAreKept(items, key, value, ttl, now, clock, max, k, it);
    }
    if max > 0 && |items| >= max && k > 0 {
      DroppedOnes(items, key, clock, max, k);
    }
  }

  lemma DroppedOnes(items: seq<Item>, key: Bytes, clock: nat, max: nat, k: nat)
    requires Good(items, clock) && IndexOf(items, key) >= 0 && max > 0 && |items| >= max && k > 0
    ensures KeepsOthers(items, key, Evicted(items, max, k)) <==>
      (k == 1 || |items| == 1) && items[|items| - 1].key == key
  {
    var kept, n := Evicted(items, max, k), |items|;
    forall i | |kept| <= i < n ensures items[i] !in kept {
      assert forall j :: 0 <= j < |kept| ==> kept[j] == items[j];
    }
    assert items[n - 1] in items && items[n - 1] !in kept;
    if k > 1 && n > 1 {
      assert items[n - 2] in items && items[n - 2] !in kept && items[n - 2].key != items[n - 1].key;
    } else {
      forall it | it in items && it != items[n - 1] ensures it in kept {
        var i :| 0 <= i < n && items[i] == it;
        assert kept[i] == it;
      }
    }
  }

  /** When the entry that a set leaves was created: an entry that is there already keeps its time. */
  ghost function CreatedBy(items: seq<Item>, key: Bytes, now: nat, max: nat, k: nat): nat {
    var kept := Evicted(items, max, k);
    var i := IndexOf(kept, key);
    if i >= 0 then kept[i].created else now
  }

  lemma SetComesFirst(items: seq<Item>, key: Bytes, value: Bytes, ttl: nat, now: nat, clock: nat, max: nat, k: nat)
    ensures var r := SetItems(items, key, value, ttl, now, clock, max, k);
      |r| > 0 && r[0] == Item(key, value, CreatedBy(items, key, now, max, k), ttl, clock)
  {
    hide Evicted;
  }

  /**
    A get at time `later` sees the value set exactly while the time to live has not run out, which is counted
    from the creation of the entry, not from the set: a get at the same time can miss the value.
   */
  lemma SetIsSeenIff(
    items: seq<Item>, key: Bytes, value: Bytes, ttl: nat, now: nat, clock: nat, max: nat, k: nat, later: nat)
    requires Good(items, clock)
    ensures var r := SetItems(items, key, value, ttl, now, clock, max, k);
      var seen := ttl == 0 || later <= (CreatedBy(items, key, now, max, k) + ttl) % WORD64;
      GetResult(r, key, later) == if seen then Some(value) else None
  {
    hide SetItems, CreatedBy;
    SetComesFirst(items, key, value, ttl, now, clock, max, k);
    SetGood(items, key, value, ttl, now, clock, max, k);
    FirstIs(SetItems(items, key, value, ttl, now, clock, max, k), clock + 1);
  }

  /** The first item is the one found under its key. */
  lemma FirstIs(items: seq<Item>, clock: nat)
    requires Good(items, clock) && |items| > 0
    ensures IndexOf(items, items[0].key) == 0
  {}

  /** An entry of time 0, set again at time 10 to live for 5: a get at time 10 misses the new value. */
  lemma SetIsMissed(key: Bytes, before: Bytes, value: Bytes)
    ensures var items := [Item(key, before, 0, 0, 0)];
      && Good(items, 1)
      && GetResult(items, key, 10) == Some(before)
      && GetResult(SetItems(items, key, value, 5, 10, 1, 0, 0), key, 10) == None
  {
    var items := [Item(key, before, 0, 0, 0)];
    assert Evicted(items, 0, 0) == items;
    FirstIs(items, 1);
    SetIsSeenIff(items, key, value, 5, 10, 1, 0, 0, 10);
  }

  // ----- runs

  datatype Op = Set(key: Bytes, value: Bytes, ttl: nat) | Get(key: Bytes) | Delete(key: Bytes) | Cleanup

  /** `latest` holds the value last set for every key ever set. */
  datatype Run = Run(items: seq<Item>, clock: nat, latest: map<Bytes, Bytes>)

  ghost predicate KeyFits(key: Bytes) {
    key != [] && |key| <= MAX_KEY
  }

  /** The call passes the checks of its parameters. */
  ghost predicate Accepted(op: Op) {
    match op
    case Set(key, value, _) => KeyFits(key) && value != [] && |value| <= MAX_VALUE
    case Get(key) => KeyFits(key)
    case Delete(key) => KeyFits(key)
    case Cleanup => true
  }

  ghost function Step(r: Run, op: Op, now: nat, max: nat, k: nat): Run {
    if !Accepted(op) then r
    else
      match op
      case Set(key, value, ttl) =>
        Run(SetItems(r.items, key, value, ttl, now, r.clock, max, k), r.clock + 1, r.latest[key := value])
      case Get(key) => r.(items := GetItems(r.items, key, now, r.clock), clock := r.clock + 1)
      case Delete(key) => r.(items := DeleteItems(r.items, key))
      case Cleanup => r.(items := LiveItems(r.items, now))
  }

  /** Each operation with the time at which it runs. */
  ghost function Steps(r: Run, ops: seq<(Op, nat)>, max: nat, k: nat): Run {
    if ops == [] then r else Step(Steps(r, ops[..|ops| - 1], max, k), ops[|ops| - 1].0, ops[|ops| - 1].1, max, k)
  }

  /** Every item holds the latest value of its key. */
  ghost predicate Fresh(items: seq<Item>, latest: map<Bytes, Bytes>) {
    forall i :: 0 <= i < |items| ==> items[i].key in latest && items[i].value == latest[items[i].key]
  }

  lemma StepGood(r: Run, op: Op, now: nat, max: nat, k: nat)
    requires Good(r.items, r.clock)
    ensures var s := Step(r, op, now, max, k); Good(s.items, s.clock)
  {
    match op
    case Set(key, value, ttl) => SetGood(r.items, key, value, ttl, now, r.clock, max, k);
    case Get(key) => GetGood(r.items, key, now, r.clock);
    case Delete(key) => DeleteGood(r.items, key, r.clock);
    case Cleanup => LiveGood(r.items, now, r.clock);
  }

  lemma WithoutFresh(items: seq<Item>, latest: map<Bytes, Bytes>, i: nat)
    requires Fresh(items, latest) && i < |items|
    ensures Fresh(Without(items, i), latest)
  {}

  /** A new value for a key that no item has. */
  lemma NewFresh(items: seq<Item>, latest: map<Bytes, Bytes>, it: Item)
    requires Fresh(items, latest) && forall j :: 0 <= j < |items| ==> items[j].key != it.key
    ensures Fresh([it] + items, latest[it.key := it.value])
  {}

  lemma SetFresh(items: seq<Item>, latest: map<Bytes, Bytes>, key: Bytes, value: Bytes, ttl: nat, now: nat, clock: nat,
    max: nat, k: nat)
    requires Fresh(items, latest) && Good(items, clock)
    ensures Fresh(SetItems(items, key, value, ttl, now, clock, max, k), latest[key := value])
  {
    var kept := Evicted(items, max, k);
    var i := IndexOf(kept, key);
    if i >= 0 {
      WithoutGood(kept, i, clock);
      WithoutFresh(kept, latest, i);
      NewFresh(Without(kept, i), latest, kept[i].(value := value, ttl := ttl, touched := clock));
    } else {
      NewFresh(kept, latest, Item(key, value, now, ttl, clock));
    }
  }

  lemma GetFresh(items: seq<Item>, latest: map<Bytes, Bytes>, key: Bytes, now: nat, clock: nat)
    requires Fresh(items, latest) && Good(items, clock)
    ensures Fresh(GetItems(items, key, now, clock), latest)
  {
    var i := IndexOf(items, key);
    if i >= 0 && !Expired(items[i], now) {
      WithoutGood(items, i, clock);
      WithoutFresh(items, latest, i);
      NewFresh(Without(items, i), latest, items[i].(touched := clock));
      assert latest[items[i].key := items[i].value] == latest;
    }
  }

  lemma LiveFresh(items: seq<Item>, latest: map<Bytes, Bytes>, now: nat)
    requires Fresh(items, latest)
    ensures Fresh(LiveItems(items, now), latest)
  {
    var live := LiveItems(items, now);
    forall j | 0 <= j < |live| ensures live[j].key in latest && live[j].value == latest[live[j].key] {
      assert live[j] in items;
    }
  }

  lemma StepFresh(r: Run, op: Op, now: nat, max: nat, k: nat)
    requires Fresh(r.items, r.latest) && Good(r.items, r.clock)
    ensures var s := Step(r, op, now, max, k); Fresh(s.items, s.latest)
  {
    hide Fresh, Good, SetItems, GetItems, LiveItems, Without;
    match op
    case Set(key, value, ttl) => SetFresh(r.items, r.latest, key, value, ttl, now, r.clock, max, k);
    case Get(key) => GetFresh(r.items, r.latest, key, now, r.clock);
    case Delete(key) =>
      var i := IndexOf(r.items, key);
      if i >= 0 { WithoutFresh(r.items, r.latest, i); }
    case Cleanup => LiveFresh(r.items, r.latest, now);
  }

  lemma StepBounded(r: Run, op: Op, now: nat, max: nat, k: nat)
    requires Good(r.items, r.clock) && max > 0 && k >= 1 && |r.items| <= max
    ensures |Step(r, op, now, max, k).items| <= max
  {
    match op
    case Set(key, value, ttl) => SetBoundedIff(r.items, key, value, ttl, now, r.clock, max, k);
    case Get(key) => GetGood(r.items, key, now, r.clock);
    case Delete(key) => DeleteGood(r.items, key, r.clock);
    case Cleanup =>
  }

  /** Whatever the run: last-touch order, no stale values, and never more items than allowed. */
  lemma {:induction false} RunIsGood(ops: seq<(Op, nat)>, max: nat, k: nat)
    requires max > 0 ==> k >= 1
    ensures var r := Steps(Run([], 0, map[]), ops, max, k);
      Good(r.items, r.clock) && Fresh(r.items, r.latest) && (max > 0 ==> |r.items| <= max)
    decreases |ops|
  {
    hide Good, Fresh, Step;
    if ops == [] {
      EmptyGood();
    } else {
      var before, last := ops[..|ops| - 1], ops[|ops| - 1];
      RunIsGood(before, max, k);
      var r := Steps(Run([], 0, map[]), before, max, k);
      StepGood(r, last.0, last.1, max, k);
      StepFresh(r, last.0, last.1, max, k);
      if max > 0 { StepBounded(r, last.0, last.1, max, k); }
    }
  }

  // ----- least recently used, told from the calls

  /** The operation sets the key, or gets it and finds it. */
  ghost predicate Uses(r: Run, op: Op, now: nat, key: Bytes) {
    && Accepted(op)
    && match op
       case Set(k, _, _) => k == key
       case Get(k) => k == key && GetResult(r.items, key, now).Some?
       case _ => false
  }

  /** The place of the last operation of a run that used the key, or -1. */
  ghost function LastUse(ops: seq<(Op, nat)>, max: nat, k: nat, key: Bytes): (i: int)
    ensures -1 <= i < |ops|
  {
    if ops == [] then -1
    else
      var before, last := ops[..|ops| - 1], ops[|ops| - 1];
      if Uses(Steps(Run([], 0, map[]), before, max, k), last.0, last.1, key) then |ops| - 1
      else LastUse(before, max, k, key)
  }

  ghost predicate OrderedByUse(items: seq<Item>, ops: seq<(Op, nat)>, max: nat, k: nat) {
    forall i, j {:trigger items[i], items[j]} :: 0 <= i < j < |items| ==>
      LastUse(ops, max, k, items[i].key) > LastUse(ops, max, k, items[j].key)
  }

  /**
    In every run the items stand in the order of their last use, so that an eviction drops those whose
    last set or successful get is longest ago.
   */
  lemma {:induction false} RunIsLeastRecentlyUsed(ops: seq<(Op, nat)>, max: nat, k: nat)
    ensures OrderedByUse(Steps(Run([], 0, map[]), ops, max, k).items, ops, max, k)
    decreases |ops|
  {
    if ops != [] {
      hide LastUse, Good, Fresh, Steps;
      var before, last := ops[..|ops| - 1], ops[|ops| - 1];
      RunIsLeastRecentlyUsed(before, max, k);
      RunStaysGood(before, max, k);
      StepsLast(ops, max, k);
      var r := Steps(Run([], 0, map[]), before, max, k);
      StepKeepsUse(r, ops, max, k);
    }
  }

  lemma {:induction false} RunStaysGood(ops: seq<(Op, nat)>, max: nat, k: nat)
    ensures var r := Steps(Run([], 0, map[]), ops, max, k); Good(r.items, r.clock)
    decreases |ops|
  {
    hide Good, Step;
    if ops == [] {
      EmptyGood();
    } else {
      var before, last := ops[..|ops| - 1], ops[|ops| - 1];
      RunStaysGood(before, max, k);
      StepGood(Steps(Run([], 0, map[]), before, max, k), last.0, last.1, max, k);
    }
  }

  lemma StepsLast(ops: seq<(Op, nat)>, max: nat, k: nat)
    requires ops != []
    ensures var before, last := ops[..|ops| - 1], ops[|ops| - 1];
      Steps(Run([], 0, map[]), ops, max, k) == Step(Steps(Run([], 0, map[]), before, max, k), last.0, last.1, max, k)
  {}

  lemma UseIs(r: Run, ops: seq<(Op, nat)>, max: nat, k: nat, key: Bytes)
    requires ops != [] && r == Steps(Run([], 0, map[]), ops[..|ops| - 1], max, k)
    ensures LastUse(ops, max, k, key) ==
      if Uses(r, ops[|ops| - 1].0, ops[|ops| - 1].1, key) then |ops| - 1 else LastUse(ops[..|ops| - 1], max, k, key)
    ensures LastUse(ops[..|ops| - 1], max, k, key) < |ops| - 1
  {}

  lemma StepKeepsUse(r: Run, ops: seq<(Op, nat)>, max: nat, k: nat)
    requires ops != [] && r == Steps(Run([], 0, map[]), ops[..|ops| - 1], max, k) && Good(r.items, r.clock)
    requires OrderedByUse(r.items, ops[..|ops| - 1], max, k)
    ensures OrderedByUse(Step(r, ops[|ops| - 1].0, ops[|ops| - 1].1, max, k).items, ops, max, k)
  {
    hide LastUse, Good, Steps, Without, LiveItems;
    var op, now := ops[|ops| - 1].0, ops[|ops| - 1].1;
    forall key
      ensures LastUse(ops, max, k, key) ==
        if Uses(r, op, now, key) then |ops| - 1 else LastUse(ops[..|ops| - 1], max, k, key)
      ensures LastUse(ops[..|ops| - 1], max, k, key) < |ops| - 1
    {
      UseIs(r, ops, max, k, key);
    }
    if Accepted(op) {
      match op
      case Set(key, value, ttl) =>
        var kept := Evicted(r.items, max, k);
        assert OrderedByUse(kept, ops[..|ops| - 1], max, k);
        var i := IndexOf(kept, key);
        if i >= 0 {
          GoodFront(r.items, |kept|, r.clock);
          FrontOrder(kept, i, kept[i].(value := value, ttl := ttl, touched := r.clock), r.clock, ops, max, k);
        }
      case Get(key) =>
        var i := IndexOf(r.items, key);
        if i >= 0 && !Expired(r.items[i], now) {
          FrontOrder(r.items, i, r.items[i].(touched := r.clock), r.clock, ops, max, k);
        }
      case Delete(key) =>
        var i := IndexOf(r.items, key);
        if i >= 0 { WithoutOrder(r.items, i, ops, max, k); }
      case Cleanup =>
        LiveOrder(r.items, now, ops, max, k);
    }
  }

  lemma GoodFront(items: seq<Item>, n: nat, clock: nat)
    requires Good(items, clock) && n <= |items|
    ensures Good(items[..n], clock)
  {}

  lemma WithoutOrder(items: seq<Item>, i: nat, ops: seq<(Op, nat)>, max: nat, k: nat)
    requires i < |items| && OrderedByUse(items, ops, max, k)
    ensures OrderedByUse(Without(items, i), ops, max, k)
  {
    hide LastUse;
    var rest := Without(items, i);
    forall a, b | 0 <= a < b < |rest|
      ensures LastUse(ops, max, k, rest[a].key) > LastUse(ops, max, k, rest[b].key)
    {
      assert rest[a] == items[if a < i then a else a + 1] && rest[b] == items[if b < i then b else b + 1];
    }
  }

  /** The item of the key just used, in front of the others. */
  lemma FrontOrder(
    items: seq<Item>, i: nat, it: Item, clock: nat, ops: seq<(Op, nat)>, max: nat, k: nat)
    requires i < |items| && Good(items, clock) && it.key == items[i].key && ops != []
    requires OrderedByUse(items, ops[..|ops| - 1], max, k)
    requires LastUse(ops, max, k, it.key) == |ops| - 1
    requires forall key :: key != it.key ==>
      LastUse(ops, max, k, key) == LastUse(ops[..|ops| - 1], max, k, key) < |ops| - 1
    ensures OrderedByUse([it] + Without(items, i), ops, max, k)
  {
    hide LastUse;
    var rest := Without(items, i);
    WithoutGood(items, i, clock);
    WithoutOrder(items, i, ops[..|ops| - 1], max, k);
    var all := [it] + rest;
    forall a, b | 0 <= a < b < |all|
      ensures LastUse(ops, max, k, all[a].key) > LastUse(ops, max, k, all[b].key)
    {
      assert all[b] == rest[b - 1] && rest[b - 1].key != it.key;
      assert a > 0 ==> all[a] == rest[a - 1] && rest[a - 1].key != it.key;
    }
  }

  lemma {:induction false} LiveOrder(items: seq<Item>, now: nat, ops: seq<(Op, nat)>, max: nat, k: nat)
    requires OrderedByUse(items, ops, max, k)
    ensures OrderedByUse(LiveItems(items, now), ops, max, k)
    decreases |items|
  {
    hide LastUse, Expired, LiveItems;
    if items == [] {
      NoneLive(now);
    } else {
      var before, last := items[..|items| - 1], items[|items| - 1];
      LiveStep(items, now);
      LiveOrder(before, now, ops, max, k);
      var live := LiveItems(before, now);
      forall i | 0 <= i < |live| ensures LastUse(ops, max, k, live[i].key) > LastUse(ops, max, k, last.key) {
        LiveIn(before, now, live[i]);
        var a :| 0 <= a < |before| && before[a] == live[i];
        assert items[a] == live[i];
      }
    }
  }

  lemma LiveIn(items: seq<Item>, now: nat, it: Item)
    requires it in LiveItems(items, now)
    ensures it in items
  {}

  /** The first operations of a run, then one more. */
  lemma StepsMore(r: Run, ops: seq<(Op, nat)>, i: nat, max: nat, k: nat)
    requires i < |ops|
    ensures Steps(r, ops[..i + 1], max, k) == Step(Steps(r, ops[..i], max, k), ops[i].0, ops[i].1, max, k)
  {
    assert ops[..i + 1][..i] == ops[..i];
  }

  lemma GoodLater(items: seq<Item>, clock: nat)
    requires Good(items, clock)
    ensures Good(items, clock + 1)
  {}

  lemma EmptyGood()
    ensures Good([], 0) && Fresh([], map[])
  {}
}
