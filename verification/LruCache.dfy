/** The cache under the LRU policy: a hash table and a recency list over the same entries. */
module LruCache {
  import opened Bytes
  import opened Options
  import opened Words
  import opened LruSpec
  import opened CacheHeap

  datatype Status = Success | InvalidParam | KeyTooLong | KeyNotFound | KeyExists

  ghost function Items(es: seq<CacheEntry>): (r: seq<Item>)
    reads EntrySet(es)`value, EntrySet(es)`ttl, EntrySet(es)`touched
    ensures |r| == |es| && forall i :: 0 <= i < |es| ==> r[i] == ItemOf(es[i])
  {
    if es == [] then [] else Items(es[..|es| - 1]) + [ItemOf(es[|es| - 1])]
  }

  lemma ItemsWithout(es: seq<CacheEntry>, i: nat)
    requires i < |es|
    ensures Items(Without(es, i)) == Without(Items(es), i)
  {
    hide Items, Without;
    var rest, items := Without(es, i), Items(es);
    WithoutSize(es, i);
    WithoutSize(items, i);
    forall j | 0 <= j < |rest| ensures Items(rest)[j] == Without(items, i)[j] {
      WithoutAt(es, i, j);
      WithoutAt(items, i, j);
    }
  }

  lemma WithoutSize<T>(xs: seq<T>, i: nat)
    requires i < |xs|
    ensures |Without(xs, i)| == |xs| - 1
  {}

  lemma WithoutAt<T>(xs: seq<T>, i: nat, j: nat)
    requires i < |xs| && j < |xs| - 1
    ensures |Without(xs, i)| == |xs| - 1 && Without(xs, i)[j] == xs[if j < i then j else j + 1]
  {}

  lemma WithoutInit<T>(xs: seq<T>, i: nat)
    requires i < |xs| - 1
    ensures var rest := Without(xs, i);
      |rest| == |xs| - 1 && rest[..|rest| - 1] == Without(xs[..|xs| - 1], i) && rest[|rest| - 1] == xs[|xs| - 1]
  {}

  lemma ItemsFront(es: seq<CacheEntry>, e: CacheEntry)
    ensures Items([e] + es) == [ItemOf(e)] + Items(es)
  {
    hide Items;
  }

  lemma ItemsPrefix(es: seq<CacheEntry>, n: nat)
    requires n <= |es|
    ensures Items(es[..n]) == Items(es)[..n]
  {
    hide Items;
  }

  /** With distinct keys, a key's place is the one where it is found. */
  lemma IndexIs(items: seq<Item>, i: nat)
    requires DistinctKeys(items) && i < |items|
    ensures IndexOf(items, items[i].key) == i
  {}

  /** An expired item more or less does not matter to what is live. */
  lemma {:induction false} LiveWithout(items: seq<Item>, i: nat, now: nat)
    requires i < |items| && Expired(items[i], now)
    ensures LiveItems(Without(items, i), now) == LiveItems(items, now)
    decreases |items|
  {
    hide Expired, LiveItems, Without;
    var last := |items| - 1;
    LiveStep(items, now);
    if i == last {
      WithoutLast(items);
    } else {
      LiveWithout(items[..last], i, now);
      WithoutInit(items, i);
      LiveStep(Without(items, i), now);
    }
  }

  lemma WithoutLast<T>(xs: seq<T>)
    requires xs != []
    ensures Without(xs, |xs| - 1) == xs[..|xs| - 1]
  {}

  lemma {:induction false} AllLive(items: seq<Item>, now: nat)
    requires forall i :: 0 <= i < |items| ==> !Expired(items[i], now)
    ensures LiveItems(items, now) == items
    decreases |items|
  {
    if items != [] { AllLive(items[..|items| - 1], now); }
  }

  class Cache {
    const table: Table
    const list: RecencyList
    const maxEntries: nat
    /** The configured fraction of `maxEntries`, rounded down. */
    const batch: nat
    const minBatch: nat
    var current: int
    ghost var clock: nat
    /** Entries that have been evicted and destroyed, while the table still holds them. */
    ghost var lost: set<CacheEntry>

    ghost function Repr(): set<object>
      reads this, list
    {
      {this, table, list, table.buckets} + EntrySet(list.es)
    }

    ghost function View(): seq<Item>
      reads this, list, EntrySet(list.es)
    {
      Items(list.es)
    }

    /** The table holds the listed entries and the lost ones, of which the two hashes of the key differ. */
    ghost predicate Linked()
      reads this, table, list, table.buckets, EntrySet(list.es), Members(table.chains)
    {
      && table.Valid() && list.Valid() && current == |list.es|
      && Members(table.chains) == EntrySet(list.es) + lost && lost !! EntrySet(list.es)
      && forall x :: x in lost ==> !table.Agrees(x.key)
    }

    /** Both structures hold the same entries, as many as are counted. */
    ghost predicate Sound()
      reads this, table, list, table.buckets, EntrySet(list.es), Members(table.chains)
    {
      table.Valid() && list.Valid() && Members(table.chains) == EntrySet(list.es) && current == |list.es| && lost == {}
    }

    ghost predicate Valid()
      reads this, table, list, table.buckets, EntrySet(list.es), Members(table.chains)
    {
      Sound() && Good(View(), clock)
    }

    ghost function EvictCount(): nat {
      if batch < minBatch then minBatch else batch
    }

    /** The hashes of all keys agree from place `n` of the list on. */
    ghost predicate AgreesFrom(items: seq<Item>, n: nat) {
      forall i :: n <= i < |items| ==> table.Agrees(items[i].key)
    }

    /** The entries that a set evicts from `items` have keys whose hashes agree. */
    ghost predicate DropsAgree(items: seq<Item>) {
      AgreesFrom(items, |Evicted(items, maxEntries, EvictCount())|)
    }

    constructor (own: Hash, look: Hash, buckets: nat, maxEntries: nat, batch: nat, minBatch: nat)
      ensures Valid() && View() == [] && clock == 0 && fresh(Repr()) && table.own == own && table.look == look
      ensures this.maxEntries == maxEntries && this.batch == batch && this.minBatch == minBatch
    {
      var t := new Table(own, look, buckets);
      var l := new RecencyList();
      table, list := t, l;
      this.maxEntries, this.batch, this.minBatch := maxEntries, batch, minBatch;
      current, clock, lost := 0, 0, {};
    }

    /**
      `kv_cache_evict_entries_by_policy` under LRU: drops entries from the end of the list. The table
      loses them too exactly if the two hashes of each of their keys agree.
     */
    method Evict(count: nat)
      requires Valid()
      modifies this`current, this`lost, table, list, table.buckets, EntrySet(list.es)
      ensures Linked() && Good(View(), clock) && EntrySet(list.es) + lost <= old(EntrySet(list.es))
      ensures var n := if count <= |old(View())| then |old(View())| - count else 0;
        View() == old(View())[..n] && (Valid() <==> AgreesFrom(old(View()), n))
    {
      hide Members, Items, Table.Valid, RecencyList.Valid, Table.Agrees, AgreesFrom, Good;
      LinkedIsSound(this);
      hide Cache.Linked, Cache.Sound;
      ghost var items, es := View(), list.es;
      assert es[..|es|] == es;
      AgreesNone(this, items);
      assert Good(items, clock) && Down(es, |es|);
      hide Cache.Down;
      var evicted := 0;
      while evicted < count
        invariant evicted <= count && evicted <= |es| && Down(es, |es| - evicted) && Items(es) == items
      {
        var done := EvictStep(es, |es| - evicted);
        if done {
          break;
        }
        evicted := evicted + 1;
      }
      DownIs(this, es, |es| - evicted);
      ItemsPrefix(es, |es| - evicted);
      GoodPrefix(items, |es| - evicted, clock);
    }

    /** Of the entries `es`, those from place `n` on have been evicted. */
    ghost predicate Down(es: seq<CacheEntry>, n: nat)
      reads this, table, list, table.buckets, EntrySet(list.es), Members(table.chains), EntrySet(es)
    {
      && Linked() && n <= |es| && list.es == es[..n] && EntrySet(list.es) + lost <= EntrySet(es)
      && (lost == {} <==> AgreesFrom(Items(es), n))
    }

    /** One round of the eviction. */
    method EvictStep(ghost es: seq<CacheEntry>, ghost n: nat) returns (done: bool)
      requires Down(es, n)
      modifies this`current, this`lost, table, list, table.buckets
      modifies EntrySet(es)`prev, EntrySet(es)`next, EntrySet(es)`hashNext
      ensures done == (n == 0) && Down(es, if done then n else n - 1) && Items(es) == old(Items(es))
    {
      hide Members, Items, Table.Valid, RecencyList.Valid, Table.Agrees, AgreesFrom, Cache.Linked;
      done := EvictOne();
      if !done {
        assert es[..n][..n - 1] == es[..n - 1];
        AgreesOneMore(this, Items(es), n - 1);
      }
    }

    /** Drops the last entry of the list, if there is one. */
    method EvictOne() returns (empty: bool)
      requires Linked()
      modifies this`current, this`lost, table, list, table.buckets
      modifies EntrySet(list.es)`prev, EntrySet(list.es)`next, (EntrySet(list.es) + lost)`hashNext
      ensures Linked() && empty == (old(list.es) == [])
      ensures list.es == if empty then old(list.es) else old(list.es)[..|old(list.es)| - 1]
      ensures lost ==
        if empty || table.Agrees(old(list.es)[|old(list.es)| - 1].key) then old(lost)
        else old(lost) + {old(list.es)[|old(list.es)| - 1]}
    {
      hide Members, Table.Valid, RecencyList.Valid, Table.Agrees;
      IsDistinct(list);
      var victim := list.RemoveTail();
      if victim == null {
        return true;
      }
      LastOut(old(list.es));
      OneKey(table, victim);
      var removed := table.Remove(victim.key);
      if removed == null {
        lost := lost + {victim};
      }
      current := current - 1;
      return false;
    }

    /** `kv_cache_get`: a listed key is seen exactly if its two hashes agree and it has not expired. */
    method Get(key: Bytes, now: nat) returns (st: Status, value: Bytes)
      requires Valid()
      modifies this, list, EntrySet(list.es)
      ensures Valid() && EntrySet(list.es) == old(EntrySet(list.es))
      ensures key == [] ==> st == InvalidParam
      ensures key != [] && |key| > 1024 ==> st == KeyTooLong
      ensures KeyFits(key) ==>
        if table.Agrees(key) then
          && View() == GetItems(old(View()), key, now, old(clock))
          && (match GetResult(old(View()), key, now)
              case Some(v) => st == Success && value == v
              case None => st == KeyNotFound)
        else st == KeyNotFound && View() == old(View())
      ensures !KeyFits(key) ==> View() == old(View())
      ensures clock == if KeyFits(key) then old(clock) + 1 else old(clock)
      ensures st == Success ==> |View()| > 0 && View()[0].key == key && View()[0].value == value
    {
      hide Members, Items, Table.Valid, RecencyList.Valid, Good, Without, GetItems, GetResult, IndexOf, Table.Agrees;
      value := [];
      if key == [] {
        return InvalidParam, value;
      }
      if |key| > MAX_KEY {
        return KeyTooLong, value;
      }
      GetComesFirst(View(), key, now, clock);
      st, value := Lookup(key, now);
    }

    /** The part of a get after the checks of its parameters. */
    method Lookup(key: Bytes, now: nat) returns (st: Status, value: Bytes)
      requires Valid()
      modifies this`clock, list, EntrySet(list.es)
      ensures Valid() && EntrySet(list.es) == old(EntrySet(list.es)) && clock == old(clock) + 1
      ensures !table.Agrees(key) ==> st == KeyNotFound && View() == old(View())
      ensures table.Agrees(key) ==>
        && View() == GetItems(old(View()), key, now, old(clock))
        && (match GetResult(old(View()), key, now)
            case Some(v) => st == Success && value == v
            case None => st == KeyNotFound)
    {
      hide Members, Items, Table.Valid, RecencyList.Valid, Good, Without, GetItems, GetResult, IndexOf, Table.Agrees;
      value := [];
      var e := table.Find(key);
      if e == null {
        ListedOrNot(list.es, key);
        Unseen(View(), key, now, clock);
        Tick();
        return KeyNotFound, value;
      }
      st, value := Serve(e, key, now);
    }

    /** The value of an entry that was found, unless it has expired. */
    method Serve(e: CacheEntry, ghost key: Bytes, now: nat) returns (st: Status, value: Bytes)
      requires Valid() && e in EntrySet(list.es) && e.key == key
      modifies this`clock, list, EntrySet(list.es)
      ensures Valid() && EntrySet(list.es) == old(EntrySet(list.es)) && clock == old(clock) + 1
      ensures View() == GetItems(old(View()), key, now, old(clock))
      ensures match GetResult(old(View()), key, now)
        case Some(v) => st == Success && value == v
        case None => st == KeyNotFound
    {
      hide Members, Items, Table.Valid, RecencyList.Valid, Good, Without, GetItems, GetResult, IndexOf, Table.Agrees;
      value := [];
      ghost var i := PlaceOf(list.es, e, clock);
      if e.ttl != 0 && now > (e.created + e.ttl) % WORD64 {
        Unseen(View(), key, now, clock);
        Tick();
        return KeyNotFound, value;
      }
      value := e.value;
      Seen(View(), key, now, clock);
      GetGood(View(), key, now, clock);
      Refresh(e, i, e.value, e.ttl);
      return Success, value;
    }

    /** A get that sees nothing. */
    ghost method Tick()
      requires Valid()
      modifies this`clock
      ensures Valid() && clock == old(clock) + 1 && View() == old(View())
    {
      hide Members, Items, Table.Valid, RecencyList.Valid, Good;
      GoodLater(View(), clock);
      clock := clock + 1;
    }

    /** Gives an entry a value and time to live, and moves it to the front. */
    method Refresh(e: CacheEntry, ghost i: nat, value: Bytes, ttl: nat)
      requires Linked() && i < |list.es| && e == list.es[i]
      modifies this`clock, list, EntrySet(list.es)
      ensures Linked() && EntrySet(list.es) == old(EntrySet(list.es)) && clock == old(clock) + 1
      ensures View() == [old(View())[i].(value := value, ttl := ttl, touched := old(clock))] + Without(old(View()), i)
    {
      hide Members, Items, Table.Valid, RecencyList.Valid, Without;
      ghost var es := list.es;
      IsDistinct(list);
      Touched(es, i);
      NotIn(es, i);
      ItemsWithout(es, i);
      ghost var rest := Items(Without(es, i));
      e.value, e.ttl := value, ttl;
      e.touched, clock := clock, clock + 1;
      list.MoveToHead(e, i);
      ItemsFront(Without(es, i), e);
      FrontSet(Without(es, i), e);
      WithoutSize(es, i);
    }

    /** `kv_cache_delete`. */
    method Delete(key: Bytes) returns (st: Status)
      requires Valid()
      modifies this, table, list, table.buckets, EntrySet(list.es)
      ensures Valid() && EntrySet(list.es) <= old(EntrySet(list.es)) && clock == old(clock)
      ensures st ==
        if key == [] then InvalidParam
        else if |key| > 1024 then KeyTooLong
        else if table.Agrees(key) && IndexOf(old(View()), key) >= 0 then Success
        else KeyNotFound
      ensures View() == if st == Success then DeleteItems(old(View()), key) else old(View())
      ensures st == Success ==> forall it :: it in View() <==> it in old(View()) && it.key != key
    {
      hide Members, Items, Table.Valid, RecencyList.Valid, Good, DeleteItems, IndexOf;
      if key == [] {
        return InvalidParam;
      }
      if |key| > MAX_KEY {
        return KeyTooLong;
      }
      DeleteIs(View(), key, clock);
      var e := table.Find(key);
      ListedOrNot(list.es, key);
      if e == null {
        return KeyNotFound;
      }
      Erase(e, key);
      return Success;
    }

    /** Takes the entry of a key out of both structures. */
    method Erase(e: CacheEntry, key: Bytes)
      requires Valid() && e in EntrySet(list.es) && e.key == key && table.Agrees(key)
      modifies this, table, list, table.buckets, EntrySet(list.es)
      ensures Valid() && EntrySet(list.es) <= old(EntrySet(list.es)) && clock == old(clock)
      ensures View() == DeleteItems(old(View()), key)
    {
      hide Members, Items, Table.Valid, RecencyList.Valid, Good, Without;
      ghost var i := PlaceOf(list.es, e, clock);
      DeleteGood(View(), key, clock);
      OneKey(table, e);
      var removed := table.Remove(key);
      Discard(e, i);
    }

    /** Takes an entry that has left the table out of the list. */
    method Discard(e: CacheEntry, ghost i: nat)
      requires table.Valid() && list.Valid() && current == |list.es| && i < |list.es| && e == list.es[i]
      requires Members(table.chains) == EntrySet(list.es) - {e} && lost == {}
      modifies this`current, list, EntrySet(list.es)`prev, EntrySet(list.es)`next
      ensures Sound() && list.es == Without(old(list.es), i) && EntrySet(list.es) == old(EntrySet(list.es)) - {e}
      ensures View() == Without(old(View()), i) && table.chains == old(table.chains) && table.Valid()
    {
      hide Members, Items, Table.Valid, RecencyList.Valid, Without;
      IsDistinct(list);
      NotIn(list.es, i);
      ItemsWithout(list.es, i);
      WithoutSize(list.es, i);
      list.RemoveEntry(e, i);
      current := current - 1;
    }

    /**
      `kv_cache_set`: makes room first, even for a key that is present. A present key whose hashes differ
      is not found, and then refused by the table as a key that exists.
     */
    method Set(key: Bytes, value: Bytes, ttl: nat, now: nat) returns (st: Status)
      requires Valid()
      modifies this, table, list, table.buckets, EntrySet(list.es)
      ensures Valid() <==> (Accepted(Op.Set(key, value, ttl)) ==> DropsAgree(old(View())))
      ensures forall o :: o in Repr() && o !in old(Repr()) ==> fresh(o)
      ensures !Accepted(Op.Set(key, value, ttl)) ==>
        && st == (if key == [] || value == [] then InvalidParam else KeyTooLong)
        && View() == old(View()) && clock == old(clock)
      ensures Accepted(Op.Set(key, value, ttl)) && DropsAgree(old(View())) ==>
        var kept := Evicted(old(View()), maxEntries, EvictCount());
        if IndexOf(kept, key) >= 0 && !table.Agrees(key) then st == KeyExists && View() == kept && clock == old(clock)
        else
          && st == Success && clock == old(clock) + 1
          && View() == SetItems(old(View()), key, value, ttl, now, old(clock), maxEntries, EvictCount())
      ensures st == Success && DropsAgree(old(View())) && IndexOf(old(View()), key) < 0 ==>
        var most := if batch < minBatch then minBatch else batch;
        current == 1 +
          if maxEntries == 0 || old(current) < maxEntries then old(current)
          else if most <= old(current) then old(current) - most
          else 0
      ensures st == Success && DropsAgree(old(View())) && IndexOf(old(View()), key) >= 0 ==>
        (KeepsOthers(old(View()), key, View()) <==> CostsNothing(old(View()), key, maxEntries, EvictCount()))
      ensures st == InvalidParam <==> key == [] || value == []
      ensures st == KeyTooLong <==> key != [] && value != [] && (|key| > 1024 || |value| > 1024 * 1024)
    {
      hide Members, Items, Table.Valid, RecencyList.Valid, Good, Without, AgreesFrom, Table.Agrees;
      hide KeepsOthers, CostsNothing, SetItems, IndexOf;
      if key == [] || value == [] {
        return InvalidParam;
      }
      if |key| > MAX_KEY || |value| > MAX_VALUE {
        return KeyTooLong;
      }
      SetGood(View(), key, value, ttl, now, clock, maxEntries, EvictCount());
      SetIs(View(), key, value, ttl, now, clock, maxEntries, EvictCount());
      if IndexOf(View(), key) >= 0 {
        PresentKeyCostsNothingIff(View(), key, value, ttl, now, clock, maxEntries, EvictCount());
      }
      MakeRoom();
      st := Store(key, value, ttl, now);
    }

    /** Evicts a batch when the cache is full. */
    method MakeRoom()
      requires Valid()
      modifies this`current, this`lost, table, list, table.buckets, EntrySet(list.es)
      ensures Linked() && Good(View(), clock) && EntrySet(list.es) + lost <= old(EntrySet(list.es))
      ensures Valid() <==> DropsAgree(old(View()))
      ensures View() == Evicted(old(View()), maxEntries, EvictCount())
    {
      hide Members, Items, Table.Valid, RecencyList.Valid, Good, Table.Agrees;
      if maxEntries > 0 && current >= maxEntries {
        var count := batch;
        if count < minBatch {
          count := minBatch;
        }
        Evict(count);
      }
    }

    /** Updates the entry of a key, or adds one. */
    method Store(key: Bytes, value: Bytes, ttl: nat, now: nat) returns (st: Status)
      requires Linked() && Good(View(), clock)
      modifies this, table, list, table.buckets, EntrySet(list.es), lost
      ensures Linked() && lost == old(lost) && forall o :: o in Repr() && o !in old(Repr()) ==> fresh(o)
      ensures st == Success || st == KeyExists
      ensures lost == {} ==>
        var i := IndexOf(old(View()), key);
        if i >= 0 && !table.Agrees(key) then st == KeyExists && View() == old(View()) && clock == old(clock)
        else
          && st == Success && clock == old(clock) + 1
          && View() ==
             if i >= 0 then
               [old(View())[i].(value := value, ttl := ttl, touched := old(clock))] + Without(old(View()), i)
             else [Item(key, value, now, ttl, old(clock))] + old(View())
    {
      hide Members, Items, Table.Valid, RecencyList.Valid, Good, Without, Table.Agrees;
      var e := table.Find(key);
      if e != null {
        ghost var i := PlaceOf(list.es, e, clock);
        Refresh(e, i, value, ttl);
        return Success;
      }
      ListedOrNot(list.es, key);
      var ok := AddNew(key, value, ttl, now);
      st := if ok then Success else KeyExists;
    }

    /** `kv_cache_cleanup_expired_entries`: the items that live on keep their order. */
    method Cleanup(now: nat) returns (count: nat)
      requires Valid()
      modifies this, table, list, table.buckets, EntrySet(list.es)
      ensures Valid() && EntrySet(list.es) <= old(EntrySet(list.es)) && clock == old(clock)
      ensures View() == LiveItems(old(View()), now) && count == |old(View())| - |View()|
    {
      hide Members, Items, Table.Valid, RecencyList.Valid, Good, LiveItems, Swept;
      count := 0;
      LiveGood(View(), now, clock);
      var n := table.buckets.Length;
      Shape(table);
      NoneSwept(table.chains, now);
      for b := 0 to n
        invariant Sound() && EntrySet(list.es) <= old(EntrySet(list.es)) && |table.chains| == n && clock == old(clock)
        invariant LiveItems(View(), now) == LiveItems(old(View()), now) && count == |old(View())| - |View()|
        invariant Swept(table.chains, b, now)
      {
        var more := SweepBucket(b, now);
        count := count + more;
      }
      AllSwept(this, now);
      AllLive(View(), now);
    }

    /** Drops the expired entries of one bucket. */
    method SweepBucket(b: nat, now: nat) returns (count: nat)
      requires Sound() && b < |table.chains| && Swept(table.chains, b, now)
      modifies this`current, table, list, table.buckets, EntrySet(list.es)`prev, EntrySet(list.es)`next,
        EntrySet(list.es)`hashNext
      ensures Sound() && EntrySet(list.es) <= old(EntrySet(list.es)) && |table.chains| == |old(table.chains)|
      ensures LiveItems(View(), now) == LiveItems(old(View()), now) && count == |old(View())| - |View()|
      ensures Swept(table.chains, b + 1, now)
    {
      hide Members, Items, Table.Valid, RecencyList.Valid, LiveItems, Swept, SweptTo;
      count := 0;
      var prev: CacheEntry?, entry: CacheEntry? := null, null;
      HeadAt(table, b);
      entry := table.buckets[b];
      ghost var i := 0;
      SweptNone(table.chains[b], now);
      while entry != null
        invariant Sound() && EntrySet(list.es) <= old(EntrySet(list.es)) && |table.chains| == |old(table.chains)|
        invariant LiveItems(View(), now) == LiveItems(old(View()), now) && count == |old(View())| - |View()|
        invariant i <= |table.chains[b]| && prev == At(table.chains[b], i - 1) && entry == At(table.chains[b], i)
        invariant Swept(table.chains, b, now) && SweptTo(table.chains[b], i, now)
        decreases |table.chains[b]| - i
      {
        NextAt(table, b, i);
        var next := entry.hashNext;
        if entry.ttl != 0 && now > (entry.created + entry.ttl) % WORD64 {
          ghost var was := table.chains;
          InMembers(was, b);
          DropExpired(b, i, prev, entry, now);
          SweptStays(was, table.chains, b, i, now);
          count := count + 1;
        } else {
          SweptOne(table.chains[b], i, now);
          prev := entry;
          i := i + 1;
        }
        entry := next;
      }
      SweptAll(table.chains, b, now);
    }

    /** Takes an expired entry out of both structures. */
    method DropExpired(b: nat, ghost i: nat, prev: CacheEntry?, e: CacheEntry, now: nat)
      requires Sound() && b < |table.chains| && i < |table.chains[b]| && e == table.chains[b][i]
      requires prev == At(table.chains[b], i - 1)
      requires Expired(ItemOf(e), now)
      modifies this`current, table, list, table.buckets, EntrySet(list.es)`prev, EntrySet(list.es)`next,
        EntrySet(list.es)`hashNext
      ensures Sound() && EntrySet(list.es) == old(EntrySet(list.es)) - {e}
      ensures table.chains == old(table.chains)[b := Without(old(table.chains)[b], i)]
      ensures LiveItems(View(), now) == LiveItems(old(View()), now) && |View()| == |old(View())| - 1
    {
      hide Members, Items, Table.Valid, RecencyList.Valid, LiveItems, Expired, Without;
      Shape(table);
      MemberAt(table.chains, b, i);
      ghost var k := ListedAt(list.es, e);
      LiveWithout(View(), k, now);
      WithoutSize(View(), k);
      table.RemoveAt(b, i, prev, e);
      Discard(e, k);
    }

    /** A new entry at the front, unless the table has its key. */
    method AddNew(key: Bytes, value: Bytes, ttl: nat, now: nat) returns (ok: bool)
      requires Linked()
      modifies this, table, list, table.buckets, EntrySet(list.es), lost
      ensures Linked() && lost == old(lost) && forall o :: o in Repr() && o !in old(Repr()) ==> fresh(o)
      ensures ok == forall x :: x in old(Members(table.chains)) ==> x.key != key
      ensures View() == if ok then [Item(key, value, now, ttl, old(clock))] + old(View()) else old(View())
      ensures clock == if ok then old(clock) + 1 else old(clock)
    {
      hide Members, Items, Table.Valid, RecencyList.Valid, Table.Agrees;
      var e := new CacheEntry(key, table.own(key), value, ttl, now, clock);
      ok := Admit(e);
    }

    /** Hangs an entry into both structures. */
    method Admit(e: CacheEntry) returns (ok: bool)
      requires Linked() && e !in Members(table.chains) && e.hash == table.own(e.key)
      modifies this, table, list, table.buckets, EntrySet(list.es)`prev, e`prev, e`next, e`hashNext
      ensures Linked() && lost == old(lost)
      ensures ok == forall x :: x in old(Members(table.chains)) ==> x.key != e.key
      ensures EntrySet(list.es) == if ok then old(EntrySet(list.es)) + {e} else old(EntrySet(list.es))
      ensures View() == if ok then [ItemOf(e)] + old(View()) else old(View())
      ensures clock == if ok then old(clock) + 1 else old(clock)
    {
      hide Members, Items, Table.Valid, RecencyList.Valid, ItemOf, Table.Agrees;
      ok := table.Insert(e);
      if ok {
        Enlist(e);
      }
    }

    /** Puts an entry that the table has taken in front of the list. */
    method Enlist(e: CacheEntry)
      requires list.Valid() && current == |list.es| && e !in EntrySet(list.es)
      modifies this`current, this`clock, list, EntrySet(list.es)`prev, e`prev, e`next
      ensures list.Valid() && current == |list.es| && clock == old(clock) + 1
      ensures EntrySet(list.es) == old(EntrySet(list.es)) + {e} && View() == [ItemOf(e)] + old(View())
    {
      hide Members, Items, Table.Valid, RecencyList.Valid, ItemOf;
      FrontSet(list.es, e);
      ItemsFront(list.es, e);
      list.AddToHead(e);
      current, clock := current + 1, clock + 1;
    }
  }

  lemma Seen(items: seq<Item>, key: Bytes, now: nat, clock: nat)
    requires IndexOf(items, key) >= 0 && !Expired(items[IndexOf(items, key)], now)
    ensures var i := IndexOf(items, key);
      && GetItems(items, key, now, clock) == [items[i].(touched := clock)] + Without(items, i)
      && GetResult(items, key, now) == Some(items[i].value)
  {}

  lemma Unseen(items: seq<Item>, key: Bytes, now: nat, clock: nat)
    ensures IndexOf(items, key) < 0 || Expired(items[IndexOf(items, key)], now) ==>
      GetItems(items, key, now, clock) == items && GetResult(items, key, now) == None
  {}

  lemma SetIs(items: seq<Item>, key: Bytes, value: Bytes, ttl: nat, now: nat, clock: nat, max: nat, k: nat)
    ensures var kept := Evicted(items, max, k);
      var i := IndexOf(kept, key);
      SetItems(items, key, value, ttl, now, clock, max, k) ==
        if i >= 0 then [kept[i].(value := value, ttl := ttl, touched := clock)] + Without(kept, i)
        else [Item(key, value, now, ttl, clock)] + kept
  {}

  lemma LinkedIsSound(c: Cache)
    ensures c.Sound() <==> c.Linked() && c.lost == {}
  {
    hide Members, Table.Valid, RecencyList.Valid;
  }

  lemma DownIs(c: Cache, es: seq<CacheEntry>, n: nat)
    requires c.Down(es, n)
    ensures c.Linked() && n <= |es| && c.list.es == es[..n] && EntrySet(c.list.es) + c.lost <= EntrySet(es)
    ensures c.Sound() <==> c.AgreesFrom(Items(es), n)
  {
    hide Members, Table.Valid, RecencyList.Valid;
    LinkedIsSound(c);
  }

  lemma AgreesNone(c: Cache, items: seq<Item>)
    ensures c.AgreesFrom(items, |items|)
  {}

  lemma AgreesOneMore(c: Cache, items: seq<Item>, n: nat)
    requires n < |items|
    ensures c.AgreesFrom(items, n) <==> c.AgreesFrom(items, n + 1) && c.table.Agrees(items[n].key)
  {}

  /** A key is listed exactly if some entry has it. */
  lemma ListedOrNot(es: seq<CacheEntry>, key: Bytes)
    ensures IndexOf(Items(es), key) >= 0 <==> exists e :: e in EntrySet(es) && e.key == key
  {
    var i := IndexOf(Items(es), key);
    if i >= 0 {
      assert es[i] in EntrySet(es);
    }
    if e :| e in EntrySet(es) && e.key == key {
      var j :| 0 <= j < |es| && es[j] == e;
      assert Items(es)[j].key == key;
    }
  }

  /** The first `b` chains hold no expired entry. */
  ghost predicate Swept(chains: seq<seq<CacheEntry>>, b: nat, now: nat)
    reads Members(chains)`value, Members(chains)`ttl, Members(chains)`touched
  {
    b <= |chains| && forall c :: 0 <= c < b ==> SweptChain(chains, c, now)
  }

  ghost predicate SweptChain(chains: seq<seq<CacheEntry>>, c: nat, now: nat)
    requires c < |chains|
    reads Members(chains)`value, Members(chains)`ttl, Members(chains)`touched
  {
    InMembers(chains, c);
    SweptTo(chains[c], |chains[c]|, now)
  }

  ghost predicate SweptTo(cs: seq<CacheEntry>, i: nat, now: nat)
    reads EntrySet(cs)`value, EntrySet(cs)`ttl, EntrySet(cs)`touched
  {
    i <= |cs| && forall j :: 0 <= j < i ==> !Expired(ItemOf(cs[j]), now)
  }

  lemma NoneSwept(chains: seq<seq<CacheEntry>>, now: nat)
    ensures Swept(chains, 0, now)
  {}

  lemma SweptNone(cs: seq<CacheEntry>, now: nat)
    ensures SweptTo(cs, 0, now)
  {}

  lemma SweptOne(cs: seq<CacheEntry>, i: nat, now: nat)
    requires SweptTo(cs, i, now) && i < |cs| && !Expired(ItemOf(cs[i]), now)
    ensures SweptTo(cs, i + 1, now)
  {}

  lemma SweptAll(chains: seq<seq<CacheEntry>>, b: nat, now: nat)
    requires b < |chains| && Swept(chains, b, now) && SweptTo(chains[b], |chains[b]|, now)
    ensures Swept(chains, b + 1, now)
  {
    forall c | 0 <= c < b + 1 ensures SweptChain(chains, c, now) {
      assert c < b ==> SweptChain(chains, c, now);
    }
  }

  /** Dropping an entry of chain `b` leaves what has been swept. */
  lemma SweptStays(chains: seq<seq<CacheEntry>>, chains': seq<seq<CacheEntry>>, b: nat, i: nat, now: nat)
    requires b < |chains| && i < |chains[b]| && chains' == chains[b := Without(chains[b], i)]
    requires Swept(chains, b, now) && SweptTo(chains[b], i, now)
    ensures Swept(chains', b, now) && SweptTo(chains'[b], i, now)
    ensures |chains'[b]| == |chains[b]| - 1 && At(chains'[b], i - 1) == At(chains[b], i - 1)
    ensures At(chains'[b], i) == At(chains[b], i + 1)
  {
    forall c | 0 <= c < b ensures SweptChain(chains', c, now) {
      assert SweptChain(chains, c, now);
    }
  }

  lemma AllSwept(cache: Cache, now: nat)
    requires cache.Sound() && Swept(cache.table.chains, |cache.table.chains|, now)
    ensures forall i :: 0 <= i < |cache.View()| ==> !Expired(cache.View()[i], now)
  {
    var chains, es := cache.table.chains, cache.list.es;
    forall i | 0 <= i < |es| ensures !Expired(ItemOf(es[i]), now) {
      assert es[i] in EntrySet(es);
      var b: nat, j: nat :| b < |chains| && j < |chains[b]| && chains[b][j] == es[i];
      assert SweptChain(chains, b, now);
    }
  }

  lemma Shape(table: Table)
    requires table.Valid()
    ensures |table.chains| == table.buckets.Length > 0
  {}

  lemma HeadAt(table: Table, b: nat)
    requires table.Valid() && b < |table.chains|
    ensures b < table.buckets.Length && table.buckets[b] == At(table.chains[b], 0)
  {
    assert table.buckets[..][b] == At(table.chains[b], 0);
  }

  lemma NextAt(table: Table, b: nat, i: nat)
    requires table.Valid() && b < |table.chains| && i < |table.chains[b]|
    ensures table.chains[b][i].hashNext == At(table.chains[b], i + 1)
  {
    ChainAt(table.chains, table.own, b);
    assert NextOk(table.chains[b], i);
  }

  lemma MemberAt(chains: seq<seq<CacheEntry>>, b: nat, i: nat)
    requires b < |chains| && i < |chains[b]|
    ensures chains[b][i] in Members(chains)
  {}

  lemma ListedAt(es: seq<CacheEntry>, e: CacheEntry) returns (k: nat)
    requires e in EntrySet(es)
    ensures k < |es| && es[k] == e
  {
    k :| 0 <= k < |es| && es[k] == e;
  }

  lemma OneKey(table: Table, e: CacheEntry)
    requires table.Valid() && e in Members(table.chains)
    ensures forall x :: x in Members(table.chains) && x.key == e.key ==> x == e
  {
    KeysApart(table.chains, table.own, e);
  }

  lemma IsDistinct(list: RecencyList)
    requires list.Valid()
    ensures Distinct(list.es)
  {}

  lemma GoodPrefix(items: seq<Item>, n: nat, clock: nat)
    requires Good(items, clock) && n <= |items|
    ensures Good(items[..n], clock)
  {}

  lemma LastOut(es: seq<CacheEntry>)
    requires Distinct(es) && es != []
    ensures EntrySet(es[..|es| - 1]) == EntrySet(es) - {es[|es| - 1]}
  {
    var n := |es| - 1;
    assert Without(es, n) == es[..n];
    NotIn(es, n);
  }

  /** Where an entry is listed, and that its key is found there. */
  lemma PlaceOf(es: seq<CacheEntry>, e: CacheEntry, clock: nat) returns (i: nat)
    requires e in EntrySet(es) && Good(Items(es), clock)
    ensures i < |es| && es[i] == e && IndexOf(Items(es), e.key) == i
  {
    i :| 0 <= i < |es| && es[i] == e;
    IndexIs(Items(es), i);
  }

  lemma NotListed(es: seq<CacheEntry>, key: Bytes)
    requires forall e :: e in EntrySet(es) ==> e.key != key
    ensures IndexOf(Items(es), key) < 0
  {
    assert forall i :: 0 <= i < |es| ==> es[i] in EntrySet(es);
  }

  lemma FrontSet(es: seq<CacheEntry>, e: CacheEntry)
    ensures EntrySet([e] + es) == EntrySet(es) + {e} && |[e] + es| == |es| + 1
  {}

  lemma Touched(es: seq<CacheEntry>, i: nat)
    requires i < |es|
    ensures es[i] in EntrySet(es)
  {}
}
