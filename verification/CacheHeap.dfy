/** Cache entries, the doubly linked recency list and the bucket chains they hang on. */
module CacheHeap {
  import opened Bytes
  import opened LruSpec

  class CacheEntry {
    const key: Bytes
    /** The hash of the key, taken once under the default seed. */
    const hash: nat
    const created: nat
    var value: Bytes
    var ttl: nat
    ghost var touched: nat
    var prev: CacheEntry?
    var next: CacheEntry?
    var hashNext: CacheEntry?

    constructor (key: Bytes, hash: nat, value: Bytes, ttl: nat, now: nat, ghost clock: nat)
      ensures ItemOf(this) == Item(key, value, now, ttl, clock) && this.hash == hash
      ensures prev == null && next == null && hashNext == null
    {
      this.key, this.hash, this.created, this.value, this.ttl := key, hash, now, value, ttl;
      touched := clock;
      prev, next, hashNext := null, null, null;
    }
  }

  ghost function ItemOf(e: CacheEntry): Item
    reads e`value, e`ttl, e`touched
  {
    Item(e.key, e.value, e.created, e.ttl, e.touched)
  }

  ghost function EntrySet(es: seq<CacheEntry>): set<CacheEntry> {
    set e | e in es
  }

  ghost predicate Distinct(es: seq<CacheEntry>) {
    forall i, j :: 0 <= i < j < |es| ==> es[i] != es[j]
  }

  ghost function At(es: seq<CacheEntry>, i: int): CacheEntry? {
    if 0 <= i < |es| then es[i] else null
  }

  // ----- the recency list

  ghost predicate LinkOk(es: seq<CacheEntry>, i: nat)
    requires i < |es|
    reads EntrySet(es)`prev, EntrySet(es)`next
  {
    es[i].prev == At(es, i - 1) && es[i].next == At(es, i + 1)
  }

  ghost predicate Linked(es: seq<CacheEntry>)
    reads EntrySet(es)`prev, EntrySet(es)`next
  {
    Distinct(es) && forall i {:trigger LinkOk(es, i)} :: 0 <= i < |es| ==> LinkOk(es, i)
  }

  /** Takes an entry out of the links around it. */
  method Unlink(ghost es: seq<CacheEntry>, ghost i: nat, e: CacheEntry)
    requires Linked(es) && i < |es| && e == es[i]
    modifies EntrySet(es)`prev, EntrySet(es)`next
    ensures Linked(Without(es, i)) && e.prev == old(e.prev) && e.next == old(e.next)
  {
    assert LinkOk(es, i);
    if e.prev != null {
      e.prev.next := e.next;
    }
    if e.next != null {
      e.next.prev := e.prev;
    }
    ghost var rest := Without(es, i);
    forall j | 0 <= j < |rest| ensures LinkOk(rest, j) {
      assert old(LinkOk(es, if j < i then j else j + 1));
      NeighboursKept(es, i, j);
    }
  }

  lemma NeighboursKept(es: seq<CacheEntry>, i: nat, j: nat)
    requires i < |es| && j < |es| - 1
    ensures var rest := Without(es, i);
      && rest[j] == es[if j < i then j else j + 1]
      && At(rest, j - 1) == (if j == i then At(es, i - 1) else if j < i then At(es, j - 1) else At(es, j))
      && At(rest, j + 1) == (if j + 1 == i then At(es, i + 1) else if j < i then At(es, j + 1) else At(es, j + 2))
  {}

  /** Puts an entry in front of the list. */
  method LinkFront(ghost es: seq<CacheEntry>, e: CacheEntry, head: CacheEntry?)
    requires Linked(es) && e !in es && head == At(es, 0)
    modifies e`prev, e`next, EntrySet(es)`prev
    ensures Linked([e] + es)
  {
    e.prev := null;
    e.next := head;
    if head != null {
      head.prev := e;
    }
    ghost var all := [e] + es;
    forall j | 0 <= j < |all| ensures LinkOk(all, j) {
      if j > 0 {
        assert old(LinkOk(es, j - 1));
        assert all[j] == es[j - 1] && At(all, j + 1) == At(es, j);
        assert j > 1 ==> At(all, j - 1) == At(es, j - 2);
      } else {
        assert At(all, 1) == At(es, 0);
      }
    }
  }

  /** Takes an entry out of the links around it and puts it in front of the others. */
  method Relocate(ghost es: seq<CacheEntry>, ghost i: nat, e: CacheEntry, head: CacheEntry?)
    requires Linked(es) && Distinct(es) && 0 < i < |es| && e == es[i] && head == At(es, 0)
    modifies EntrySet(es)`prev, EntrySet(es)`next
    ensures Linked([e] + Without(es, i))
  {
    hide Linked, LinkOk, Without, Distinct;
    NotIn(es, i);
    EndsOf(es, i);
    Unlink(es, i, e);
    LinkFront(Without(es, i), e, head);
  }

  class RecencyList {
    var head: CacheEntry?
    var tail: CacheEntry?
    var size: int
    ghost var es: seq<CacheEntry>

    ghost predicate Valid()
      reads this, EntrySet(es)`prev, EntrySet(es)`next
    {
      Linked(es) && head == At(es, 0) && tail == At(es, |es| - 1) && size == |es|
    }

    constructor ()
      ensures Valid() && es == []
    {
      head, tail, size, es := null, null, 0, [];
    }

    /** `kv_cache_lru_list_add_to_head`. */
    method AddToHead(e: CacheEntry)
      requires Valid() && e !in es
      modifies this, e`prev, e`next, EntrySet(es)`prev
      ensures Valid() && es == [e] + old(es)
    {
      hide Linked;
      LinkFront(es, e, head);
      if head == null {
        tail := e;
      }
      head, size, es := e, size + 1, [e] + es;
    }

    /** `kv_cache_lru_list_remove_entry`. */
    method RemoveEntry(e: CacheEntry, ghost i: nat)
      requires Valid() && i < |es| && e == es[i]
      modifies this, EntrySet(es)`prev, EntrySet(es)`next
      ensures Valid() && es == Without(old(es), i)
    {
      LinksAt(es, i);
      hide Linked, LinkOk, Without, Distinct;
      Unlink(es, i, e);
      if e.prev == null {
        head := e.next;
      }
      if e.next == null {
        tail := e.prev;
      }
      NotIn(es, i);
      EndsOf(es, i);
      ghost var rest := Without(es, i);
      ClearLinks(rest, e);
      size, es := size - 1, rest;
    }

    /** `kv_cache_lru_list_remove_tail`. */
    method RemoveTail() returns (e: CacheEntry?)
      requires Valid()
      modifies this, EntrySet(es)`prev, EntrySet(es)`next
      ensures Valid() && (e == null <==> old(es) == [])
      ensures e == null ==> es == old(es)
      ensures e != null ==> e == old(es)[|old(es)| - 1] && es == old(es)[..|old(es)| - 1]
    {
      e := tail;
      if e == null {
        return;
      }
      ghost var n := |es| - 1;
      LinksAt(es, n);
      tail := e.prev;
      if tail != null {
        tail.next := null;
      } else {
        head := null;
      }
      e.prev, e.next := null, null;
      size, es := size - 1, es[..n];
      forall j | 0 <= j < |es| ensures LinkOk(es, j) {
        assert old(LinkOk(es, j));
      }
    }

    /** `kv_cache_lru_list_move_to_head`. */
    method MoveToHead(e: CacheEntry, ghost i: nat)
      requires Valid() && i < |es| && e == es[i]
      modifies this, EntrySet(es)`prev, EntrySet(es)`next
      ensures Valid() && es == [e] + Without(old(es), i)
    {
      LinksAt(es, i);
      hide Linked, Without, Distinct, LinkOk;
      FirstAt(es, i);
      if head == e {
        return;
      }
      NotIn(es, i);
      EndsOf(es, i);
      ghost var rest := Without(es, i);
      FrontEnds(rest, e);
      var last := if e.next == null then e.prev else tail;
      Relocate(es, i, e, head);
      head, tail, es := e, if last == null then e else last, [e] + rest;
    }
  }

  method ClearLinks(ghost rest: seq<CacheEntry>, e: CacheEntry)
    requires Linked(rest) && e !in rest
    modifies e`prev, e`next
    ensures Linked(rest)
  {
    e.prev, e.next := null, null;
    forall j | 0 <= j < |rest| ensures LinkOk(rest, j) {
      assert old(LinkOk(rest, j));
    }
  }

  lemma LinksAt(es: seq<CacheEntry>, i: nat)
    requires Linked(es) && i < |es|
    ensures es[i].prev == At(es, i - 1) && es[i].next == At(es, i + 1) && Distinct(es)
  {
    assert LinkOk(es, i);
  }

  lemma NotIn(es: seq<CacheEntry>, i: nat)
    requires Distinct(es) && i < |es|
    ensures es[i] !in Without(es, i) && EntrySet(Without(es, i)) == EntrySet(es) - {es[i]}
  {
    forall e | e in Without(es, i) ensures e in es && e != es[i] {
      var j :| 0 <= j < |Without(es, i)| && Without(es, i)[j] == e;
      assert e == es[if j < i then j else j + 1];
    }
    forall e | e in es && e != es[i] ensures e in Without(es, i) {
      var j :| 0 <= j < |es| && es[j] == e;
      assert Without(es, i)[if j < i then j else j - 1] == e;
    }
  }

  lemma FirstAt(es: seq<CacheEntry>, i: nat)
    requires Distinct(es) && i < |es|
    ensures At(es, 0) == es[i] <==> i == 0
    ensures i == 0 ==> [es[i]] + Without(es, i) == es
  {}

  lemma FrontEnds(es: seq<CacheEntry>, e: CacheEntry)
    ensures var all := [e] + es;
      |all| == |es| + 1 && At(all, 0) == e && At(all, |all| - 1) == (if es == [] then e else At(es, |es| - 1))
    ensures es == [] <==> At(es, |es| - 1) == null
  {}

  lemma EndsOf(es: seq<CacheEntry>, i: nat)
    requires i < |es|
    ensures var rest := Without(es, i);
      && |rest| == |es| - 1
      && At(rest, 0) == (if i == 0 then At(es, 1) else At(es, 0))
      && At(rest, |rest| - 1) == (if i == |es| - 1 then At(es, i - 1) else At(es, |es| - 1))
  {}

  // ----- the bucket chains

  ghost predicate NextOk(cs: seq<CacheEntry>, i: nat)
    requires i < |cs|
    reads EntrySet(cs)`hashNext
  {
    cs[i].hashNext == At(cs, i + 1)
  }

  ghost predicate ChainOk(cs: seq<CacheEntry>)
    reads EntrySet(cs)`hashNext
  {
    forall i {:trigger NextOk(cs, i)} :: 0 <= i < |cs| ==> NextOk(cs, i)
  }

  type Hash = Bytes -> nat

  /** The entries of a chain belong into bucket `b` and have different keys. */
  ghost predicate Placed(cs: seq<CacheEntry>, h: Hash, n: nat, b: nat)
    requires n > 0
  {
    && (forall i :: 0 <= i < |cs| ==> cs[i].hash == h(cs[i].key) && cs[i].hash % n == b)
    && forall i, j :: 0 <= i < j < |cs| ==> cs[i].key != cs[j].key
  }

  ghost predicate AllPlaced(chains: seq<seq<CacheEntry>>, h: Hash) {
    |chains| > 0 && forall b {:trigger chains[b]} :: 0 <= b < |chains| ==> Placed(chains[b], h, |chains|, b)
  }

  ghost function Members(chains: seq<seq<CacheEntry>>): set<CacheEntry> {
    set b: nat, i: nat | b < |chains| && i < |chains[b]| :: chains[b][i]
  }

  ghost predicate AllChained(chains: seq<seq<CacheEntry>>)
    reads Members(chains)`hashNext
  {
    forall b {:trigger chains[b]} :: 0 <= b < |chains| ==> ChainSound(chains, b)
  }

  ghost predicate ChainSound(chains: seq<seq<CacheEntry>>, b: nat)
    requires b < |chains|
    reads Members(chains)`hashNext
  {
    InMembers(chains, b);
    ChainOk(chains[b])
  }

  lemma InMembers(chains: seq<seq<CacheEntry>>, b: nat)
    requires b < |chains|
    ensures EntrySet(chains[b]) <= Members(chains)
  {
    forall e | e in chains[b] ensures e in Members(chains) {
      var i :| 0 <= i < |chains[b]| && chains[b][i] == e;
    }
  }

  ghost predicate HeadsOk(heads: seq<CacheEntry?>, chains: seq<seq<CacheEntry>>) {
    |heads| == |chains| && forall b :: 0 <= b < |chains| ==> heads[b] == At(chains[b], 0)
  }

  /** Entries of different chains are different. */
  lemma ChainsApart(chains: seq<seq<CacheEntry>>, h: Hash, b: nat, c: nat)
    requires AllPlaced(chains, h) && b < |chains| && c < |chains| && b != c
    ensures forall e :: e in chains[b] ==> e !in chains[c]
  {
    assert Placed(chains[b], h, |chains|, b) && Placed(chains[c], h, |chains|, c);
    assert forall e :: e in chains[b] ==> h(e.key) % |chains| == b;
    assert forall e :: e in chains[c] ==> h(e.key) % |chains| == c;
  }

  lemma MembersWithout(chains: seq<seq<CacheEntry>>, h: Hash, b: nat, i: nat)
    requires AllPlaced(chains, h) && b < |chains| && i < |chains[b]|
    ensures var chains' := chains[b := Without(chains[b], i)];
      AllPlaced(chains', h) && Members(chains') == Members(chains) - {chains[b][i]}
  {
    var cs, e := chains[b], chains[b][i];
    var chains' := chains[b := Without(cs, i)];
    assert Placed(cs, h, |chains|, b);
    PlacedWithout(cs, h, |chains|, b, i);
    forall x ensures x in Members(chains') <==> x in Members(chains) && x != e {
      WhereMember(chains, h, x);
      WhereMember(chains', h, x);
      NotIn(cs, i);
      assert x in Without(cs, i) <==> x in EntrySet(Without(cs, i));
    }
  }

  lemma PlacedWithout(cs: seq<CacheEntry>, h: Hash, n: nat, b: nat, i: nat)
    requires n > 0 && Placed(cs, h, n, b) && i < |cs|
    ensures Placed(Without(cs, i), h, n, b) && Distinct(cs)
  {}

  /** A member sits in the chain of its hash. */
  lemma WhereMember(chains: seq<seq<CacheEntry>>, h: Hash, x: CacheEntry)
    requires AllPlaced(chains, h)
    ensures x in Members(chains) <==> x in chains[h(x.key) % |chains|]
  {
    if x in Members(chains) {
      var b: nat, i: nat :| b < |chains| && i < |chains[b]| && chains[b][i] == x;
      assert Placed(chains[b], h, |chains|, b);
    }
    var b := h(x.key) % |chains|;
    InMembers(chains, b);
    assert x in chains[b] ==> x in EntrySet(chains[b]);
  }

  lemma MembersFront(chains: seq<seq<CacheEntry>>, h: Hash, e: CacheEntry)
    requires AllPlaced(chains, h) && e !in Members(chains) && e.hash == h(e.key)
    requires forall x :: x in chains[h(e.key) % |chains|] ==> x.key != e.key
    ensures var b := h(e.key) % |chains|;
      var chains' := chains[b := [e] + chains[b]];
      AllPlaced(chains', h) && Members(chains') == Members(chains) + {e}
  {
    var b := h(e.key) % |chains|;
    var chains' := chains[b := [e] + chains[b]];
    PlacedFront(chains[b], h, |chains|, b, e);
    forall x ensures x in Members(chains') <==> x in Members(chains) || x == e {
      WhereMember(chains, h, x);
      WhereMember(chains', h, x);
    }
  }

  lemma PlacedFront(cs: seq<CacheEntry>, h: Hash, n: nat, b: nat, e: CacheEntry)
    requires n > 0 && Placed(cs, h, n, b) && e.hash == h(e.key) && e.hash % n == b
    requires forall x :: x in cs ==> x.key != e.key
    ensures Placed([e] + cs, h, n, b)
  {}

  lemma ChainAt(chains: seq<seq<CacheEntry>>, h: Hash, b: nat)
    requires AllPlaced(chains, h) && AllChained(chains) && b < |chains|
    ensures ChainOk(chains[b]) && Placed(chains[b], h, |chains|, b)
  {
    assert ChainSound(chains, b);
  }

  ghost function Maybe(e: CacheEntry?): set<CacheEntry> {
    if e == null then {} else {e}
  }

  /** Unlinks the entry at `i` of a chain from the one before it, if any. */
  method Bypass(ghost cs: seq<CacheEntry>, ghost i: nat, prev: CacheEntry?, e: CacheEntry)
    requires ChainOk(cs) && Distinct(cs) && i < |cs| && e == cs[i] && prev == At(cs, i - 1)
    modifies Maybe(prev)`hashNext
    ensures ChainOk(Without(cs, i))
  {
    assert NextOk(cs, i);
    if prev != null {
      prev.hashNext := e.hashNext;
    }
    ghost var rest := Without(cs, i);
    forall j | 0 <= j < |rest| ensures NextOk(rest, j) {
      assert old(NextOk(cs, if j < i then j else j + 1));
      NeighboursKept(cs, i, j);
    }
  }

  /** Chains whose links nothing has touched are still in order. */
  lemma OthersKept(chains: seq<seq<CacheEntry>>, chains': seq<seq<CacheEntry>>, b: nat)
    requires |chains'| == |chains| && b < |chains| && ChainOk(chains'[b])
    requires forall c :: 0 <= c < |chains| && c != b ==> ChainOk(chains'[c])
    ensures AllChained(chains')
  {
    forall c | 0 <= c < |chains'| ensures ChainSound(chains', c) {
      assert c == b || ChainOk(chains'[c]);
    }
  }

  /**
    Entries are filed under the hash they carry, taken by `own`, the hash of the default seed; keys are
    looked up by `look`, the hash of the seed that the table was configured with.
   */
  class Table {
    const own: Hash
    const look: Hash
    const buckets: array<CacheEntry?>
    ghost var chains: seq<seq<CacheEntry>>

    /** The two hashes of a key are the same. */
    ghost predicate Agrees(key: Bytes) {
      own(key) == look(key)
    }

    ghost predicate Valid()
      reads this, buckets, Members(chains)`hashNext
    {
      AllPlaced(chains, own) && AllChained(chains) && HeadsOk(buckets[..], chains)
    }

    constructor (own: Hash, look: Hash, count: nat)
      ensures Valid() && Members(chains) == {} && fresh(buckets) && this.own == own && this.look == look
      ensures buckets.Length == if count < 64 then 64 else count
    {
      this.own, this.look := own, look;
      var n := if count < 64 then 64 else count;
      buckets := new CacheEntry?[n](_ => null);
      chains := seq(n, _ => []);
      new;
      forall b | 0 <= b < |chains| ensures ChainSound(chains, b) {
        assert chains[b] == [];
      }
    }

    /** `kv_cache_hashtable_find`: sees a member exactly if the two hashes of its key agree. */
    method Find(key: Bytes) returns (r: CacheEntry?)
      requires Valid()
      ensures r != null ==> r.key == key && r in Members(chains)
      ensures r != null <==> Agrees(key) && exists e :: e in Members(chains) && e.key == key
    {
      hide AllPlaced, AllChained, HeadsOk, Members;
      var hash := look(key);
      var b := Bucket(hash);
      ChainAt(chains, own, b);
      r := buckets[b];
      ghost var i := 0;
      while r != null
        invariant 0 <= i <= |chains[b]| && r == At(chains[b], i)
        invariant forall j :: 0 <= j < i ==> chains[b][j].key != key || chains[b][j].hash != hash
        decreases |chains[b]| - i
      {
        if r.hash == hash && r.key == key {
          WhereMember(chains, own, r);
          return;
        }
        assert NextOk(chains[b], i);
        r := r.hashNext;
        i := i + 1;
      }
      forall e | e in Members(chains) && Agrees(key) ensures e.key != key {
        WhereMember(chains, own, e);
      }
    }

    method Bucket(hash: nat) returns (b: nat)
      requires Valid()
      ensures Valid()
      ensures b < buckets.Length == |chains| && b == hash % |chains| && buckets[b] == At(chains[b], 0)
    {
      b := hash % buckets.Length;
      assert buckets[..][b] == At(chains[b], 0);
    }

    /** Takes the entry at place `i` out of chain `b`. */
    method RemoveAt(b: nat, ghost i: nat, prev: CacheEntry?, e: CacheEntry)
      requires Valid() && b < buckets.Length == |chains| && i < |chains[b]| && e == chains[b][i]
      requires prev == At(chains[b], i - 1)
      modifies this`chains, buckets, Members(chains)`hashNext
      ensures Valid() && chains == old(chains)[b := Without(old(chains)[b], i)]
      ensures Members(chains) == old(Members(chains)) - {e}
    {
      hide HeadsOk, Members, Without;
      ghost var was := chains;
      ghost var now := was[b := Without(was[b], i)];
      ChainAt(was, own, b);
      MembersWithout(was, own, b, i);
      PlacedWithout(was[b], own, |was|, b, i);
      InMembers(was, b);
      assert NextOk(was[b], i);
      if prev == null {
        HeadWithout(buckets[..], was, b, i, e.hashNext);
      } else {
        HeadStays(buckets[..], was, b, i);
      }
      ghost var heads := buckets[..];
      OthersStay(was, own, b);
      Bypass(was[b], i, prev, e);
      if prev == null {
        buckets[b] := e.hashNext;
        assert buckets[..] == heads[b := e.hashNext];
      }
      chains := now;
      OthersKept(was, now, b);
    }

    /** `kv_cache_hashtable_remove`: takes a member out exactly if the two hashes of its key agree. */
    method Remove(key: Bytes) returns (removed: CacheEntry?)
      requires Valid()
      modifies this`chains, buckets, Members(chains)`hashNext
      ensures Valid() && (removed != null ==> removed in old(Members(chains)) && removed.key == key)
      ensures removed != null <==> Agrees(key) && exists e :: e in old(Members(chains)) && e.key == key
      ensures Members(chains) == if removed != null then old(Members(chains)) - {removed} else old(Members(chains))
    {
      hide Members;
      var hash := look(key);
      var b := Bucket(hash);
      ChainAt(chains, own, b);
      var prev: CacheEntry? := null;
      var e := buckets[b];
      ghost var i := 0;
      while e != null
        invariant Valid() && chains == old(chains) && buckets.Length == |chains|
        invariant 0 <= i <= |chains[b]| && e == At(chains[b], i) && prev == At(chains[b], i - 1)
        invariant forall j :: 0 <= j < i ==> chains[b][j].key != key || chains[b][j].hash != hash
        decreases |chains[b]| - i
      {
        ChainAt(chains, own, b);
        if e.hash == hash && e.key == key {
          WhereMember(chains, own, e);
          RemoveAt(b, i, prev, e);
          e.hashNext := null;
          return e;
        }
        assert NextOk(chains[b], i);
        prev, e := e, e.hashNext;
        i := i + 1;
      }
      forall x | x in Members(chains) && Agrees(key) ensures x.key != key {
        WhereMember(chains, own, x);
      }
      return null;
    }

    /** `kv_cache_hashtable_insert`: refuses a key that is there already. */
    method Insert(e: CacheEntry) returns (ok: bool)
      requires Valid() && e !in Members(chains) && e.hash == own(e.key)
      modifies this`chains, buckets, e`hashNext
      ensures Valid() && ok == (forall x :: x in old(Members(chains)) ==> x.key != e.key)
      ensures Members(chains) == if ok then old(Members(chains)) + {e} else old(Members(chains))
    {
      hide AllPlaced, AllChained, HeadsOk, Members;
      var b := Bucket(e.hash);
      ChainAt(chains, own, b);
      var existing := buckets[b];
      ghost var i := 0;
      while existing != null
        invariant 0 <= i <= |chains[b]| && existing == At(chains[b], i)
        invariant forall j :: 0 <= j < i ==> chains[b][j].key != e.key
        decreases |chains[b]| - i
      {
        if existing.hash == e.hash && existing.key == e.key {
          WhereMember(chains, own, existing);
          return false;
        }
        assert NextOk(chains[b], i);
        existing := existing.hashNext;
        i := i + 1;
      }
      forall x | x in Members(chains) ensures x.key != e.key {
        WhereMember(chains, own, x);
      }
      Push(e);
      return true;
    }

    method Push(e: CacheEntry)
      requires Valid() && e !in Members(chains) && e.hash == own(e.key)
      requires forall x :: x in Members(chains) ==> x.key != e.key
      modifies this`chains, buckets, e`hashNext
      ensures Valid() && Members(chains) == old(Members(chains)) + {e}
    {
      hide HeadsOk, Members;
      var b := Bucket(e.hash);
      ghost var was := chains;
      ghost var now := was[b := [e] + was[b]];
      ChainAt(was, own, b);
      InMembers(was, b);
      assert forall x :: x in was[b] ==> x in EntrySet(was[b]);
      MembersFront(was, own, e);
      HeadFront(buckets[..], was, b, e);
      OthersStay(was, own, b);
      ghost var heads := buckets[..];
      PushFront(was[b], e, buckets[b]);
      buckets[b] := e;
      assert buckets[..] == heads[b := e];
      chains := now;
      OthersKept(was, now, b);
    }
  }

  method PushFront(ghost cs: seq<CacheEntry>, e: CacheEntry, head: CacheEntry?)
    requires ChainOk(cs) && e !in cs && head == At(cs, 0)
    modifies e`hashNext
    ensures ChainOk([e] + cs)
  {
    e.hashNext := head;
    ghost var all := [e] + cs;
    forall j | 0 <= j < |all| ensures NextOk(all, j) {
      assert At(all, j + 1) == At(cs, j);
      assert j > 0 ==> all[j] == cs[j - 1] && old(NextOk(cs, j - 1));
    }
  }

  /** The other chains are in order, and share no entry with chain `b`. */
  lemma OthersStay(chains: seq<seq<CacheEntry>>, h: Hash, b: nat)
    requires AllPlaced(chains, h) && AllChained(chains) && b < |chains|
    ensures forall c :: 0 <= c < |chains| && c != b ==>
      ChainOk(chains[c]) && EntrySet(chains[c]) !! EntrySet(chains[b]) && EntrySet(chains[c]) <= Members(chains)
  {
    forall c | 0 <= c < |chains| && c != b
      ensures ChainOk(chains[c]) && EntrySet(chains[c]) !! EntrySet(chains[b]) && EntrySet(chains[c]) <= Members(chains)
    {
      ChainAt(chains, h, c);
      ChainsApart(chains, h, b, c);
      InMembers(chains, c);
    }
  }

  lemma HeadWithout(heads: seq<CacheEntry?>, chains: seq<seq<CacheEntry>>, b: nat, i: nat, next: CacheEntry?)
    requires HeadsOk(heads, chains) && b < |chains| && i == 0 && i < |chains[b]| && next == At(chains[b], 1)
    ensures HeadsOk(heads[b := next], chains[b := Without(chains[b], i)])
  {
    assert At(Without(chains[b], 0), 0) == At(chains[b], 1);
  }

  lemma HeadStays(heads: seq<CacheEntry?>, chains: seq<seq<CacheEntry>>, b: nat, i: nat)
    requires HeadsOk(heads, chains) && b < |chains| && 0 < i < |chains[b]|
    ensures HeadsOk(heads, chains[b := Without(chains[b], i)])
  {
    assert At(Without(chains[b], i), 0) == At(chains[b], 0);
  }

  lemma HeadFront(heads: seq<CacheEntry?>, chains: seq<seq<CacheEntry>>, b: nat, e: CacheEntry)
    requires HeadsOk(heads, chains) && b < |chains|
    ensures HeadsOk(heads[b := e], chains[b := [e] + chains[b]])
  {}

  /** No other member has the key of a member. */
  lemma KeysApart(chains: seq<seq<CacheEntry>>, h: Hash, e: CacheEntry)
    requires AllPlaced(chains, h) && e in Members(chains)
    ensures forall x :: x in Members(chains) && x.key == e.key ==> x == e
  {
    forall x | x in Members(chains) && x.key == e.key ensures x == e {
      WhereMember(chains, h, x);
      WhereMember(chains, h, e);
      var b := h(e.key) % |chains|;
      assert Placed(chains[b], h, |chains|, b);
    }
  }
}
