/** The table of buckets, which doubles when three quarters full. */
module HashTables {
  import opened Bytes
  import opened Buckets

  const INITIAL_CAPACITY := 1024

  ghost predicate Over(count: int, slots: int) {
    4 * count > 3 * slots
  }

  type Hash = Bytes -> nat

  /** The entries of `m` whose keys belong into bucket `i` of `slots`. */
  ghost function PartOf(h: Hash, slots: nat, m: map<Bytes, Bytes>, i: nat): map<Bytes, Bytes>
    requires slots > 0
  {
    map k | k in m && h(k) % slots == i :: m[k]
  }

  /** Every key sits once, in the bucket of its hash, and nowhere else. */
  ghost predicate Represents(bs: seq<Content>, h: Hash, m: map<Bytes, Bytes>) {
    |bs| > 0 && forall i {:trigger bs[i]} :: 0 <= i < |bs| ==> BucketOk(bs[i], PartOf(h, |bs|, m, i))
  }

  lemma PartPut(h: Hash, n: nat, m: map<Bytes, Bytes>, key: Bytes, value: Bytes, j: nat)
    requires n > 0
    ensures PartOf(h, n, m[key := value], j) == if j == h(key) % n then PartOf(h, n, m, j)[key := value]
      else PartOf(h, n, m, j)
  {}

  lemma PartDelete(h: Hash, n: nat, m: map<Bytes, Bytes>, key: Bytes, j: nat)
    requires n > 0
    ensures PartOf(h, n, m - {key}, j) == if j == h(key) % n then PartOf(h, n, m, j) - {key} else PartOf(h, n, m, j)
  {}

  lemma PutPart(bs: seq<Content>, h: Hash, m: map<Bytes, Bytes>, key: Bytes, value: Bytes, b: Content)
    requires Represents(bs, h, m) && BucketOk(b, PartOf(h, |bs|, m, h(key) % |bs|)[key := value])
    ensures Represents(bs[h(key) % |bs| := b], h, m[key := value])
  {
    hide BucketOk, PartOf;
    var n, i := |bs|, h(key) % |bs|;
    var bs', m' := bs[i := b], m[key := value];
    forall j | 0 <= j < n ensures BucketOk(bs'[j], PartOf(h, n, m', j)) {
      PartPut(h, n, m, key, value, j);
    }
  }

  lemma PutSize(m: map<Bytes, Bytes>, key: Bytes, value: Bytes)
    ensures |m[key := value]| == if key in m then |m| else |m| + 1
    ensures |m - {key}| == if key in m then |m| - 1 else |m|
  {
    assert m[key := value].Keys == m.Keys + {key};
    assert (m - {key}).Keys == m.Keys - {key};
  }

  lemma DeletePart(bs: seq<Content>, h: Hash, m: map<Bytes, Bytes>, key: Bytes, b: Content)
    requires Represents(bs, h, m) && BucketOk(b, PartOf(h, |bs|, m, h(key) % |bs|) - {key})
    ensures Represents(bs[h(key) % |bs| := b], h, m - {key})
  {
    hide BucketOk, PartOf;
    var n, i := |bs|, h(key) % |bs|;
    var bs', m' := bs[i := b], m - {key};
    forall j | 0 <= j < n ensures BucketOk(bs'[j], PartOf(h, n, m', j)) {
      PartDelete(h, n, m, key, j);
    }
  }

  lemma EmptyTable(bs: seq<Content>, h: Hash)
    requires |bs| > 0 && forall i :: 0 <= i < |bs| ==> bs[i] == Content(false, [], 0)
    ensures Represents(bs, h, map[])
  {
    forall i | 0 <= i < |bs| ensures BucketOk(bs[i], PartOf(h, |bs|, map[], i)) {
      assert PartOf(h, |bs|, map[], i) == map[];
    }
  }

  lemma PartAt(bs: seq<Content>, h: Hash, m: map<Bytes, Bytes>, i: nat)
    requires Represents(bs, h, m) && i < |bs|
    ensures BucketOk(bs[i], PartOf(h, |bs|, m, i))
  {}

  lemma PartHolds(h: Hash, slots: nat, m: map<Bytes, Bytes>, key: Bytes)
    requires slots > 0
    ensures key in PartOf(h, slots, m, h(key) % slots) <==> key in m
    ensures key in m ==> PartOf(h, slots, m, h(key) % slots)[key] == m[key]
  {}

  // ----- rehashing

  /** The entries of the first `i` buckets. */
  ghost function FirstParts(h: Hash, slots: nat, m: map<Bytes, Bytes>, i: nat): map<Bytes, Bytes>
    requires slots > 0
  {
    map k | k in m && h(k) % slots < i :: m[k]
  }

  lemma FirstPartsGrow(h: Hash, slots: nat, m: map<Bytes, Bytes>, i: nat)
    requires slots > 0
    ensures FirstParts(h, slots, m, i + 1) == FirstParts(h, slots, m, i) + PartOf(h, slots, m, i)
    ensures FirstParts(h, slots, m, i).Keys !! PartOf(h, slots, m, i).Keys
    ensures FirstParts(h, slots, m, 0) == map[] && FirstParts(h, slots, m, slots) == m
  {}

  lemma {:induction false} SubmapSize(a: map<Bytes, Bytes>, b: map<Bytes, Bytes>)
    requires a.Keys <= b.Keys
    ensures |a| <= |b|
    decreases |a|
  {
    if |a| > 0 {
      var k :| k in a;
      assert (a - {k}).Keys == a.Keys - {k} && (b - {k}).Keys == b.Keys - {k};
      SubmapSize(a - {k}, b - {k});
    }
  }

  lemma PartsFit(h: Hash, slots: nat, m: map<Bytes, Bytes>, i: nat)
    requires slots > 0
    ensures |FirstParts(h, slots, m, i)| + |PartOf(h, slots, m, i)| <= |m|
  {
    FirstPartsGrow(h, slots, m, i);
    var a, b := FirstParts(h, slots, m, i), PartOf(h, slots, m, i);
    assert (a + b).Keys == a.Keys + b.Keys;
    assert |a.Keys + b.Keys| == |a.Keys| + |b.Keys|;
    SubmapSize(a + b, m);
  }

  /** The map once the first `j` entries have been put. */
  ghost function Loaded(m: map<Bytes, Bytes>, nodes: seq<Entry>, j: nat): map<Bytes, Bytes>
    requires j <= |nodes|
  {
    if j == 0 then m else Loaded(m, nodes, j - 1)[nodes[j - 1].key := nodes[j - 1].value]
  }

  lemma {:induction false} LoadedSize(m: map<Bytes, Bytes>, nodes: seq<Entry>, j: nat)
    requires j <= |nodes| && Distinct(nodes) && forall i :: 0 <= i < |nodes| ==> nodes[i].key !in m
    ensures |Loaded(m, nodes, j)| == |m| + j
    ensures forall i :: j <= i < |nodes| ==> nodes[i].key !in Loaded(m, nodes, j)
    decreases j
  {
    if j > 0 {
      LoadedSize(m, nodes, j - 1);
      PutSize(Loaded(m, nodes, j - 1), nodes[j - 1].key, nodes[j - 1].value);
    }
  }

  lemma {:induction false} LoadedAt(m: map<Bytes, Bytes>, nodes: seq<Entry>, j: nat, part: map<Bytes, Bytes>, k: Bytes)
    requires j <= |nodes| && Lists(nodes, part)
    ensures var l := Loaded(m, nodes, j);
      && (forall i :: 0 <= i < j ==> nodes[i].key in l && l[nodes[i].key] == part[nodes[i].key])
      && (k !in part ==> (k in l <==> k in m) && (k in m ==> l[k] == m[k]))
    decreases j
  {
    if j > 0 {
      LoadedAt(m, nodes, j - 1, part, k);
    }
  }

  lemma LoadedNext(m: map<Bytes, Bytes>, nodes: seq<Entry>, j: nat)
    requires j < |nodes|
    ensures Loaded(m, nodes, j + 1) == Loaded(m, nodes, j)[nodes[j].key := nodes[j].value] && Loaded(m, nodes, 0) == m
  {}

  lemma ListsApart(nodes: seq<Entry>, part: map<Bytes, Bytes>, m: map<Bytes, Bytes>)
    requires Lists(nodes, part) && part.Keys !! m.Keys
    ensures Distinct(nodes) && forall i :: 0 <= i < |nodes| ==> nodes[i].key !in m
    ensures Loaded(m, nodes, 0) == m
  {}

  lemma LoadedAll(m: map<Bytes, Bytes>, nodes: seq<Entry>, part: map<Bytes, Bytes>)
    requires Lists(nodes, part) && part.Keys !! m.Keys
    ensures Loaded(m, nodes, |nodes|) == m + part
  {
    hide Loaded;
    var l := Loaded(m, nodes, |nodes|);
    forall k ensures (k in l <==> k in m + part) && (k in l ==> l[k] == (m + part)[k]) {
      LoadedAt(m, nodes, |nodes|, part, k);
      if k in part {
        var i :| 0 <= i < |nodes| && nodes[i].key == k;
      }
    }
  }

  // ----- several buckets

  ghost predicate Shown(b: Bucket, c: Content, r: set<object>)
    reads r
  {
    b in r && b.Repr() <= r && b.Valid() && b.View() == c
  }

  /** The buckets show `cs`, lie within `r` and share nothing. */
  ghost predicate Shows(bs: seq<Bucket>, cs: seq<Content>, r: set<object>)
    reads r
  {
    && |bs| == |cs|
    && (forall i {:trigger bs[i]} :: 0 <= i < |bs| ==> Shown(bs[i], cs[i], r))
    && forall i, j {:trigger bs[i], bs[j]} :: 0 <= i < j < |bs| ==> bs[i].Repr() !! bs[j].Repr()
  }

  lemma ShownAt(bs: seq<Bucket>, cs: seq<Content>, r: set<object>, i: nat)
    requires Shows(bs, cs, r) && i < |bs|
    ensures |bs| == |cs| && Shown(bs[i], cs[i], r)
  {}

  lemma ApartFrom(bs: seq<Bucket>, cs: seq<Content>, r: set<object>, i: nat, j: nat)
    requires Shows(bs, cs, r) && i < |bs| && j < |bs| && i != j
    ensures Shown(bs[i], cs[i], r) && Shown(bs[j], cs[j], r)
    ensures bs[i].Repr() !! bs[j].Repr() && bs[i] !in bs[j].Repr()
  {
    assert bs[i] in bs[i].Repr();
  }

  /** What the buckets other than `i` have to do with it. */
  lemma OthersApart(bs: seq<Bucket>, cs: seq<Content>, r: set<object>, i: nat)
    requires Shows(bs, cs, r) && i < |bs|
    ensures |bs| == |cs| && Shown(bs[i], cs[i], r)
    ensures forall j :: 0 <= j < |bs| && j != i ==>
      Shown(bs[j], cs[j], r) && bs[j] !in bs[i].Repr() && bs[j].Repr() !! bs[i].Repr()
    ensures forall j, k :: 0 <= j < k < |bs| ==> bs[j].Repr() !! bs[k].Repr()
  {
    hide Bucket.Valid, Bucket.View, Bucket.Repr, Shown;
    forall j | 0 <= j < |bs| && j != i
      ensures Shown(bs[j], cs[j], r) && bs[j] !in bs[i].Repr() && bs[j].Repr() !! bs[i].Repr()
    {
      ApartFrom(bs, cs, r, j, i);
    }
  }

  lemma Regrouped(bs: seq<Bucket>, cs: seq<Content>, r: set<object>)
    requires |bs| == |cs| && forall i :: 0 <= i < |bs| ==> Shown(bs[i], cs[i], r)
    requires forall i, j :: 0 <= i < j < |bs| ==> bs[i].Repr() !! bs[j].Repr()
    ensures Shows(bs, cs, r)
  {}

  lemma ShownWithin(b: Bucket, c: Content, r: set<object>, r': set<object>)
    requires Shown(b, c, r) && r <= r'
    ensures Shown(b, c, r')
  {}

  lemma Sized(bs: seq<Bucket>, cs: seq<Content>, r: set<object>)
    requires Shows(bs, cs, r)
    ensures |bs| == |cs|
  {}

  /** Puts an entry into bucket `i`; the others do not see it. */
  method PutAt(ghost bs: seq<Bucket>, ghost cs: seq<Content>, ghost r: set<object>, ghost i: nat, b: Bucket,
    key: Bytes, value: Bytes, ghost part: map<Bytes, Bytes>)
    returns (added: bool, ghost c: Content, ghost r': set<object>)
    requires Shows(bs, cs, r) && i < |bs| && b == bs[i] && BucketOk(cs[i], part)
    modifies b.Repr()
    ensures Shows(bs, cs[i := c], r') && r <= r' && fresh(r' - r)
    ensures BucketOk(c, part[key := value]) && added == (key !in part)
  {
    hide BucketOk, Bucket.Valid, Bucket.View, Shows;
    OthersApart(bs, cs, r, i);
    added := b.PutInto(key, value, part);
    c, r' := b.View(), r + b.Repr();
    forall j | 0 <= j < |bs| && j != i
      ensures bs[j].Repr() == old(bs[j].Repr()) && bs[j].Repr() !! b.Repr() && Shown(bs[j], cs[j], r)
    {
      assert bs[j].Repr() == old(bs[j].Repr());
      assert old(Shown(bs[j], cs[j], r));
    }
    forall j, k | 0 <= j < k < |bs| ensures bs[j].Repr() !! bs[k].Repr() {
      assert old(bs[j].Repr() !! bs[k].Repr());
    }
    forall j | 0 <= j < |bs| && j != i ensures Shown(bs[j], cs[j], r') {
      ShownWithin(bs[j], cs[j], r, r');
    }
    Regrouped(bs, cs[i := c], r');
  }

  /** Takes an entry out of bucket `i`; the others do not see it. */
  method DeleteAt(ghost bs: seq<Bucket>, ghost cs: seq<Content>, ghost r: set<object>, ghost i: nat, b: Bucket,
    key: Bytes, ghost part: map<Bytes, Bytes>)
    returns (gone: bool, ghost c: Content)
    requires Shows(bs, cs, r) && i < |bs| && b == bs[i] && BucketOk(cs[i], part)
    modifies b.Repr()
    ensures Shows(bs, cs[i := c], r) && BucketOk(c, part - {key}) && gone == (key in part)
  {
    hide BucketOk, Bucket.Valid, Bucket.View, Shows;
    OthersApart(bs, cs, r, i);
    gone := b.DeleteFrom(key, part);
    c := b.View();
    forall j | 0 <= j < |bs| && j != i
      ensures bs[j].Repr() == old(bs[j].Repr()) && bs[j].Repr() !! b.Repr() && Shown(bs[j], cs[j], r)
    {
      assert bs[j].Repr() == old(bs[j].Repr());
      assert old(Shown(bs[j], cs[j], r));
    }
    forall j, k | 0 <= j < k < |bs| ensures bs[j].Repr() !! bs[k].Repr() {
      assert old(bs[j].Repr() !! bs[k].Repr());
    }
    Regrouped(bs, cs[i := c], r);
  }

  /** Empty buckets, each of its own. */
  method NewBuckets(n: nat) returns (bs: seq<Bucket>, ghost cs: seq<Content>, ghost r: set<object>)
    ensures |bs| == n && Shows(bs, cs, r) && fresh(r)
    ensures forall i :: 0 <= i < n ==> cs[i] == Content(false, [], 0)
  {
    bs, cs, r := [], [], {};
    for i := 0 to n
      invariant |bs| == i && Shows(bs, cs, r) && fresh(r)
      invariant forall j :: 0 <= j < i ==> cs[j] == Content(false, [], 0)
    {
      var b := new Bucket();
      bs, cs, r := bs + [b], cs + [b.View()], r + b.Repr();
    }
  }

  lemma BucketWithin(bs: seq<Bucket>, cs: seq<Content>, r: set<object>, i: nat)
    requires Shows(bs, cs, r) && i < |bs|
    ensures |bs| == |cs| && bs[i].Repr() <= r
  {}

  lemma CountIs(t: HashTable)
    requires t.Valid()
    ensures t.count == |t.m| && t.slots > 0
  {}

  class HashTable {
    const hash: Hash
    var buckets: array<Bucket>
    var slots: nat
    var count: int
    ghost var m: map<Bytes, Bytes>
    ghost var contents: seq<Content>
    /** The buckets and their nodes. */
    ghost var repr: set<object>

    ghost predicate Sound()
      reads this, buckets, repr
    {
      && slots == buckets.Length > 0 && count == |m|
      && this !in repr && buckets !in repr
      && Shows(buckets[..], contents, repr) && Represents(contents, hash, m)
    }

    /** The load was at most three quarters before the latest addition. */
    ghost predicate Valid()
      reads this, buckets, repr
    {
      Sound() && slots >= INITIAL_CAPACITY && !Over(count - 1, slots)
    }

    constructor (hash: Hash)
      ensures Valid() && m == map[] && fresh(buckets) && fresh(repr) && this.hash == hash
      ensures slots == 1024 && count == 0
    {
      hide Represents, Shows;
      this.hash := hash;
      var bs, cs, r := NewBuckets(INITIAL_CAPACITY);
      Sized(bs, cs, r);
      EmptyTable(cs, hash);
      var bucketArray := new Bucket[INITIAL_CAPACITY](i requires 0 <= i < |bs| => bs[i]);
      assert bucketArray[..] == bs;
      buckets, slots, count, m, contents := bucketArray, INITIAL_CAPACITY, 0, map[], cs;
      repr := r;
    }

    /** `get_kv_hashtable`. */
    method Get(key: Bytes) returns (found: bool, value: Bytes)
      requires Valid()
      ensures found == (key in m)
      ensures found ==> value == m[key]
    {
      hide Lists, Sorted, Shows, Represents;
      var idx := hash(key) % slots;
      ShownAt(buckets[..], contents, repr, idx);
      PartAt(contents, hash, m, idx);
      PartHolds(hash, slots, m, key);
      var b := buckets[idx];
      var n, prev, i := b.Find(key);
      FoundIsListed(contents[idx].nodes, PartOf(hash, slots, m, idx), if n != null then i else -1, key);
      found := n != null;
      value := if n != null then n.value else [];
    }

    /** Writes the entry into its bucket. */
    method PutEntry(key: Bytes, value: Bytes) returns (r: int)
      requires Sound()
      modifies this`count, this`m, this`contents, this`repr, repr
      ensures Sound() && slots == old(slots) && m == old(m)[key := value]
      ensures r == if key in old(m) then 1 else 0
      ensures count == old(count) + (if key in old(m) then 0 else 1)
      ensures buckets == old(buckets) && fresh(repr - old(repr))
    {
      hide BucketOk, Represents, PartOf, Shows, Bucket.Repr;
      var idx := hash(key) % slots;
      ghost var bs := buckets[..];
      BucketWithin(bs, contents, repr, idx);
      PartAt(contents, hash, m, idx);
      PartHolds(hash, slots, m, key);
      var added, c, r' := PutAt(bs, contents, repr, idx, buckets[idx], key, value, PartOf(hash, slots, m, idx));
      assert buckets[..] == bs;
      PutPart(contents, hash, m, key, value, c);
      PutSize(m, key, value);
      Count(if added then count + 1 else count, contents[idx := c], m[key := value], r');
      r := if added then 0 else 1;
    }

    /** Notes what a change to one bucket has done to the table. */
    method Count(n: int, ghost cs: seq<Content>, ghost m': map<Bytes, Bytes>, ghost r': set<object>)
      requires slots == buckets.Length > 0 && n == |m'| && this !in r' && buckets !in r'
      requires Shows(buckets[..], cs, r') && Represents(cs, hash, m')
      modifies this`count, this`m, this`contents, this`repr
      ensures Sound() && count == n && m == m' && contents == cs && repr == r'
    {
      hide Represents, Shows;
      count, contents, m, repr := n, cs, m', r';
    }

    /** `put_kv_hashtable`: 0 for a new key, 1 for a known one; may double the table first. */
    method Put(key: Bytes, value: Bytes) returns (r: int)
      requires Valid()
      modifies this, buckets, repr
      ensures Valid() && if 4 * old(count) > 3 * old(slots) then fresh(buckets) else buckets == old(buckets)
      ensures fresh(repr - old(repr))
      ensures m == old(m)[key := value]
      ensures r == if key in old(m) then 1 else 0
      ensures slots == if 4 * old(count) > 3 * old(slots) then 2 * old(slots) else old(slots)
      ensures count == |m|
      decreases if Over(count, slots) then 1 else 0, 2
    {
      hide Represents, Shows;
      CheckCapacity();
      r := PutEntry(key, value);
    }

    /** `_check_capacity`. */
    method CheckCapacity()
      requires Valid()
      modifies this, buckets, repr
      ensures Valid() && if 4 * old(count) > 3 * old(slots) then fresh(buckets) else buckets == old(buckets)
      ensures fresh(repr - old(repr))
      ensures m == old(m) && 4 * count <= 3 * slots
      ensures slots == if 4 * old(count) > 3 * old(slots) then 2 * old(slots) else old(slots)
      decreases if Over(count, slots) then 1 else 0, 1
    {
      hide Represents, Shows;
      if 4 * count > 3 * slots {
        Rehash(slots * 2);
      }
    }

    /** `_rehash`: every entry is put again; none of these puts finds the table too full. */
    method Rehash(size: nat)
      requires Valid() && Over(count, slots) && size == 2 * slots
      modifies this, buckets, repr
      ensures Valid() && fresh(buckets) && fresh(repr) && m == old(m) && slots == size && 4 * count <= 3 * slots
      decreases 1, 0
    {
      hide Represents, PartOf, FirstParts, Lists, Shows, BucketOk, Bucket.Repr, Bucket.Valid, Bucket.View, Shown;
      var oldBuckets, oldSlots := buckets, slots;
      ghost var all, cs, bs, r := m, contents, buckets[..], repr;
      Sized(bs, cs, r);
      assert Shows(bs, cs, r) && Represents(cs, hash, all) && |bs| == oldSlots && this !in r;
      CountIs(this);
      hide HashTable.Sound;
      Blank(size);
      FirstPartsGrow(hash, oldSlots, all, 0);
      for i := 0 to oldSlots
        invariant Valid() && fresh(buckets) && fresh(repr) && slots == size && m == FirstParts(hash, oldSlots, all, i)
        invariant oldBuckets[..] == bs && Shows(bs, cs, r) && r !! repr && buckets !in r
      {
        MoveSlot(oldBuckets[i], bs, cs, r, i, all);
      }
      FirstPartsGrow(hash, oldSlots, all, oldSlots);
      CountIs(this);
    }

    /** Moves the entries of the old bucket `i` over. */
    method MoveSlot(b: Bucket, ghost bs: seq<Bucket>, ghost cs: seq<Content>, ghost r: set<object>, ghost i: nat,
      ghost all: map<Bytes, Bytes>)
      requires Valid() && Shows(bs, cs, r) && i < |bs| && b == bs[i] && Represents(cs, hash, all)
      requires r !! repr && this !in r && buckets !in r
      requires m == FirstParts(hash, |bs|, all, i) && !Over(|all|, slots)
      modifies this, buckets, repr
      ensures Valid() && buckets == old(buckets) && slots == old(slots) && fresh(repr - old(repr))
      ensures m == FirstParts(hash, |bs|, all, i + 1)
      decreases 0, 5
    {
      hide Represents, PartOf, FirstParts, Lists, Shows, BucketOk, HashTable.Sound;
      ShownAt(bs, cs, r, i);
      PartAt(cs, hash, all, i);
      FirstPartsGrow(hash, |bs|, all, i);
      PartsFit(hash, |bs|, all, i);
      MoveBucket(b, PartOf(hash, |bs|, all, i), |all|);
    }

    /** A new array of empty buckets. */
    method Blank(size: nat)
      requires size >= INITIAL_CAPACITY
      modifies this
      ensures Valid() && fresh(buckets) && fresh(repr) && slots == size && m == map[]
    {
      hide Represents, Shows;
      var bs, cs, r := NewBuckets(size);
      Sized(bs, cs, r);
      EmptyTable(cs, hash);
      var blank := new Bucket[size](i requires 0 <= i < |bs| => bs[i]);
      assert blank[..] == bs;
      buckets, slots, count, m, contents := blank, size, 0, map[], cs;
      repr := r;
    }

    /** Moves the entries of an old bucket over. */
    method MoveBucket(b: Bucket, ghost part: map<Bytes, Bytes>, ghost total: nat)
      requires Valid() && b.Valid() && BucketOk(b.View(), part) && b.Repr() !! {this, buckets} + repr
      requires part.Keys !! m.Keys && |m| + |part| <= total && !Over(total, slots)
      modifies this, buckets, repr
      ensures Valid() && buckets == old(buckets) && slots == old(slots) && m == old(m) + part
      ensures fresh(repr - old(repr))
      decreases 0, 4
    {
      hide Represents, Lists, Shows;
      if b.isTree {
        MoveTree(b.tree, part, total);
      } else {
        MoveList(b.list, b.chain, part, total);
      }
    }

    /** Puts the nodes that a tree lists again. */
    method MoveTree(nodes: seq<HashNode>, ghost part: map<Bytes, Bytes>, ghost total: nat)
      requires Valid() && Lists(Entries(nodes), part) && NodeSet(nodes) !! repr
      requires part.Keys !! m.Keys && |m| + |part| <= total && !Over(total, slots)
      modifies this, buckets, repr
      ensures Valid() && buckets == old(buckets) && slots == old(slots) && m == old(m) + part
      ensures fresh(repr - old(repr))
      decreases 0, 3
    {
      hide Represents, Lists, Loaded, Shows, Entries, HashTable.Sound;
      ghost var es := Entries(nodes);
      ListsSize(es, part);
      ListsApart(es, part, m);
      for j := 0 to |nodes|
        invariant Valid() && buckets == old(buckets) && slots == old(slots) && m == Loaded(old(m), es, j)
        invariant Entries(nodes) == es && NodeSet(nodes) !! repr
        invariant fresh(repr - old(repr))
      {
        CountIs(this);
        LoadedSize(old(m), es, j);
        LoadedNext(old(m), es, j);
        var r := Put(nodes[j].key, nodes[j].value);
      }
      LoadedAll(old(m), es, part);
    }

    /** Puts the nodes that a list links again. */
    method MoveList(list: HashNode?, ghost nodes: seq<HashNode>, ghost part: map<Bytes, Bytes>, ghost total: nat)
      requires Valid() && Lists(Entries(nodes), part) && NodeSet(nodes) !! repr
      requires LinkedFrom(nodes, 0) && list == At(nodes, 0)
      requires part.Keys !! m.Keys && |m| + |part| <= total && !Over(total, slots)
      modifies this, buckets, repr
      ensures Valid() && buckets == old(buckets) && slots == old(slots) && m == old(m) + part
      ensures fresh(repr - old(repr))
      decreases 0, 3
    {
      hide Represents, Lists, Loaded, Shows, Entries, HashTable.Sound;
      ghost var es := Entries(nodes);
      ListsSize(es, part);
      ListsApart(es, part, m);
      var node := list;
      ghost var j := 0;
      while node != null
        invariant j <= |nodes| && node == At(nodes, j) && LinkedFrom(nodes, 0)
        invariant Valid() && buckets == old(buckets) && slots == old(slots) && m == Loaded(old(m), es, j)
        invariant Entries(nodes) == es && NodeSet(nodes) !! repr
        invariant fresh(repr - old(repr))
        decreases |nodes| - j
      {
        CountIs(this);
        LoadedSize(old(m), es, j);
        LoadedNext(old(m), es, j);
        var next := node.next;
        var r := Put(node.key, node.value);
        node, j := next, j + 1;
      }
      LoadedAll(old(m), es, part);
    }

    /** `delete_kv_hashtable`. */
    method Delete(key: Bytes) returns (r: int)
      requires Valid()
      modifies this`count, this`m, this`contents, this`repr, repr
      ensures Valid() && slots == old(slots) && m == old(m) - {key}
      ensures r == if key in old(m) then 0 else -1
      ensures buckets == old(buckets) && repr == old(repr)
    {
      hide BucketOk, Represents, PartOf, Shows, Bucket.Repr;
      var idx := hash(key) % slots;
      ghost var bs := buckets[..];
      BucketWithin(bs, contents, repr, idx);
      PartAt(contents, hash, m, idx);
      PartHolds(hash, slots, m, key);
      var gone, c := DeleteAt(bs, contents, repr, idx, buckets[idx], key, PartOf(hash, slots, m, idx));
      assert buckets[..] == bs;
      DeletePart(contents, hash, m, key, c);
      PutSize(m, key, []);
      Count(if gone then count - 1 else count, contents[idx := c], m - {key}, repr);
      r := if gone then 0 else -1;
    }

    /** `kvs_hash_modify`: reports an unknown key as a failure, yet adds it. */
    method Modify(key: Bytes, value: Bytes) returns (r: int)
      requires Valid()
      modifies this, buckets, repr
      ensures Valid() && (buckets == old(buckets) || fresh(buckets))
      ensures fresh(repr - old(repr))
      ensures m == old(m)[key := value] && r == if key in old(m) then 0 else -1
    {
      var st := Put(key, value);
      r := if st == 1 then 0 else -1;
    }
  }
}
