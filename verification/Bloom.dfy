/** Bloom filters in five storage layouts, as values: what adding, testing and removing a key do. */
module BloomSpec {
  import opened Bytes
  import opened Bits
  import opened Words

  datatype Layout = Standard | Blocked | Registers | Counting | Scalable

  /** A bit field with its number of bits; `entries` and `max` are used by scalable layers. */
  datatype Layer = Layer(bits: seq<bv8>, size: nat, entries: nat, max: nat)

  datatype State = State(layout: Layout, layers: seq<Layer>, registers: seq<bv64>, counters: seq<nat>, entries: int)

  /** The two base hashes are arbitrary; the others derive from them. */
  datatype Params = Params(h1: Bytes -> nat, h2: Bytes -> nat, hashCount: nat, maxCount: nat)

  // ----- single bits

  predicate BitOn(bits: seq<bv8>, i: nat)
    requires i < 8 * |bits|
  {
    bits[i / 8] & Mask8(i % 8) != 0
  }

  ghost function SetBit(bits: seq<bv8>, i: nat): (r: seq<bv8>)
    requires i < 8 * |bits|
    ensures |r| == |bits|
  {
    bits[i / 8 := bits[i / 8] | Mask8(i % 8)]
  }

  /** Setting a bit switches on that bit and no other. */
  lemma SetBitIsExact(bits: seq<bv8>, i: nat, j: nat)
    requires i < 8 * |bits| && j < 8 * |bits|
    ensures BitOn(SetBit(bits, i), j) <==> j == i || BitOn(bits, j)
  {
    hide Mask8;
    if i / 8 == j / 8 {
      OrKeeps(bits[i / 8], Mask8(i % 8), Mask8(j % 8));
      MasksApart(i % 8, j % 8);
      assert i % 8 == j % 8 <==> i == j;
    }
  }

  /** All cells lie below `n`. */
  ghost predicate Within(cells: seq<nat>, n: nat) {
    forall i :: 0 <= i < |cells| ==> cells[i] < n
  }

  ghost function SetBits(bits: seq<bv8>, cells: seq<nat>): (r: seq<bv8>)
    requires Within(cells, 8 * |bits|)
    ensures |r| == |bits|
  {
    if cells == [] then bits else SetBit(SetBits(bits, cells[..|cells| - 1]), cells[|cells| - 1])
  }

  lemma {:induction false} SetBitsIsExact(bits: seq<bv8>, cells: seq<nat>, j: nat)
    requires Within(cells, 8 * |bits|) && j < 8 * |bits|
    ensures BitOn(SetBits(bits, cells), j) <==> j in cells || BitOn(bits, j)
    decreases |cells|
  {
    hide BitOn, SetBit;
    if cells != [] {
      var before, last := cells[..|cells| - 1], cells[|cells| - 1];
      assert forall c :: c in cells <==> c in before || c == last;
      SetBitsIsExact(bits, before, j);
      SetBitIsExact(SetBits(bits, before), last, j);
    }
  }

  ghost predicate AllOn(bits: seq<bv8>, cells: seq<nat>) {
    forall i :: 0 <= i < |cells| ==> cells[i] < 8 * |bits| && BitOn(bits, cells[i])
  }

  lemma AddedAreOn(bits: seq<bv8>, cells: seq<nat>)
    requires Within(cells, 8 * |bits|)
    ensures AllOn(SetBits(bits, cells), cells)
  {
    forall i | 0 <= i < |cells| ensures BitOn(SetBits(bits, cells), cells[i]) {
      SetBitsIsExact(bits, cells, cells[i]);
    }
  }

  lemma OnStaysOn(bits: seq<bv8>, cells: seq<nat>, more: seq<nat>)
    requires AllOn(bits, cells) && Within(more, 8 * |bits|)
    ensures AllOn(SetBits(bits, more), cells)
  {
    forall i | 0 <= i < |cells| ensures BitOn(SetBits(bits, more), cells[i]) {
      SetBitsIsExact(bits, more, cells[i]);
    }
  }

  /** A block of `size` bits in `size / 8` bytes has a place for each bit exactly if 8 divides the size. */
  lemma BlockBitsFitIff(size: nat)
    ensures (forall i: nat :: i < size ==> i / 8 < size / 8) <==> size % 8 == 0
  {
    if size % 8 != 0 {
      assert (size - 1) / 8 >= size / 8;
    }
  }

  // ----- hashes

  /** The `i`-th hash, in 64 bits. */
  function Hash(p: Params, key: Bytes, i: nat): (h: nat)
    ensures h < WORD64
  {
    (p.h1(key) + i * p.h2(key)) % WORD64
  }

  /** Where the hashes from number `from` on fall among `size` cells. */
  ghost function Cells(p: Params, key: Bytes, from: nat, size: nat): (cells: seq<nat>)
    requires size > 0
    ensures |cells| == if from <= p.hashCount then p.hashCount - from else 0
    ensures Within(cells, size)
  {
    seq(if from <= p.hashCount then p.hashCount - from else 0, j requires 0 <= j => Hash(p, key, from + j) % size)
  }

  // ----- registers and counters

  ghost function BitsOf(cells: seq<nat>): bv64
    requires Within(cells, 64)
  {
    if cells == [] then 0 else Or64(BitsOf(cells[..|cells| - 1]), Bit64(cells[|cells| - 1]))
  }

  ghost function Bump(counters: seq<nat>, c: nat, max: nat): (r: seq<nat>)
    requires c < |counters|
    ensures |r| == |counters|
  {
    if counters[c] < max then counters[c := counters[c] + 1] else counters
  }

  ghost function BumpAll(counters: seq<nat>, cells: seq<nat>, max: nat): (r: seq<nat>)
    requires Within(cells, |counters|)
    ensures |r| == |counters|
  {
    if cells == [] then counters else Bump(BumpAll(counters, cells[..|cells| - 1], max), cells[|cells| - 1], max)
  }

  ghost function Drop(counters: seq<nat>, c: nat): (r: seq<nat>)
    requires c < |counters|
    ensures |r| == |counters|
  {
    if counters[c] > 0 then counters[c := counters[c] - 1] else counters
  }

  ghost function DropAll(counters: seq<nat>, cells: seq<nat>): (r: seq<nat>)
    requires Within(cells, |counters|)
    ensures |r| == |counters|
  {
    if cells == [] then counters else Drop(DropAll(counters, cells[..|cells| - 1]), cells[|cells| - 1])
  }

  ghost predicate AllPositive(counters: seq<nat>, cells: seq<nat>) {
    forall i :: 0 <= i < |cells| ==> cells[i] < |counters| && counters[cells[i]] > 0
  }

  lemma {:induction false} BumpsOnlyRaise(counters: seq<nat>, cells: seq<nat>, max: nat, j: nat)
    requires Within(cells, |counters|) && j < |counters|
    ensures counters[j] <= BumpAll(counters, cells, max)[j]
    ensures max > 0 && j in cells ==> BumpAll(counters, cells, max)[j] > 0
    decreases |cells|
  {
    if cells != [] {
      var before, last := cells[..|cells| - 1], cells[|cells| - 1];
      assert forall c :: c in cells <==> c in before || c == last;
      BumpsOnlyRaise(counters, before, max, j);
    }
  }

  // ----- adding and testing

  ghost predicate LayerOk(l: Layer) {
    l.size > 0 && l.size <= 8 * |l.bits|
  }

  ghost predicate Ok(st: State) {
    && (forall i :: 0 <= i < |st.layers| ==> LayerOk(st.layers[i]))
    && (match st.layout
        case Standard => |st.layers| == 1
        case Blocked => |st.layers| > 0
        case Registers => |st.registers| > 0
        case Counting => |st.counters| > 0
        case Scalable => |st.layers| > 0)
  }

  ghost function Marked(l: Layer, cells: seq<nat>): (r: Layer)
    requires LayerOk(l) && Within(cells, l.size)
    ensures LayerOk(r) && r.size == l.size
  {
    l.(bits := SetBits(l.bits, cells))
  }

  ghost function Counted(l: Layer): Layer {
    l.(entries := l.entries + 1)
  }

  ghost function Doubled(l: Layer): (r: Layer)
    requires LayerOk(l)
    ensures LayerOk(r)
  {
    Layer(seq((2 * l.size + 7) / 8, _ => 0), 2 * l.size, 0, 2 * l.max)
  }

  /** A scalable filter opens a layer of twice the size when the current one is full. */
  ghost function Grown(layers: seq<Layer>): (r: seq<Layer>)
    requires |layers| > 0 && forall i :: 0 <= i < |layers| ==> LayerOk(layers[i])
    ensures |r| > 0 && forall i :: 0 <= i < |r| ==> LayerOk(r[i])
  {
    var l := layers[|layers| - 1];
    if l.entries < l.max then layers else layers + [Doubled(l)]
  }

  ghost function Place(p: Params, key: Bytes, n: nat): (i: nat)
    requires n > 0
    ensures i < n
  {
    Hash(p, key, 0) % n
  }

  /** The empty key is refused. */
  ghost function Added(p: Params, st: State, key: Bytes): (r: State)
    requires Ok(st)
    ensures r.layout == st.layout
  {
    if key == [] then st
    else
      match st.layout
      case Standard =>
        var l := st.layers[0];
        st.(layers := [Marked(l, Cells(p, key, 0, l.size))], entries := st.entries + 1)
      case Blocked =>
        var i := Place(p, key, |st.layers|);
        var l := st.layers[i];
        st.(layers := st.layers[i := Counted(Marked(l, Cells(p, key, 1, l.size)))], entries := st.entries + 1)
      case Registers =>
        var i := Place(p, key, |st.registers|);
        st.(registers := st.registers[i := Or64(st.registers[i], BitsOf(Cells(p, key, 1, 64)))],
          entries := st.entries + 1)
      case Counting =>
        st.(counters := BumpAll(st.counters, Cells(p, key, 0, |st.counters|), p.maxCount), entries := st.entries + 1)
      case Scalable =>
        var ls := Grown(st.layers);
        var l := ls[|ls| - 1];
        st.(layers := ls[|ls| - 1 := Counted(Marked(l, Cells(p, key, 0, l.size)))], entries := st.entries + 1)
  }

  ghost predicate LayerHas(p: Params, l: Layer, key: Bytes, from: nat) {
    LayerOk(l) && AllOn(l.bits, Cells(p, key, from, l.size))
  }

  ghost predicate MayContain(p: Params, st: State, key: Bytes)
    requires Ok(st)
  {
    key != [] &&
    match st.layout
    case Standard => LayerHas(p, st.layers[0], key, 0)
    case Blocked => LayerHas(p, st.layers[Place(p, key, |st.layers|)], key, 1)
    case Registers =>
      CoversMask(st.registers[Place(p, key, |st.registers|)], BitsOf(Cells(p, key, 1, 64)))
    case Counting => AllPositive(st.counters, Cells(p, key, 0, |st.counters|))
    case Scalable => exists i :: 0 <= i < |st.layers| && LayerHas(p, st.layers[i], key, 0)
  }

  lemma AddedOk(p: Params, st: State, key: Bytes)
    requires Ok(st)
    ensures Ok(Added(p, st, key))
  {}

  lemma MarkedHas(p: Params, l: Layer, key: Bytes, from: nat)
    requires LayerOk(l)
    ensures LayerHas(p, Marked(l, Cells(p, key, from, l.size)), key, from)
    ensures LayerHas(p, Counted(Marked(l, Cells(p, key, from, l.size))), key, from)
  {
    AddedAreOn(l.bits, Cells(p, key, from, l.size));
  }

  lemma MarkedKeeps(p: Params, l: Layer, cells: seq<nat>, key: Bytes, from: nat)
    requires LayerOk(l) && Within(cells, l.size) && LayerHas(p, l, key, from)
    ensures LayerHas(p, Marked(l, cells), key, from) && LayerHas(p, Counted(Marked(l, cells)), key, from)
  {
    OnStaysOn(l.bits, Cells(p, key, from, l.size), cells);
  }

  lemma BumpedPositive(counters: seq<nat>, cells: seq<nat>, max: nat, other: seq<nat>)
    requires Within(cells, |counters|) && max > 0 && (other == cells || AllPositive(counters, other))
    ensures AllPositive(BumpAll(counters, cells, max), other)
  {
    forall i | 0 <= i < |other| ensures other[i] < |counters| && BumpAll(counters, cells, max)[other[i]] > 0 {
      BumpsOnlyRaise(counters, cells, max, other[i]);
    }
  }

  /** In one layout after the other: the added key is found, and what was found before still is. */
  lemma StandardFinds(p: Params, st: State, key: Bytes, other: Bytes)
    requires Ok(st) && st.layout == Standard && key != [] && other != [] && (other == key || MayContain(p, st, other))
    ensures Ok(Added(p, st, key)) && MayContain(p, Added(p, st, key), other)
  {
    hide SetBits, LayerHas, Cells;
    var l := st.layers[0];
    MarkedHas(p, l, key, 0);
    if other != key { MarkedKeeps(p, l, Cells(p, key, 0, l.size), other, 0); }
  }

  lemma BlockedFinds(p: Params, st: State, key: Bytes, other: Bytes)
    requires Ok(st) && st.layout == Blocked && key != [] && other != [] && (other == key || MayContain(p, st, other))
    ensures Ok(Added(p, st, key)) && MayContain(p, Added(p, st, key), other)
  {
    hide SetBits, LayerHas, Cells, Place;
    var i := Place(p, key, |st.layers|);
    MarkedHas(p, st.layers[i], key, 1);
    if other != key && i == Place(p, other, |st.layers|) {
      MarkedKeeps(p, st.layers[i], Cells(p, key, 1, st.layers[i].size), other, 1);
    }
  }

  lemma RegistersFind(p: Params, st: State, key: Bytes, other: Bytes)
    requires Ok(st) && st.layout == Registers && key != [] && other != [] && (other == key || MayContain(p, st, other))
    ensures Ok(Added(p, st, key)) && MayContain(p, Added(p, st, key), other)
  {
    hide Cells, Place, BitsOf, Or64, CoversMask;
    var i := Place(p, key, |st.registers|);
    RegisterKeeps(st.registers[i], BitsOf(Cells(p, key, 1, 64)), BitsOf(Cells(p, other, 1, 64)));
  }

  lemma CountingFinds(p: Params, st: State, key: Bytes, other: Bytes)
    requires Ok(st) && st.layout == Counting && key != [] && other != [] && p.maxCount > 0
    requires other == key || MayContain(p, st, other)
    ensures Ok(Added(p, st, key)) && MayContain(p, Added(p, st, key), other)
  {
    hide Cells, BumpAll;
    var n := |st.counters|;
    BumpedPositive(st.counters, Cells(p, key, 0, n), p.maxCount, Cells(p, other, 0, n));
  }

  lemma ScalableFinds(p: Params, st: State, key: Bytes, other: Bytes)
    requires Ok(st) && st.layout == Scalable && key != [] && other != [] && (other == key || MayContain(p, st, other))
    ensures Ok(Added(p, st, key)) && MayContain(p, Added(p, st, key), other)
  {
    hide SetBits, LayerHas, Cells;
    var ls, st' := Grown(st.layers), Added(p, st, key);
    var n := |ls| - 1;
    MarkedHas(p, ls[n], key, 0);
    assert LayerHas(p, st'.layers[n], key, 0);
    if other != key {
      var i :| 0 <= i < |st.layers| && LayerHas(p, st.layers[i], other, 0);
      assert ls[i] == st.layers[i];
      if i == n { MarkedKeeps(p, ls[i], Cells(p, key, 0, ls[i].size), other, 0); }
      assert LayerHas(p, st'.layers[i], other, 0);
    }
  }

  /** An added key tests positive from then on, in every layout. */
  lemma AddedFinds(p: Params, st: State, key: Bytes, other: Bytes)
    requires Ok(st) && other != [] && p.maxCount > 0 && (other == key || MayContain(p, st, other))
    ensures Ok(Added(p, st, key)) && MayContain(p, Added(p, st, key), other)
  {
    hide Ok, MayContain;
    if key == [] {
      AddedNothing(p, st);
    } else {
      match st.layout
      case Standard => StandardFinds(p, st, key, other);
      case Blocked => BlockedFinds(p, st, key, other);
      case Registers => RegistersFind(p, st, key, other);
      case Counting => CountingFinds(p, st, key, other);
      case Scalable => ScalableFinds(p, st, key, other);
    }
  }

  lemma AddedNothing(p: Params, st: State)
    requires Ok(st)
    ensures Added(p, st, []) == st
  {}

  ghost function AddedAll(p: Params, st: State, keys: seq<Bytes>): State
    requires Ok(st)
    ensures Ok(AddedAll(p, st, keys))
  {
    if keys == [] then st
    else
      AddedOk(p, AddedAll(p, st, keys[..|keys| - 1]), keys[|keys| - 1]);
      Added(p, AddedAll(p, st, keys[..|keys| - 1]), keys[|keys| - 1])
  }

  ghost function NonEmpty(keys: seq<Bytes>): nat {
    if keys == [] then 0 else NonEmpty(keys[..|keys| - 1]) + if keys[|keys| - 1] == [] then 0 else 1
  }

  lemma NoneAdded(p: Params, st: State)
    requires Ok(st)
    ensures AddedAll(p, st, []) == st
  {}

  lemma OneMore(p: Params, st: State, keys: seq<Bytes>, i: nat)
    requires Ok(st) && i < |keys|
    ensures AddedAll(p, st, keys[..i + 1]) == Added(p, AddedAll(p, st, keys[..i]), keys[i])
    ensures NonEmpty(keys[..i + 1]) == NonEmpty(keys[..i]) + if keys[i] == [] then 0 else 1
  {
    assert keys[..i + 1][..i] == keys[..i];
  }

  /** `NonEmpty` is a number of places. */
  lemma {:induction false} NonEmptyCounts(keys: seq<Bytes>)
    ensures NonEmpty(keys) == |set i: nat | i < |keys| && keys[i] != []|
    decreases |keys|
  {
    var now := set i: nat | i < |keys| && keys[i] != [];
    if keys == [] {
      assert now == {};
    } else {
      var before, last := keys[..|keys| - 1], keys[|keys| - 1];
      NonEmptyCounts(before);
      var was := set i: nat | i < |before| && before[i] != [];
      assert now == if last != [] then was + {|before|} else was;
    }
  }

  lemma {:induction false} NonEmptyNone(keys: seq<Bytes>)
    ensures NonEmpty(keys) == 0 <==> forall k :: k in keys ==> k == []
    decreases |keys|
  {
    if keys != [] {
      var before, last := keys[..|keys| - 1], keys[|keys| - 1];
      assert last in keys && forall k :: k in keys <==> k in before || k == last;
      NonEmptyNone(before);
    }
  }

  /** Whether the batch operation is implemented for the layout. */
  predicate Batches(layout: Layout) {
    layout == Standard || layout == Blocked || layout == Registers
  }

  /** What a batch addition leaves. */
  ghost function Batched(p: Params, st: State, keys: seq<Bytes>): State
    requires Ok(st)
  {
    if Batches(st.layout) then AddedAll(p, st, keys) else st
  }

  lemma {:induction false} AddedAllCounts(p: Params, st: State, keys: seq<Bytes>)
    requires Ok(st)
    ensures AddedAll(p, st, keys).entries == st.entries + NonEmpty(keys)
    decreases |keys|
  {
    if keys != [] { AddedAllCounts(p, st, keys[..|keys| - 1]); }
  }

  /** A filter counts the keys it took: those that are not empty. */
  lemma EntriesCount(p: Params, st: State, keys: seq<Bytes>)
    requires Ok(st)
    ensures AddedAll(p, st, keys).entries == st.entries + |set i: nat | i < |keys| && keys[i] != []|
  {
    hide AddedAll;
    AddedAllCounts(p, st, keys);
    NonEmptyCounts(keys);
  }

  lemma {:induction false} EmptyKeysAdd(p: Params, st: State, keys: seq<Bytes>)
    requires Ok(st) && NonEmpty(keys) == 0
    ensures AddedAll(p, st, keys) == st
    decreases |keys|
  {
    if keys != [] { EmptyKeysAdd(p, st, keys[..|keys| - 1]); }
  }

  /** A batch does what single additions do, unless the layout has none and there is a key to add. */
  lemma BatchIsAddsIff(p: Params, st: State, keys: seq<Bytes>)
    requires Ok(st)
    ensures Batched(p, st, keys) == AddedAll(p, st, keys) <==>
      || st.layout == Standard || st.layout == Blocked || st.layout == Registers
      || forall k :: k in keys ==> k == []
  {
    NonEmptyNone(keys);
    AddedAllCounts(p, st, keys);
    if NonEmpty(keys) == 0 { EmptyKeysAdd(p, st, keys); }
  }

  /** After any run of adds, in every layout, each added key tests positive. */
  lemma {:induction false} NoFalseNegatives(p: Params, st: State, keys: seq<Bytes>, key: Bytes)
    requires Ok(st) && p.maxCount > 0 && key != [] && (key in keys || MayContain(p, st, key))
    ensures MayContain(p, AddedAll(p, st, keys), key)
    decreases |keys|
  {
    if keys != [] {
      var before, last := keys[..|keys| - 1], keys[|keys| - 1];
      assert key in keys <==> key in before || key == last;
      if key != last { NoFalseNegatives(p, st, before, key); }
      AddedFinds(p, AddedAll(p, st, before), last, key);
    }
  }

  // ----- counting and removal

  ghost function Times(cells: seq<nat>, j: nat): nat {
    if cells == [] then 0 else Times(cells[..|cells| - 1], j) + if cells[|cells| - 1] == j then 1 else 0
  }

  /** How many hashes of the live keys fall into cell `j` of `n`. */
  ghost function Load(p: Params, live: seq<Bytes>, n: nat, j: nat): nat
    requires n > 0
  {
    if live == [] then 0 else Load(p, live[..|live| - 1], n, j) + Times(Cells(p, live[|live| - 1], 0, n), j)
  }

  /** Every counter holds the load of its cell. */
  ghost predicate Exact(p: Params, counters: seq<nat>, live: seq<Bytes>)
    requires |counters| > 0
  {
    forall j :: 0 <= j < |counters| ==> counters[j] == Load(p, live, |counters|, j)
  }

  lemma {:induction false} BumpsCount(counters: seq<nat>, cells: seq<nat>, max: nat, j: nat)
    requires Within(cells, |counters|) && j < |counters| && counters[j] <= max
    ensures var c := counters[j] + Times(cells, j); BumpAll(counters, cells, max)[j] == if c <= max then c else max
    decreases |cells|
  {
    if cells != [] { BumpsCount(counters, cells[..|cells| - 1], max, j); }
  }

  lemma {:induction false} DropsCount(counters: seq<nat>, cells: seq<nat>, j: nat)
    requires Within(cells, |counters|) && j < |counters|
    ensures DropAll(counters, cells)[j] == if Times(cells, j) <= counters[j] then counters[j] - Times(cells, j) else 0
    decreases |cells|
  {
    if cells != [] { DropsCount(counters, cells[..|cells| - 1], j); }
  }

  /** No load exceeds what a counter can hold. */
  ghost predicate Room(p: Params, live: seq<Bytes>, n: nat)
    requires n > 0
  {
    forall j :: 0 <= j < n ==> Load(p, live, n, j) <= p.maxCount
  }

  lemma AddedLoad(p: Params, counters: seq<nat>, live: seq<Bytes>, key: Bytes, j: nat)
    requires |counters| > 0 && Exact(p, counters, live) && j < |counters| && counters[j] <= p.maxCount
    ensures var n := |counters|;
      var after := BumpAll(counters, Cells(p, key, 0, n), p.maxCount);
      after[j] == Load(p, live + [key], n, j) <==> Load(p, live + [key], n, j) <= p.maxCount
  {
    hide BumpAll, Times, Load, Cells;
    BumpsCount(counters, Cells(p, key, 0, |counters|), p.maxCount, j);
    LoadGrows(p, live, key, |counters|, j);
  }

  /** An addition keeps the counters exact precisely if no load exceeds what a counter can hold. */
  lemma AddExactIff(p: Params, counters: seq<nat>, live: seq<Bytes>, key: Bytes)
    requires |counters| > 0 && Exact(p, counters, live) && forall j :: 0 <= j < |counters| ==> counters[j] <= p.maxCount
    ensures Exact(p, BumpAll(counters, Cells(p, key, 0, |counters|), p.maxCount), live + [key]) <==>
      Room(p, live + [key], |counters|)
  {
    hide BumpAll, Times, Load, Cells;
    var n, now := |counters|, live + [key];
    var after := BumpAll(counters, Cells(p, key, 0, n), p.maxCount);
    if Exact(p, after, now) {
      forall j | 0 <= j < n ensures Load(p, now, n, j) <= p.maxCount {
        AddedLoad(p, counters, live, key, j);
        assert after[j] == Load(p, now, n, j);
      }
    }
    if Room(p, now, n) {
      forall j | 0 <= j < |after| ensures after[j] == Load(p, now, |after|, j) {
        AddedLoad(p, counters, live, key, j);
        assert Load(p, now, n, j) <= p.maxCount;
      }
    }
  }

  lemma LoadGrows(p: Params, live: seq<Bytes>, key: Bytes, n: nat, j: nat)
    requires n > 0
    ensures Load(p, live + [key], n, j) == Load(p, live, n, j) + Times(Cells(p, key, 0, n), j)
  {
    assert (live + [key])[..|live + [key]| - 1] == live;
  }

  lemma {:induction false} LoadWithout(p: Params, live: seq<Bytes>, i: nat, n: nat, j: nat)
    requires n > 0 && i < |live|
    ensures Load(p, live, n, j) == Load(p, live[..i] + live[i + 1..], n, j) + Times(Cells(p, live[i], 0, n), j)
    decreases |live|
  {
    var last := |live| - 1;
    if i == last {
      assert live[..i] + live[i + 1..] == live[..last];
    } else {
      LoadWithout(p, live[..last], i, n, j);
      var rest := live[..i] + live[i + 1..];
      assert rest[..|rest| - 1] == live[..last][..i] + live[..last][i + 1..];
    }
  }

  lemma {:induction false} CellsCount(cells: seq<nat>, i: nat)
    requires i < |cells|
    ensures Times(cells, cells[i]) > 0
    decreases |cells|
  {
    if i < |cells| - 1 { CellsCount(cells[..|cells| - 1], i); }
  }

  /** With exact counters no live key tests negative. */
  lemma LiveIsPositive(p: Params, counters: seq<nat>, live: seq<Bytes>, i: nat)
    requires |counters| > 0 && Exact(p, counters, live) && i < |live|
    ensures AllPositive(counters, Cells(p, live[i], 0, |counters|))
  {
    var n := |counters|;
    var cells := Cells(p, live[i], 0, n);
    forall a | 0 <= a < |cells| ensures counters[cells[a]] > 0 {
      CellsCount(cells, a);
      LoadWithout(p, live, i, n, cells[a]);
    }
  }

  /** Removing a live key keeps the counters exact for the others. */
  lemma RemoveExact(p: Params, counters: seq<nat>, live: seq<Bytes>, i: nat)
    requires |counters| > 0 && Exact(p, counters, live) && i < |live|
    ensures Exact(p, DropAll(counters, Cells(p, live[i], 0, |counters|)), live[..i] + live[i + 1..])
  {
    var n := |counters|;
    var cells := Cells(p, live[i], 0, n);
    forall j | 0 <= j < n ensures DropAll(counters, cells)[j] == Load(p, live[..i] + live[i + 1..], n, j) {
      DropsCount(counters, cells, j);
      LoadWithout(p, live, i, n, j);
    }
  }

  /** What `bloom_filter_remove_optimized` does to a counting filter. */
  ghost function RemovedFrom(p: Params, counters: seq<nat>, key: Bytes): (r: seq<nat>)
    requires |counters| > 0
    ensures |r| == |counters|
  {
    var cells := Cells(p, key, 0, |counters|);
    if key != [] && AllPositive(counters, cells) then DropAll(counters, cells) else counters
  }

  datatype Op = Add(key: Bytes) | Remove(key: Bytes)

  /** The counters and the live keys after a run. */
  datatype Tally = Tally(counters: seq<nat>, live: seq<Bytes>)

  ghost function FirstOf(live: seq<Bytes>, key: Bytes): (i: nat)
    requires key in live
    ensures i < |live| && live[i] == key
  {
    if live[0] == key then 0 else FirstOf(live[1..], key) + 1
  }

  /** A removal takes a key that is live; an addition finds room in every counter. */
  ghost predicate Legal(p: Params, t: Tally, op: Op)
    requires |t.counters| > 0
  {
    op.key != [] &&
    match op
    case Add(k) => Room(p, t.live + [k], |t.counters|)
    case Remove(k) => k in t.live
  }

  ghost function Done(p: Params, t: Tally, op: Op): (r: Tally)
    requires |t.counters| > 0
    ensures |r.counters| == |t.counters|
  {
    match op
    case Add(k) => Tally(BumpAll(t.counters, Cells(p, k, 0, |t.counters|), p.maxCount), t.live + [k])
    case Remove(k) =>
      var live := if k in t.live then (var i := FirstOf(t.live, k); t.live[..i] + t.live[i + 1..]) else t.live;
      Tally(RemovedFrom(p, t.counters, k), live)
  }

  ghost function DoneAll(p: Params, t: Tally, ops: seq<Op>): (r: Tally)
    requires |t.counters| > 0
    ensures |r.counters| == |t.counters|
  {
    if ops == [] then t else Done(p, DoneAll(p, t, ops[..|ops| - 1]), ops[|ops| - 1])
  }

  ghost predicate AllLegal(p: Params, t: Tally, ops: seq<Op>)
    requires |t.counters| > 0
  {
    ops == [] || (AllLegal(p, t, ops[..|ops| - 1]) && Legal(p, DoneAll(p, t, ops[..|ops| - 1]), ops[|ops| - 1]))
  }

  ghost predicate Fitting(p: Params, t: Tally)
    requires |t.counters| > 0
  {
    Exact(p, t.counters, t.live) && forall j :: 0 <= j < |t.counters| ==> t.counters[j] <= p.maxCount
  }

  lemma StepFits(p: Params, t: Tally, op: Op)
    requires |t.counters| > 0 && Fitting(p, t) && Legal(p, t, op)
    ensures Fitting(p, Done(p, t, op))
  {
    hide BumpAll, DropAll, Times, Load, Cells;
    var n, cells := |t.counters|, Cells(p, op.key, 0, |t.counters|);
    match op
    case Add(k) =>
      AddExactIff(p, t.counters, t.live, k);
      forall j | 0 <= j < n ensures Done(p, t, op).counters[j] <= p.maxCount {
        BumpsCount(t.counters, cells, p.maxCount, j);
      }
    case Remove(k) =>
      var i := FirstOf(t.live, k);
      LiveIsPositive(p, t.counters, t.live, i);
      RemoveExact(p, t.counters, t.live, i);
      forall j | 0 <= j < n ensures Done(p, t, op).counters[j] <= p.maxCount {
        DropsCount(t.counters, cells, j);
      }
  }

  /** After any legal run of adds and removes, every key still live tests positive. */
  lemma {:induction false} LiveKeysAreFound(p: Params, t: Tally, ops: seq<Op>)
    requires |t.counters| > 0 && Fitting(p, t) && AllLegal(p, t, ops)
    ensures var end := DoneAll(p, t, ops);
      Fitting(p, end) && forall k :: k in end.live ==> AllPositive(end.counters, Cells(p, k, 0, |end.counters|))
    decreases |ops|
  {
    hide Fitting, Legal, Done;
    if ops != [] {
      LiveKeysAreFound(p, t, ops[..|ops| - 1]);
      StepFits(p, DoneAll(p, t, ops[..|ops| - 1]), ops[|ops| - 1]);
    }
    var end := DoneAll(p, t, ops);
    forall k | k in end.live ensures AllPositive(end.counters, Cells(p, k, 0, |end.counters|)) {
      FittingIsExact(p, end);
      LiveIsPositive(p, end.counters, end.live, FirstOf(end.live, k));
    }
  }

  lemma FittingIsExact(p: Params, t: Tally)
    requires |t.counters| > 0 && Fitting(p, t)
    ensures Exact(p, t.counters, t.live)
  {}

  lemma DoneAppend(p: Params, t: Tally, ops: seq<Op>, op: Op)
    requires |t.counters| > 0
    ensures DoneAll(p, t, ops + [op]) == Done(p, DoneAll(p, t, ops), op)
  {
    assert (ops + [op])[..|ops + [op]| - 1] == ops;
  }

  lemma OneCell(p: Params, key: Bytes, c: nat)
    requires p.hashCount == 1
    ensures Cells(p, key, 0, 1) == [0]
    ensures BumpAll([c], [0], p.maxCount) == [if c < p.maxCount then c + 1 else c]
    ensures DropAll([c], [0]) == [if c > 0 then c - 1 else 0]
    ensures AllPositive([c], [0]) <==> c > 0
  {
    assert [0][..0] == [] && [0][0] == 0;
    assert BumpAll([c], [0], p.maxCount) == Bump(BumpAll([c], [], p.maxCount), 0, p.maxCount);
    assert DropAll([c], [0]) == Drop(DropAll([c], []), 0);
  }

  ghost function Repeat<T>(x: T, n: nat): seq<T> {
    seq(n, _ => x)
  }

  lemma {:induction false} DoneMore(p: Params, t: Tally, ops: seq<Op>, more: seq<Op>)
    requires |t.counters| > 0
    ensures DoneAll(p, t, ops + more) == DoneAll(p, DoneAll(p, t, ops), more)
    decreases |more|
  {
    if more == [] {
      assert ops + more == ops;
    } else {
      var front, op := more[..|more| - 1], more[|more| - 1];
      assert ops + more == (ops + front) + [op] && more == front + [op];
      DoneMore(p, t, ops, front);
      DoneAppend(p, t, ops + front, op);
      DoneAppend(p, DoneAll(p, t, ops), front, op);
    }
  }

  /** `n` additions of one key fill the only counter up to its greatest value. */
  lemma {:induction false} AddsFill(p: Params, a: Bytes, n: nat)
    requires p.hashCount == 1 && n <= p.maxCount
    ensures DoneAll(p, Tally([0], []), Repeat(Add(a), n)) == Tally([n], Repeat(a, n))
  {
    hide Cells, BumpAll, Repeat;
    if n == 0 {
      NoRepeat(Add(a));
      NoRepeat(a);
    } else {
      AddsFill(p, a, n - 1);
      RepeatMore(Add(a), n);
      DoneAppend(p, Tally([0], []), Repeat(Add(a), n - 1), Add(a));
      OneCell(p, a, n - 1);
      RepeatMore(a, n);
    }
  }

  /** `n` removals of `a` lower the counter by `n`, although it did not rise for `b`. */
  lemma {:induction false} RemovesEmpty(p: Params, a: Bytes, b: Bytes, m: nat, n: nat)
    requires p.hashCount == 1 && a != [] && n <= m
    ensures DoneAll(p, Tally([m], Repeat(a, m) + [b]), Repeat(Remove(a), n)) == Tally([m - n], Repeat(a, m - n) + [b])
  {
    hide Done, Repeat;
    var t := Tally([m], Repeat(a, m) + [b]);
    if n == 0 {
      NoRepeat(Remove(a));
    } else {
      RemovesEmpty(p, a, b, m, n - 1);
      RepeatMore(Remove(a), n);
      DoneAppend(p, t, Repeat(Remove(a), n - 1), Remove(a));
      RemoveOne(p, a, b, m - n + 1);
    }
  }

  lemma RemoveOne(p: Params, a: Bytes, b: Bytes, c: nat)
    requires p.hashCount == 1 && a != [] && c > 0
    ensures Done(p, Tally([c], Repeat(a, c) + [b]), Remove(a)) == Tally([c - 1], Repeat(a, c - 1) + [b])
  {
    hide Cells, DropAll, AllPositive;
    OneCell(p, a, c);
    var live := Repeat(a, c) + [b];
    assert live[0] == a;
    assert live[1..] == Repeat(a, c - 1) + [b];
    assert live[..0] + live[1..] == live[1..];
  }

  lemma NoRepeat<T>(x: T)
    ensures Repeat(x, 0) == []
  {}

  lemma RepeatMore<T>(x: T, n: nat)
    requires n > 0
    ensures Repeat(x, n) == Repeat(x, n - 1) + [x]
  {}

  /** As many additions of `a` as a counter can hold, one of `b`, and as many removals of `a`. */
  ghost function Flood(p: Params, a: Bytes, b: Bytes): seq<Op> {
    Repeat(Add(a), p.maxCount) + [Add(b)] + Repeat(Remove(a), p.maxCount)
  }

  /** Whatever a counter can hold, once it is full it forgets: afterwards a live key tests negative. */
  lemma SaturationForgets(p: Params, a: Bytes, b: Bytes)
    requires p.hashCount == 1 && p.maxCount >= 1 && a != [] && b != [] && a != b
    ensures var end := DoneAll(p, Tally([0], []), Flood(p, a, b));
      end == Tally([0], [b]) && b in end.live && !AllPositive(end.counters, Cells(p, b, 0, 1))
    ensures !AllLegal(p, Tally([0], []), Flood(p, a, b))
  {
    hide Cells, BumpAll, DropAll, AllPositive, Repeat, Fitting, AllLegal;
    var t, max := Tally([0], []), p.maxCount;
    var adds, removes := Repeat(Add(a), max), Repeat(Remove(a), max);
    AddsFill(p, a, max);
    DoneAppend(p, t, adds, Add(b));
    OneCell(p, b, max);
    OneCell(p, b, 0);
    DoneMore(p, t, adds + [Add(b)], removes);
    RemovesEmpty(p, a, b, max, max);
    NoneLeft(a);
    var end := DoneAll(p, t, Flood(p, a, b));
    assert end.live[0] == b;
    if AllLegal(p, t, Flood(p, a, b)) {
      NewFits(p);
      LiveKeysAreFound(p, t, Flood(p, a, b));
    }
  }

  lemma NoneLeft(a: Bytes)
    ensures forall b: Bytes :: Repeat(a, 0) + [b] == [b]
  {
    assert Repeat(a, 0) == [];
  }

  lemma NewFits(p: Params)
    ensures Fitting(p, Tally([0], []))
  {}

  /** The greatest value of a counter, `UINT32_MAX`. */
  const COUNTER_MAX: nat := 0xFFFF_FFFF

  /** At the greatest value the filter gives its counters, a key is lost after 2^32 - 1 additions of another. */
  lemma CountersForget(p: Params, a: Bytes, b: Bytes)
    requires p.hashCount == 1 && p.maxCount == COUNTER_MAX && a != [] && b != [] && a != b
    ensures var end := DoneAll(p, Tally([0], []), Flood(p, a, b));
      b in end.live && !AllPositive(end.counters, Cells(p, b, 0, 1))
    ensures |Flood(p, a, b)| == 2 * COUNTER_MAX + 1
  {
    hide DoneAll, AllPositive, Cells;
    SaturationForgets(p, a, b);
  }
}

/** The filter object: arrays of bits, registers and counters that are changed in place. */
module Bloom {
  import opened Bytes
  import opened Bits
  import opened BloomExact
  import opened Words
  import opened BloomSpec

  datatype Status = Done | BadParam | NotFound

  /** A bit field of a standard filter, a block of a blocked one, or a layer of a scalable one. */
  class BitField {
    const bits: array<bv8>
    const size: nat
    const max: nat
    var entries: nat

    ghost function View(): Layer
      reads this, bits
    {
      Layer(bits[..], size, entries, max)
    }

    constructor (size: nat, bytes: nat, max: nat)
      ensures View() == Layer(seq(bytes, _ => 0), size, 0, max) && fresh(bits)
    {
      bits := new bv8[bytes](_ => 0);
      this.size, this.max, entries := size, max, 0;
    }
  }

  ghost predicate AreHashes(p: Params, key: Bytes, hashes: seq<nat>) {
    |hashes| == p.hashCount && forall i :: 0 <= i < p.hashCount ==> hashes[i] == Hash(p, key, i)
  }

  /** `compute_hashes`. */
  method ComputeHashes(p: Params, key: Bytes) returns (hashes: seq<nat>)
    ensures AreHashes(p, key, hashes) && |hashes| == p.hashCount
    ensures forall i :: 0 <= i < |hashes| ==> hashes[i] == (p.h1(key) + i * p.h2(key)) % 0x1_0000_0000_0000_0000
  {
    var h1, h2 := p.h1(key), p.h2(key);
    hashes := [];
    for i := 0 to p.hashCount
      invariant |hashes| == i && forall j :: 0 <= j < i ==> hashes[j] == Hash(p, key, j)
    {
      hashes := hashes + [(h1 + i * h2) % WORD64];
    }
  }

  lemma NextCell(p: Params, key: Bytes, hashes: seq<nat>, from: nat, size: nat, i: nat)
    requires AreHashes(p, key, hashes) && size > 0 && from <= i < p.hashCount
    ensures var cells := Cells(p, key, from, size);
      hashes[i] % size == cells[i - from] && cells[..i + 1 - from][..i - from] == cells[..i - from]
  {}

  /** Sets the bits of the hashes from number `from` on. */
  method Mark(f: BitField, hashes: seq<nat>, from: nat, ghost p: Params, ghost key: Bytes)
    requires LayerOk(f.View()) && AreHashes(p, key, hashes) && from <= p.hashCount
    modifies f.bits
    ensures f.View() == Marked(old(f.View()), Cells(p, key, from, f.size))
  {
    hide Cells, Mask8, Hash;
    ghost var was, cells := f.bits[..], Cells(p, key, from, f.size);
    for i := from to |hashes|
      invariant f.bits[..] == SetBits(was, cells[..i - from])
    {
      NextCell(p, key, hashes, from, f.size, i);
      var at := hashes[i] % f.size;
      ghost var before := f.bits[..];
      f.bits[at / 8] := f.bits[at / 8] | Mask8(at % 8);
      assert f.bits[..] == SetBit(before, at);
    }
    assert cells[..|hashes| - from] == cells;
  }

  /** Whether the bits of the hashes from number `from` on are all set. */
  method Test(f: BitField, hashes: seq<nat>, from: nat, ghost p: Params, ghost key: Bytes) returns (r: bool)
    requires LayerOk(f.View()) && AreHashes(p, key, hashes) && from <= p.hashCount
    ensures r == LayerHas(p, f.View(), key, from)
  {
    hide Cells, Mask8, Hash;
    ghost var cells := Cells(p, key, from, f.size);
    var i := from;
    while i < |hashes|
      invariant from <= i <= |hashes|
      invariant forall j :: 0 <= j < i - from ==> BitOn(f.bits[..], cells[j])
    {
      NextCell(p, key, hashes, from, f.size, i);
      var at := hashes[i] % f.size;
      if f.bits[at / 8] & Mask8(at % 8) == 0 {
        assert !BitOn(f.bits[..], cells[i - from]);
        return false;
      }
      i := i + 1;
    }
    return true;
  }

  /** The register mask of the hashes from number 1 on. */
  method RegisterMask(hashes: seq<nat>, ghost p: Params, ghost key: Bytes) returns (mask: bv64)
    requires AreHashes(p, key, hashes) && p.hashCount >= 1
    ensures mask == BitsOf(Cells(p, key, 1, 64))
  {
    hide Cells, Hash, Or64, Bit64;
    ghost var cells := Cells(p, key, 1, 64);
    mask := 0;
    for i := 1 to |hashes|
      invariant mask == BitsOf(cells[..i - 1])
    {
      NextCell(p, key, hashes, 1, 64, i);
      mask := Or64(mask, Bit64(hashes[i] % 64));
    }
    assert cells[..|hashes| - 1] == cells;
  }

  method BumpCounters(counters: array<nat>, max: nat, hashes: seq<nat>, ghost p: Params, ghost key: Bytes)
    requires counters.Length > 0 && AreHashes(p, key, hashes)
    modifies counters
    ensures counters[..] == BumpAll(old(counters[..]), Cells(p, key, 0, counters.Length), max)
  {
    hide Cells, Hash;
    ghost var was, cells := counters[..], Cells(p, key, 0, counters.Length);
    for i := 0 to |hashes|
      invariant counters[..] == BumpAll(was, cells[..i], max)
    {
      NextCell(p, key, hashes, 0, counters.Length, i);
      var at := hashes[i] % counters.Length;
      ghost var before := counters[..];
      if counters[at] < max {
        counters[at] := counters[at] + 1;
      }
      assert counters[..] == Bump(before, at, max);
    }
    assert cells[..|hashes|] == cells;
  }

  method DropCounters(counters: array<nat>, hashes: seq<nat>, ghost p: Params, ghost key: Bytes)
    requires counters.Length > 0 && AreHashes(p, key, hashes)
    modifies counters
    ensures counters[..] == DropAll(old(counters[..]), Cells(p, key, 0, counters.Length))
  {
    hide Cells, Hash;
    ghost var was, cells := counters[..], Cells(p, key, 0, counters.Length);
    for i := 0 to |hashes|
      invariant counters[..] == DropAll(was, cells[..i])
    {
      NextCell(p, key, hashes, 0, counters.Length, i);
      var at := hashes[i] % counters.Length;
      ghost var before := counters[..];
      if counters[at] > 0 {
        counters[at] := counters[at] - 1;
      }
      assert counters[..] == Drop(before, at);
    }
    assert cells[..|hashes|] == cells;
  }

  method TestCounters(counters: array<nat>, hashes: seq<nat>, ghost p: Params, ghost key: Bytes) returns (r: bool)
    requires counters.Length > 0 && AreHashes(p, key, hashes)
    ensures r == AllPositive(counters[..], Cells(p, key, 0, counters.Length))
  {
    hide Cells, Hash;
    ghost var cells := Cells(p, key, 0, counters.Length);
    var i := 0;
    while i < |hashes|
      invariant 0 <= i <= |hashes| && forall j :: 0 <= j < i ==> counters[cells[j]] > 0
    {
      NextCell(p, key, hashes, 0, counters.Length, i);
      if counters[hashes[i] % counters.Length] == 0 {
        assert !(counters[..][cells[i]] > 0);
        return false;
      }
      i := i + 1;
    }
    return true;
  }

  // ----- several bit fields

  ghost function Footprint(fs: seq<BitField>): set<object> {
    (set f | f in fs :: f as object) + (set f | f in fs :: f.bits as object)
  }

  ghost predicate Apart(fs: seq<BitField>) {
    forall i, j :: 0 <= i < j < |fs| ==> fs[i] != fs[j] && fs[i].bits != fs[j].bits
  }

  ghost function Views(fs: seq<BitField>): (r: seq<Layer>)
    reads Footprint(fs)
    ensures |r| == |fs| && forall i :: 0 <= i < |fs| ==> r[i] == fs[i].View()
  {
    if fs == [] then [] else Views(fs[..|fs| - 1]) + [fs[|fs| - 1].View()]
  }

  /** Marks the field at `i`; counts the entry there if asked to. */
  method MarkAt(ghost fs: seq<BitField>, ghost i: nat, f: BitField, count: bool, hashes: seq<nat>, from: nat,
    ghost p: Params, ghost key: Bytes)
    requires Apart(fs) && i < |fs| && f == fs[i] && LayerOk(f.View()) && AreHashes(p, key, hashes)
    requires from <= p.hashCount
    modifies f`entries, f.bits
    ensures var l := Marked(old(Views(fs))[i], Cells(p, key, from, f.size));
      Views(fs) == old(Views(fs))[i := if count then Counted(l) else l]
  {
    hide Marked, Cells, AreHashes, SetBits;
    Mark(f, hashes, from, p, key);
    if count {
      f.entries := f.entries + 1;
    }
    ghost var l := Marked(old(Views(fs))[i], Cells(p, key, from, f.size));
    ghost var want := old(Views(fs))[i := if count then Counted(l) else l];
    forall j | 0 <= j < |fs| ensures Views(fs)[j] == want[j] {
      assert j < i ==> fs[j] != fs[i] && fs[j].bits != fs[i].bits;
      assert i < j ==> fs[i] != fs[j] && fs[j].bits != fs[i].bits;
    }
  }

  method NewFields(n: nat, size: nat, bytes: nat, max: nat) returns (fs: seq<BitField>)
    requires size > 0
    ensures |fs| == n && Apart(fs) && fresh(Footprint(fs))
    ensures forall j :: 0 <= j < n ==> fs[j].View() == Layer(seq(bytes, _ => 0), size, 0, max)
  {
    fs := [];
    for i := 0 to n
      invariant |fs| == i && Apart(fs) && (forall j :: 0 <= j < i ==> fresh(fs[j]) && fresh(fs[j].bits))
      invariant forall j :: 0 <= j < i ==> fs[j].View() == Layer(seq(bytes, _ => 0), size, 0, max)
    {
      var f := new BitField(size, bytes, max);
      fs := fs + [f];
    }
  }

  /** Looks through all layers. */
  method TestLayers(fs: seq<BitField>, hashes: seq<nat>, ghost p: Params, ghost key: Bytes) returns (r: bool)
    requires AreHashes(p, key, hashes) && forall i :: 0 <= i < |fs| ==> LayerOk(fs[i].View())
    ensures r == exists i :: 0 <= i < |fs| && LayerHas(p, fs[i].View(), key, 0)
  {
    hide LayerHas, AreHashes, LayerOk;
    r := false;
    var i := 0;
    while i < |fs| && !r
      invariant 0 <= i <= |fs|
      invariant r ==> i > 0 && LayerHas(p, fs[i - 1].View(), key, 0)
      invariant !r ==> forall j :: 0 <= j < i ==> !LayerHas(p, fs[j].View(), key, 0)
    {
      r := Test(fs[i], hashes, 0, p, key);
      i := i + 1;
    }
  }

  lemma NotMine(fs: seq<BitField>, o: BitFilter)
    ensures o !in Footprint(fs)
  {}

  /** A standard, blocked or scalable filter. */
  class BitFilter {
    const layout: Layout
    const p: Params
    var fields: seq<BitField>
    var entries: int

    ghost function View(): State
      reads this, Footprint(fields)
    {
      State(layout, Views(fields), [], [], entries)
    }

    /** There are 1 to 16 hash functions, and the fields are separate. */
    ghost predicate Valid()
      reads this, Footprint(fields)
    {
      1 <= p.hashCount <= 16 && (layout == Standard || layout == Blocked || layout == Scalable) && Apart(fields)
        && Ok(View())
    }

    /**
      An empty filter of `count` blocks, or one field, of `size` bits. A block is given `size / 8` bytes,
      rounded down, so that its last bits have no place unless the size is a multiple of 8.
     */
    constructor (layout: Layout, p: Params, size: nat, count: nat, max: nat)
      requires 1 <= p.hashCount <= 16 && size > 0 && count > 0
      requires layout == Standard || layout == Blocked || layout == Scalable
      ensures Valid() <==> (layout == Blocked ==> size % 8 == 0)
      ensures this.layout == layout && this.p == p && entries == 0 && Blank(View())
      ensures |View().layers| == if layout == Blocked then count else 1
      ensures forall i :: 0 <= i < |View().layers| ==>
        View().layers[i] ==
          Layer(seq(if layout == Blocked then size / 8 else (size + 7) / 8, _ => 0), size, 0, max)
      ensures fresh(Footprint(fields))
    {
      hide Views, Footprint;
      this.layout, this.p, entries := layout, p, 0;
      var bytes := if layout == Blocked then size / 8 else (size + 7) / 8;
      var fs := NewFields(if layout == Blocked then count else 1, size, bytes, max);
      fields := fs;
      new;
      assert Views(fields)[0] == fields[0].View();
      forall i | 0 <= i < |fields| ensures Dark(Views(fields)[i]) {
        ZerosAreDark(bytes, size, 0, max);
      }
    }

    /** `bloom_filter_add_optimized` for these layouts. */
    method Add(key: Bytes) returns (st: Status)
      requires Valid()
      modifies this, Footprint(fields)
      ensures Valid() && View() == Added(p, old(View()), key)
      ensures st == if key == [] then BadParam else Done
      ensures forall o :: o in Footprint(fields) && o !in old(Footprint(fields)) ==> fresh(o)
    {
      hide Ok, Added, Views, AreHashes;
      AddedNothing(p, View());
      if key == [] {
        return BadParam;
      }
      AddedOk(p, View(), key);
      var hashes := ComputeHashes(p, key);
      match layout {
        case Standard => AddStandard(key, hashes);
        case Blocked => AddBlocked(key, hashes);
        case Scalable => AddScalable(key, hashes);
      }
      return Done;
    }

    method AddStandard(key: Bytes, hashes: seq<nat>)
      requires Valid() && key != [] && AreHashes(p, key, hashes) && layout == Standard
      modifies this`entries, Footprint(fields)
      ensures View() == Added(p, old(View()), key)
    {
      hide Cells, Marked, SetBits, AreHashes, Views;
      MarkAt(fields, 0, fields[0], false, hashes, 0, p, key);
      NotMine(fields, this);
      entries := entries + 1;
    }

    method AddBlocked(key: Bytes, hashes: seq<nat>)
      requires Valid() && key != [] && AreHashes(p, key, hashes) && layout == Blocked
      modifies this`entries, Footprint(fields)
      ensures View() == Added(p, old(View()), key)
    {
      hide Cells, Marked, SetBits, Views, Hash;
      var at := hashes[0] % |fields|;
      MarkAt(fields, at, fields[at], true, hashes, 1, p, key);
      NotMine(fields, this);
      entries := entries + 1;
    }

    method AddScalable(key: Bytes, hashes: seq<nat>)
      requires Valid() && key != [] && AreHashes(p, key, hashes) && layout == Scalable
      modifies this`entries, this`fields, Footprint(fields)
      ensures View() == Added(p, old(View()), key) && Apart(fields)
      ensures forall o :: o in Footprint(fields) && o !in old(Footprint(fields)) ==> fresh(o)
    {
      hide Cells, Marked, SetBits, AreHashes, Views, Grown;
      Grow();
      MarkAt(fields, |fields| - 1, fields[|fields| - 1], true, hashes, 0, p, key);
      NotMine(fields, this);
      entries := entries + 1;
    }

    /** Opens a new layer when the current one is full. */
    method Grow()
      requires Valid() && layout == Scalable
      modifies this`fields
      ensures Valid() && View() == old(View()).(layers := Grown(old(View()).layers))
      ensures forall o :: o in Footprint(fields) && o !in old(Footprint(fields)) ==> fresh(o)
    {
      hide Views;
      var l := fields[|fields| - 1];
      ghost var was := Views(fields);
      if l.entries >= l.max {
        var f := new BitField(2 * l.size, (2 * l.size + 7) / 8, 2 * l.max);
        NotMine(fields, this);
        fields := fields + [f];
        assert Views(fields) == was + [Doubled(l.View())];
      }
    }

    /** `bloom_filter_may_contain_optimized` for these layouts. */
    method Contains(key: Bytes) returns (r: bool)
      requires Valid()
      ensures r == MayContain(p, View(), key)
    {
      hide Cells, Views, LayerHas, LayerOk, Hash, Footprint;
      if key == [] {
        return false;
      }
      var hashes := ComputeHashes(p, key);
      match layout {
        case Standard =>
          r := Test(fields[0], hashes, 0, p, key);
        case Blocked =>
          var at := hashes[0] % |fields|;
          r := Test(fields[at], hashes, 1, p, key);
        case Scalable =>
          r := TestLayers(fields, hashes, p, key);
      }
    }

    /** The bits that the batch operation sets for one key; the other layouts are not implemented. */
    method SetInBatch(key: Bytes, hashes: seq<nat>) returns (added: bool)
      requires Valid() && key != [] && AreHashes(p, key, hashes)
      modifies Footprint(fields)
      ensures added <==> Batches(layout)
      ensures View().(entries := if added then entries + 1 else entries) ==
        if added then Added(p, old(View()), key) else old(View())
    {
      hide Cells, Marked, SetBits, Views, Hash;
      NotMine(fields, this);
      added := true;
      match layout {
        case Standard =>
          MarkAt(fields, 0, fields[0], false, hashes, 0, p, key);
        case Blocked =>
          var at := hashes[0] % |fields|;
          MarkAt(fields, at, fields[at], true, hashes, 1, p, key);
        case _ =>
          added := false;
      }
    }

    /** `bloom_filter_add_batch_optimized`: the same state as adding the keys one by one, or nothing. */
    method AddBatch(keys: seq<Bytes>) returns (n: nat)
      requires Valid()
      modifies this`entries, Footprint(fields)
      ensures Valid() && View() == Batched(p, old(View()), keys)
      ensures n ==
        if layout == Standard || layout == Blocked then |set i: nat | i < |keys| && keys[i] != []| else 0
    {
      hide Added, AddedAll, Ok, Views, AreHashes, NonEmpty;
      n := 0;
      NoneAdded(p, View());
      NoKeys(keys);
      NotMine(fields, this);
      for i := 0 to |keys|
        invariant fields == old(fields) && Valid() && View() == Batched(p, old(View()), keys[..i])
        invariant n == if Batches(layout) then NonEmpty(keys[..i]) else 0
      {
        OneMore(p, old(View()), keys, i);
        AddedNothing(p, View());
        AddedOk(p, View(), keys[i]);
        if keys[i] != [] {
          var hashes := ComputeHashes(p, keys[i]);
          var added := SetInBatch(keys[i], hashes);
          if added {
            n := n + 1;
            entries := entries + 1;
          }
        }
      }
      assert keys[..|keys|] == keys;
      NonEmptyCounts(keys);
    }
  }

  lemma NoKeys(keys: seq<Bytes>)
    ensures keys[..0] == [] && NonEmpty(keys[..0]) == 0
  {}

  lemma PlaceIs(p: Params, key: Bytes, hashes: seq<nat>, n: nat)
    requires AreHashes(p, key, hashes) && p.hashCount >= 1 && n > 0
    ensures |hashes| >= 1 && hashes[0] % n == Place(p, key, n) < n
  {}

  lemma AddedRegister(p: Params, st: State, key: Bytes, at: nat, mask: bv64)
    requires Ok(st) && st.layout == Registers && key != [] && at == Place(p, key, |st.registers|)
    requires mask == BitsOf(Cells(p, key, 1, 64))
    ensures Added(p, st, key) == st.(registers := WithMask(st.registers, at, mask), entries := st.entries + 1)
  {
    hide Cells, BitsOf, Place, Or64, CoversMask;
  }

  ghost function WithMask(rs: seq<bv64>, at: nat, mask: bv64): seq<bv64>
    requires at < |rs|
  {
    rs[at := Or64(rs[at], mask)]
  }

  lemma HasRegister(p: Params, st: State, key: Bytes, at: nat, mask: bv64)
    requires Ok(st) && st.layout == Registers && key != [] && at == Place(p, key, |st.registers|)
    requires mask == BitsOf(Cells(p, key, 1, 64))
    ensures MayContain(p, st, key) == CoversMask(st.registers[at], mask)
  {
    hide Cells, BitsOf, Place, Or64, CoversMask;
  }

  method SetRegister(registers: array<bv64>, at: nat, mask: bv64)
    requires at < registers.Length
    modifies registers
    ensures registers[..] == WithMask(old(registers[..]), at, mask)
  {
    hide Or64;
    registers[at] := Or64(registers[at], mask);
  }

  /** A register-blocked filter. */
  class RegisterFilter {
    const p: Params
    const registers: array<bv64>
    var entries: int

    ghost function View(): State
      reads this, registers
    {
      State(Registers, [], registers[..], [], entries)
    }

    ghost predicate Valid()
      reads this, registers
    {
      1 <= p.hashCount <= 16 && Ok(View())
    }

    constructor (p: Params, count: nat)
      requires 1 <= p.hashCount <= 16 && count > 0
      ensures Valid() && this.p == p && entries == 0 && fresh(registers) && registers.Length == count && Blank(View())
    {
      this.p, entries := p, 0;
      registers := new bv64[count](_ => 0);
    }

    /** `bloom_filter_add_optimized` for this layout. */
    method Add(key: Bytes) returns (st: Status)
      requires Valid()
      modifies this, registers
      ensures Valid() && View() == Added(p, old(View()), key)
      ensures st == if key == [] then BadParam else Done
    {
      if key == [] {
        return BadParam;
      }
      hide Cells, Hash, BitsOf, AreHashes, Added, Place, Or64;
      var hashes := ComputeHashes(p, key);
      PlaceIs(p, key, hashes, registers.Length);
      var at := hashes[0] % registers.Length;
      var mask := RegisterMask(hashes, p, key);
      AddedRegister(p, View(), key, at, mask);
      SetRegister(registers, at, mask);
      entries := entries + 1;
      return Done;
    }

    /** `bloom_filter_may_contain_optimized` for this layout. */
    method Contains(key: Bytes) returns (r: bool)
      requires Valid()
      ensures r == MayContain(p, View(), key)
    {
      if key == [] {
        return false;
      }
      hide Cells, Hash, BitsOf, AreHashes, MayContain, Place, CoversMask;
      var hashes := ComputeHashes(p, key);
      PlaceIs(p, key, hashes, registers.Length);
      var mask := RegisterMask(hashes, p, key);
      var at := hashes[0] % registers.Length;
      HasRegister(p, View(), key, at, mask);
      r := CoversMask(registers[at], mask);
    }

    /** `bloom_filter_add_batch_optimized` for this layout. */
    method AddBatch(keys: seq<Bytes>) returns (n: nat)
      requires Valid()
      modifies this, registers
      ensures Valid() && View() == Batched(p, old(View()), keys)
      ensures n == |set i: nat | i < |keys| && keys[i] != []|
    {
      hide Cells, Hash, BitsOf, AreHashes, Added, AddedAll, Place, Or64, NonEmpty;
      n := 0;
      NoneAdded(p, View());
      NoKeys(keys);
      for i := 0 to |keys|
        invariant Valid() && View() == AddedAll(p, old(View()), keys[..i]) && n == NonEmpty(keys[..i])
      {
        OneMore(p, old(View()), keys, i);
        AddedNothing(p, View());
        if keys[i] != [] {
          var hashes := ComputeHashes(p, keys[i]);
          PlaceIs(p, keys[i], hashes, registers.Length);
          var at := hashes[0] % registers.Length;
          var mask := RegisterMask(hashes, p, keys[i]);
          AddedRegister(p, View(), keys[i], at, mask);
          SetRegister(registers, at, mask);
          n := n + 1;
          entries := entries + 1;
        }
      }
      assert keys[..|keys|] == keys;
      NonEmptyCounts(keys);
    }
  }

  /** A counting filter, which alone can take keys back. */
  class CountingFilter {
    const p: Params
    const counters: array<nat>
    var entries: int

    ghost function View(): State
      reads this, counters
    {
      State(Counting, [], [], counters[..], entries)
    }

    ghost predicate Valid()
      reads this, counters
    {
      1 <= p.hashCount <= 16 && Ok(View())
    }

    constructor (p: Params, size: nat)
      requires 1 <= p.hashCount <= 16 && size > 0
      ensures Valid() && this.p == p && entries == 0 && fresh(counters)
      ensures Fitting(p, Tally(counters[..], [])) && counters.Length == size && Blank(View())
    {
      this.p, entries := p, 0;
      counters := new nat[size](_ => 0);
    }

    /** `bloom_filter_add_optimized` for this layout. */
    method Add(key: Bytes) returns (st: Status)
      requires Valid()
      modifies this, counters
      ensures Valid() && View() == Added(p, old(View()), key)
      ensures st == if key == [] then BadParam else Done
    {
      if key == [] {
        return BadParam;
      }
      hide Cells, AreHashes, BumpAll;
      var hashes := ComputeHashes(p, key);
      BumpCounters(counters, p.maxCount, hashes, p, key);
      entries := entries + 1;
      return Done;
    }

    /** `bloom_filter_may_contain_optimized` for this layout. */
    method Contains(key: Bytes) returns (r: bool)
      requires Valid()
      ensures r == MayContain(p, View(), key)
    {
      if key == [] {
        return false;
      }
      hide Cells, AreHashes, AllPositive;
      var hashes := ComputeHashes(p, key);
      r := TestCounters(counters, hashes, p, key);
    }

    /** `bloom_filter_add_batch_optimized`: the keys are hashed, but this layout has no case that adds them. */
    method AddBatch(keys: seq<Bytes>) returns (n: nat)
      requires Valid()
      ensures n == 0 && View() == Batched(p, View(), keys) == old(View())
    {
      n := 0;
      for i := 0 to |keys| {
        if keys[i] != [] {
          var hashes := ComputeHashes(p, keys[i]);
        }
      }
    }

    /** `bloom_filter_remove_optimized`. */
    method Remove(key: Bytes) returns (st: Status)
      requires Valid()
      modifies this, counters
      ensures Valid()
      ensures st == if key == [] then BadParam else if old(MayContain(p, View(), key)) then Done else NotFound
      ensures counters[..] == RemovedFrom(p, old(counters[..]), key)
      ensures st != Done ==> counters[..] == old(counters[..])
      ensures st == Done ==> forall j :: 0 <= j < counters.Length ==>
        var n := Times(Cells(p, key, 0, counters.Length), j);
        counters[j] == if n <= old(counters[j]) then old(counters[j]) - n else 0
      ensures entries == if st == Done then old(entries) - 1 else old(entries)
    {
      if key == [] {
        return BadParam;
      }
      hide Cells, DropAll, AllPositive, AreHashes;
      var hashes := ComputeHashes(p, key);
      var positive := TestCounters(counters, hashes, p, key);
      if !positive {
        return NotFound;
      }
      ghost var before, cells := counters[..], Cells(p, key, 0, counters.Length);
      DropCounters(counters, hashes, p, key);
      entries := entries - 1;
      forall j | 0 <= j < counters.Length
        ensures counters[j] == if Times(cells, j) <= before[j] then before[j] - Times(cells, j) else 0
      {
        DropsCount(before, cells, j);
      }
      return Done;
    }
  }

  /** A new standard filter of 1024 bits finds no key. */
  method NewFindsNothing(p: Params, key: Bytes) returns (found: bool)
    requires 1 <= p.hashCount <= 16
    ensures !found
  {
    hide Views, MayContain, Blank, Ok;
    var f := new BitFilter(Standard, p, 1024, 1, 100);
    NewAnswersIff(p, f.View(), key);
    found := f.Contains(key);
  }

  /** A filter of blocks with a single hash finds every key before anything has been added. */
  method NewFindsAnything(p: Params, key: Bytes) returns (found: bool)
    requires p.hashCount == 1 && key != []
    ensures found
  {
    hide Views, MayContain, Blank, Ok;
    var f := new BitFilter(Blocked, p, 512, 2, 100);
    NewAnswersIff(p, f.View(), key);
    found := f.Contains(key);
  }
}
