/** What a Bloom filter answers, exactly: which keys test positive after a run of additions, and which do not. */
module BloomExact {
  import opened Bytes
  import opened Bits
  import opened BloomSpec

  // ----- what the added keys have set

  /** One of the keys has a hash, from number `from` on, that falls into cell `c` of `size`. */
  ghost predicate Touches(p: Params, keys: seq<Bytes>, from: nat, size: nat, c: nat)
    requires size > 0
  {
    exists k, i: nat :: k in keys && k != [] && from <= i < p.hashCount && Hash(p, k, i) % size == c
  }

  /** The same of those keys whose first hash falls into place `b` of `n`. */
  ghost predicate TouchesIn(p: Params, keys: seq<Bytes>, n: nat, b: nat, size: nat, c: nat)
    requires size > 0 && n > 0
  {
    exists k, i: nat ::
      k in keys && k != [] && Hash(p, k, 0) % n == b && 1 <= i < p.hashCount && Hash(p, k, i) % size == c
  }

  lemma CellIs(p: Params, key: Bytes, from: nat, size: nat, c: nat)
    requires size > 0
    ensures c in Cells(p, key, from, size) <==>
      exists i: nat :: from <= i < p.hashCount && Hash(p, key, i) % size == c
  {
    hide Hash;
    var cells := Cells(p, key, from, size);
    if c in cells {
      var j :| 0 <= j < |cells| && cells[j] == c;
      assert Hash(p, key, from + j) % size == c;
    }
    if i: nat :| from <= i < p.hashCount && Hash(p, key, i) % size == c {
      assert cells[i - from] == c;
    }
  }

  lemma Membership(keys: seq<Bytes>, k: Bytes)
    requires keys != []
    ensures k in keys <==> k in keys[..|keys| - 1] || k == keys[|keys| - 1]
  {}

  lemma TouchesMore(p: Params, keys: seq<Bytes>, from: nat, size: nat, c: nat)
    requires size > 0 && keys != []
    ensures var before, last := keys[..|keys| - 1], keys[|keys| - 1];
      Touches(p, keys, from, size, c) <==>
        Touches(p, before, from, size, c) || (last != [] && c in Cells(p, last, from, size))
  {
    hide Hash, Cells;
    var before, last := keys[..|keys| - 1], keys[|keys| - 1];
    CellIs(p, last, from, size, c);
    forall k ensures k in keys <==> k in before || k == last { Membership(keys, k); }
    if last != [] && c in Cells(p, last, from, size) {
      var i: nat :| from <= i < p.hashCount && Hash(p, last, i) % size == c;
      assert last in keys;
    }
  }

  lemma TouchesInMore(p: Params, keys: seq<Bytes>, n: nat, b: nat, size: nat, c: nat)
    requires size > 0 && n > 0 && keys != []
    ensures var before, last := keys[..|keys| - 1], keys[|keys| - 1];
      TouchesIn(p, keys, n, b, size, c) <==>
        TouchesIn(p, before, n, b, size, c) || (last != [] && Hash(p, last, 0) % n == b && c in Cells(p, last, 1, size))
  {
    hide Hash, Cells;
    var before, last := keys[..|keys| - 1], keys[|keys| - 1];
    CellIs(p, last, 1, size, c);
    forall k ensures k in keys <==> k in before || k == last { Membership(keys, k); }
    if last != [] && Hash(p, last, 0) % n == b && c in Cells(p, last, 1, size) {
      var i: nat :| 1 <= i < p.hashCount && Hash(p, last, i) % size == c;
      assert last in keys;
    }
  }

  ghost predicate Dark(l: Layer) {
    forall c :: 0 <= c < 8 * |l.bits| ==> !BitOn(l.bits, c)
  }

  lemma AllOnIs(p: Params, l: Layer, key: Bytes, from: nat)
    requires LayerOk(l)
    ensures LayerHas(p, l, key, from) <==>
      forall j: nat :: from <= j < p.hashCount ==> BitOn(l.bits, Hash(p, key, j) % l.size)
  {
    hide Hash, BitOn;
    var cells := Cells(p, key, from, l.size);
    assert forall j: nat :: from <= j < p.hashCount ==> cells[j - from] == Hash(p, key, j) % l.size;
    if LayerHas(p, l, key, from) {
      forall j: nat | from <= j < p.hashCount ensures BitOn(l.bits, Hash(p, key, j) % l.size) {
        assert BitOn(l.bits, cells[j - from]);
      }
    }
    if forall j: nat :: from <= j < p.hashCount ==> BitOn(l.bits, Hash(p, key, j) % l.size) {
      forall i | 0 <= i < |cells| ensures BitOn(l.bits, cells[i]) {
        assert cells[i] == Hash(p, key, from + i) % l.size;
      }
    }
  }

  // ----- the standard layout

  lemma {:induction false} StandardBits(p: Params, st: State, keys: seq<Bytes>, c: nat)
    requires Ok(st) && st.layout == Standard && Dark(st.layers[0]) && c < st.layers[0].size
    ensures var end := AddedAll(p, st, keys);
      && end.layout == Standard && |end.layers| == 1 && end.layers[0].size == st.layers[0].size
      && (BitOn(end.layers[0].bits, c) <==> Touches(p, keys, 0, st.layers[0].size, c))
    decreases |keys|
  {
    hide Cells, BitOn, SetBits, Touches;
    if keys == [] {
      NothingTouches(p, 0, st.layers[0].size, c);
      assert !BitOn(st.layers[0].bits, c);
    } else {
      var before, last := keys[..|keys| - 1], keys[|keys| - 1];
      StandardBits(p, st, before, c);
      TouchesMore(p, keys, 0, st.layers[0].size, c);
      var l := AddedAll(p, st, before).layers[0];
      SetBitsIsExact(l.bits, Cells(p, last, 0, l.size), c);
    }
  }

  lemma NothingTouches(p: Params, from: nat, size: nat, c: nat)
    requires size > 0
    ensures !Touches(p, [], from, size, c)
  {}

  /** A key tests positive exactly if each of its cells is a cell of some added key. */
  lemma StandardIsExact(p: Params, st: State, keys: seq<Bytes>, key: Bytes)
    requires Ok(st) && st.layout == Standard && Dark(st.layers[0])
    ensures MayContain(p, AddedAll(p, st, keys), key) <==>
      key != [] && forall j: nat :: j < p.hashCount ==>
        Touches(p, keys, 0, st.layers[0].size, Hash(p, key, j) % st.layers[0].size)
  {
    hide Hash, Touches, LayerHas;
    var end, size := AddedAll(p, st, keys), st.layers[0].size;
    StandardBits(p, st, keys, 0);
    AllOnIs(p, end.layers[0], key, 0);
    forall j: nat | j < p.hashCount
      ensures BitOn(end.layers[0].bits, Hash(p, key, j) % size) <==> Touches(p, keys, 0, size, Hash(p, key, j) % size)
    {
      StandardBits(p, st, keys, Hash(p, key, j) % size);
    }
  }

  // ----- blocks

  lemma {:induction false} BlockedBits(p: Params, st: State, keys: seq<Bytes>, b: nat, c: nat)
    requires Ok(st) && st.layout == Blocked && b < |st.layers| && Dark(st.layers[b]) && c < st.layers[b].size
    ensures var end := AddedAll(p, st, keys);
      && end.layout == Blocked && |end.layers| == |st.layers| && end.layers[b].size == st.layers[b].size
      && (BitOn(end.layers[b].bits, c) <==> TouchesIn(p, keys, |st.layers|, b, st.layers[b].size, c))
    decreases |keys|
  {
    hide Cells, BitOn, SetBits, TouchesIn;
    if keys == [] {
      NothingTouchesIn(p, |st.layers|, b, st.layers[b].size, c);
      assert !BitOn(st.layers[b].bits, c);
    } else {
      var before, last := keys[..|keys| - 1], keys[|keys| - 1];
      BlockedBits(p, st, before, b, c);
      TouchesInMore(p, keys, |st.layers|, b, st.layers[b].size, c);
      var l := AddedAll(p, st, before).layers[b];
      SetBitsIsExact(l.bits, Cells(p, last, 1, l.size), c);
    }
  }

  lemma NothingTouchesIn(p: Params, n: nat, b: nat, size: nat, c: nat)
    requires size > 0 && n > 0
    ensures !TouchesIn(p, [], n, b, size, c)
  {}

  /** The same within the block that the first hash chooses. */
  lemma BlockedIsExact(p: Params, st: State, keys: seq<Bytes>, key: Bytes)
    requires Ok(st) && st.layout == Blocked && forall b :: 0 <= b < |st.layers| ==> Dark(st.layers[b])
    ensures var n := |st.layers|;
      var b := Hash(p, key, 0) % n;
      MayContain(p, AddedAll(p, st, keys), key) <==>
        key != [] && forall j: nat :: 1 <= j < p.hashCount ==>
          TouchesIn(p, keys, n, b, st.layers[b].size, Hash(p, key, j) % st.layers[b].size)
  {
    hide Hash, TouchesIn, LayerHas;
    var end, n := AddedAll(p, st, keys), |st.layers|;
    var b := Hash(p, key, 0) % n;
    var size := st.layers[b].size;
    BlockedBits(p, st, keys, b, 0);
    AllOnIs(p, end.layers[b], key, 1);
    forall j: nat | 1 <= j < p.hashCount
      ensures BitOn(end.layers[b].bits, Hash(p, key, j) % size) <==>
        TouchesIn(p, keys, n, b, size, Hash(p, key, j) % size)
    {
      BlockedBits(p, st, keys, b, Hash(p, key, j) % size);
    }
  }

  // ----- registers

  lemma {:induction false} MaskBits(cells: seq<nat>, c: nat)
    requires Within(cells, 64) && c < 64
    ensures RegisterOn(BitsOf(cells), c) <==> c in cells
    decreases |cells|
  {
    hide Bit64, Or64, RegisterOn;
    if cells == [] {
      NoBits(c);
    } else {
      var before, last := cells[..|cells| - 1], cells[|cells| - 1];
      MaskBits(before, c);
      OrSplits(BitsOf(before), Bit64(last), c);
      BitsApart(last, c);
      assert c in cells <==> c in before || c == last;
    }
  }

  lemma {:induction false} CoversAll(r: bv64, cells: seq<nat>)
    requires Within(cells, 64)
    ensures CoversMask(r, BitsOf(cells)) <==> forall i :: 0 <= i < |cells| ==> RegisterOn(r, cells[i])
    decreases |cells|
  {
    hide Bit64, Or64, CoversMask, RegisterOn;
    if cells == [] {
      CoversNothing(r);
    } else {
      var before, last := cells[..|cells| - 1], cells[|cells| - 1];
      CoversAll(r, before);
      CoverSplits(r, BitsOf(before), Bit64(last));
      OneBit(r, last);
      assert (forall i :: 0 <= i < |cells| ==> RegisterOn(r, cells[i])) <==>
        (forall i :: 0 <= i < |before| ==> RegisterOn(r, before[i])) && RegisterOn(r, last);
    }
  }

  lemma {:induction false} RegisterBits(p: Params, st: State, keys: seq<Bytes>, b: nat, c: nat)
    requires Ok(st) && st.layout == Registers && b < |st.registers| && st.registers[b] == 0 && c < 64
    ensures var end := AddedAll(p, st, keys);
      && end.layout == Registers && |end.registers| == |st.registers|
      && (RegisterOn(end.registers[b], c) <==> TouchesIn(p, keys, |st.registers|, b, 64, c))
    decreases |keys|
  {
    hide Cells, RegisterOn, BitsOf, Or64, TouchesIn;
    if keys == [] {
      NothingTouchesIn(p, |st.registers|, b, 64, c);
      NoBits(c);
    } else {
      var before, last := keys[..|keys| - 1], keys[|keys| - 1];
      RegisterBits(p, st, before, b, c);
      TouchesInMore(p, keys, |st.registers|, b, 64, c);
      MergedBits(AddedAll(p, st, before).registers[b], Cells(p, last, 1, 64), c);
    }
  }

  lemma MergedBits(r: bv64, cells: seq<nat>, c: nat)
    requires Within(cells, 64) && c < 64
    ensures RegisterOn(Or64(r, BitsOf(cells)), c) <==> RegisterOn(r, c) || c in cells
  {
    hide BitsOf, Bit64, Or64, RegisterOn;
    OrSplits(r, BitsOf(cells), c);
    MaskBits(cells, c);
  }

  /** The same within the register that the first hash chooses. */
  lemma RegistersAreExact(p: Params, st: State, keys: seq<Bytes>, key: Bytes)
    requires Ok(st) && st.layout == Registers && forall b :: 0 <= b < |st.registers| ==> st.registers[b] == 0
    ensures var n := |st.registers|;
      MayContain(p, AddedAll(p, st, keys), key) <==>
        key != [] && forall j: nat :: 1 <= j < p.hashCount ==>
          TouchesIn(p, keys, n, Hash(p, key, 0) % n, 64, Hash(p, key, j) % 64)
  {
    hide Hash, TouchesIn, BitsOf, CoversMask, RegisterOn;
    var end, n := AddedAll(p, st, keys), |st.registers|;
    var b := Hash(p, key, 0) % n;
    RegisterBits(p, st, keys, b, 0);
    var cells := Cells(p, key, 1, 64);
    CoversAll(end.registers[b], cells);
    forall j: nat | 1 <= j < p.hashCount
      ensures cells[j - 1] == Hash(p, key, j) % 64
      ensures RegisterOn(end.registers[b], Hash(p, key, j) % 64) <==> TouchesIn(p, keys, n, b, 64, Hash(p, key, j) % 64)
    {
      RegisterBits(p, st, keys, b, Hash(p, key, j) % 64);
    }
    assert forall i :: 0 <= i < |cells| ==> cells[i] == Hash(p, key, i + 1) % 64;
  }

  // ----- counters

  lemma {:induction false} CounterCells(p: Params, st: State, keys: seq<Bytes>, c: nat)
    requires Ok(st) && st.layout == Counting && p.maxCount > 0 && c < |st.counters| && st.counters[c] == 0
    ensures var end := AddedAll(p, st, keys);
      && end.layout == Counting && |end.counters| == |st.counters|
      && (end.counters[c] > 0 <==> Touches(p, keys, 0, |st.counters|, c))
    decreases |keys|
  {
    hide Cells, BumpAll, Touches;
    if keys == [] {
      NothingTouches(p, 0, |st.counters|, c);
    } else {
      var before, last := keys[..|keys| - 1], keys[|keys| - 1];
      CounterCells(p, st, before, c);
      TouchesMore(p, keys, 0, |st.counters|, c);
      RaisedIff(AddedAll(p, st, before).counters, Cells(p, last, 0, |st.counters|), p.maxCount, c);
    }
  }

  lemma {:induction false} RaisedIff(counters: seq<nat>, cells: seq<nat>, max: nat, c: nat)
    requires Within(cells, |counters|) && c < |counters| && max > 0
    ensures BumpAll(counters, cells, max)[c] > 0 <==> counters[c] > 0 || c in cells
    decreases |cells|
  {
    if cells != [] {
      var before, last := cells[..|cells| - 1], cells[|cells| - 1];
      assert c in cells <==> c in before || c == last;
      RaisedIff(counters, before, max, c);
    }
  }

  /** The same of the counters, as long as nothing is removed. */
  lemma CountersAreExact(p: Params, st: State, keys: seq<Bytes>, key: Bytes)
    requires Ok(st) && st.layout == Counting && p.maxCount > 0
    requires forall c :: 0 <= c < |st.counters| ==> st.counters[c] == 0
    ensures MayContain(p, AddedAll(p, st, keys), key) <==>
      key != [] && forall j: nat :: j < p.hashCount ==>
        Touches(p, keys, 0, |st.counters|, Hash(p, key, j) % |st.counters|)
  {
    hide Hash, Touches;
    var end, n := AddedAll(p, st, keys), |st.counters|;
    CounterCells(p, st, keys, 0);
    var cells := Cells(p, key, 0, n);
    forall j: nat | j < p.hashCount
      ensures cells[j] == Hash(p, key, j) % n && (end.counters[cells[j]] > 0 <==> Touches(p, keys, 0, n, cells[j]))
    {
      CounterCells(p, st, keys, Hash(p, key, j) % n);
    }
  }

  /** With removals: where the counters are exact, a key tests positive exactly if each cell is one of a live key. */
  lemma {:induction false} LoadIsTouched(p: Params, live: seq<Bytes>, n: nat, c: nat)
    requires n > 0 && forall k :: k in live ==> k != []
    ensures Load(p, live, n, c) > 0 <==> Touches(p, live, 0, n, c)
    decreases |live|
  {
    hide Cells, Touches;
    if live == [] {
      NothingTouches(p, 0, n, c);
    } else {
      var before, last := live[..|live| - 1], live[|live| - 1];
      assert last in live && forall k :: k in before ==> k in live;
      LoadIsTouched(p, before, n, c);
      TouchesMore(p, live, 0, n, c);
      TimesIff(Cells(p, last, 0, n), c);
    }
  }

  lemma {:induction false} TimesIff(cells: seq<nat>, c: nat)
    ensures Times(cells, c) > 0 <==> c in cells
    decreases |cells|
  {
    if cells != [] {
      var before, last := cells[..|cells| - 1], cells[|cells| - 1];
      assert c in cells <==> c in before || c == last;
      TimesIff(before, c);
    }
  }

  lemma LiveCountersAreExact(p: Params, counters: seq<nat>, live: seq<Bytes>, key: Bytes)
    requires |counters| > 0 && Exact(p, counters, live) && forall k :: k in live ==> k != []
    ensures AllPositive(counters, Cells(p, key, 0, |counters|)) <==>
      forall j: nat :: j < p.hashCount ==> Touches(p, live, 0, |counters|, Hash(p, key, j) % |counters|)
  {
    hide Hash, Touches, Load;
    var n, cells := |counters|, Cells(p, key, 0, |counters|);
    forall j: nat | j < p.hashCount
      ensures cells[j] == Hash(p, key, j) % n && (counters[cells[j]] > 0 <==> Touches(p, live, 0, n, cells[j]))
    {
      LoadIsTouched(p, live, n, cells[j]);
    }
  }

  // ----- layers

  /** The layer that takes the key at place `i`. */
  ghost function LayerAt(p: Params, st: State, keys: seq<Bytes>, i: nat): int
    requires Ok(st) && i < |keys|
  {
    |AddedAll(p, st, keys[..i + 1]).layers| - 1
  }

  /** One of the keys that layer `t` took has a hash that falls into cell `c` of `size`. */
  ghost predicate TouchesLayer(p: Params, st: State, keys: seq<Bytes>, t: nat, size: nat, c: nat)
    requires Ok(st) && size > 0
  {
    exists i: nat, j: nat {:trigger keys[i], Hash(p, keys[i], j)} ::
      i < |keys| && keys[i] != [] && LayerAt(p, st, keys, i) == t && j < p.hashCount && Hash(p, keys[i], j) % size == c
  }

  lemma LayerBefore(p: Params, st: State, keys: seq<Bytes>, i: nat)
    requires Ok(st) && i < |keys|
    ensures i < |keys| - 1 ==> LayerAt(p, st, keys, i) == LayerAt(p, st, keys[..|keys| - 1], i)
    ensures i == |keys| - 1 ==> LayerAt(p, st, keys, i) == |AddedAll(p, st, keys).layers| - 1
  {
    hide Added, AddedAll;
    assert i < |keys| - 1 ==> keys[..|keys| - 1][..i + 1] == keys[..i + 1];
    assert i == |keys| - 1 ==> keys[..i + 1] == keys;
  }

  lemma TouchesLayerMore(p: Params, st: State, keys: seq<Bytes>, t: nat, size: nat, c: nat)
    requires Ok(st) && size > 0 && keys != []
    ensures var before, last := keys[..|keys| - 1], keys[|keys| - 1];
      TouchesLayer(p, st, keys, t, size, c) <==>
        || TouchesLayer(p, st, before, t, size, c)
        || (last != [] && |AddedAll(p, st, keys).layers| - 1 == t && c in Cells(p, last, 0, size))
  {
    hide Hash, Cells, LayerAt, AddedAll;
    var n := |keys| - 1;
    var before, last := keys[..n], keys[n];
    CellIs(p, last, 0, size, c);
    forall i: nat | i <= n
      ensures i < n ==> LayerAt(p, st, keys, i) == LayerAt(p, st, before, i)
      ensures i == n ==> LayerAt(p, st, keys, i) == |AddedAll(p, st, keys).layers| - 1
    {
      LayerBefore(p, st, keys, i);
    }
    if TouchesLayer(p, st, before, t, size, c) {
      var i: nat, j: nat :| i < n && before[i] != [] && LayerAt(p, st, before, i) == t && j < p.hashCount &&
        Hash(p, before[i], j) % size == c;
      assert keys[i] == before[i];
    }
    if TouchesLayer(p, st, keys, t, size, c) {
      var i: nat, j: nat :| i <= n && keys[i] != [] && LayerAt(p, st, keys, i) == t && j < p.hashCount &&
        Hash(p, keys[i], j) % size == c;
      assert i < n ==> before[i] == keys[i];
    }
  }

  lemma {:induction false} LayersRise(p: Params, st: State, keys: seq<Bytes>, t: nat, size: nat, c: nat)
    requires Ok(st) && st.layout == Scalable && size > 0 && t >= |AddedAll(p, st, keys).layers|
    ensures !TouchesLayer(p, st, keys, t, size, c)
    decreases |keys|
  {
    hide Cells, TouchesLayer, SetBits;
    if keys == [] {
      NoLayerTouches(p, st, t, size, c);
    } else {
      LayersStay(p, st, keys[..|keys| - 1]);
      LayersRise(p, st, keys[..|keys| - 1], t, size, c);
      TouchesLayerMore(p, st, keys, t, size, c);
    }
  }

  lemma NoLayerTouches(p: Params, st: State, t: nat, size: nat, c: nat)
    requires Ok(st) && size > 0
    ensures !TouchesLayer(p, st, [], t, size, c)
  {}

  lemma {:induction false} LayersStay(p: Params, st: State, keys: seq<Bytes>)
    requires Ok(st) && st.layout == Scalable
    ensures AddedAll(p, st, keys).layout == Scalable && |AddedAll(p, st, keys).layers| > 0
    decreases |keys|
  {
    hide Cells, SetBits;
    if keys != [] { LayersStay(p, st, keys[..|keys| - 1]); }
  }

  lemma DoubledIsDark(l: Layer)
    requires LayerOk(l)
    ensures Dark(Doubled(l))
  {
    forall c | 0 <= c < 8 * |Doubled(l).bits| ensures !BitOn(Doubled(l).bits, c) {
      NoneOn(Doubled(l).bits, c);
    }
  }

  lemma NoneOn(bits: seq<bv8>, c: nat)
    requires c < 8 * |bits| && forall i :: 0 <= i < |bits| ==> bits[i] == 0
    ensures !BitOn(bits, c)
  {
    hide Mask8;
  }

  lemma {:induction false} ScalableBits(p: Params, st: State, keys: seq<Bytes>, t: nat, c: nat)
    requires Ok(st) && st.layout == Scalable && forall i :: 0 <= i < |st.layers| ==> Dark(st.layers[i])
    requires t < |AddedAll(p, st, keys).layers| && c < AddedAll(p, st, keys).layers[t].size
    ensures var l := AddedAll(p, st, keys).layers[t];
      LayerOk(l) && (BitOn(l.bits, c) <==> TouchesLayer(p, st, keys, t, l.size, c))
    decreases |keys|
  {
    hide Cells, BitOn, SetBits, TouchesLayer, Doubled;
    if keys == [] {
      NoLayerTouches(p, st, t, st.layers[t].size, c);
    } else {
      var before, last := keys[..|keys| - 1], keys[|keys| - 1];
      var mid, end := AddedAll(p, st, before), AddedAll(p, st, keys);
      LayersStay(p, st, before);
      TouchesLayerMore(p, st, keys, t, end.layers[t].size, c);
      if t < |mid.layers| {
        ScalableBits(p, st, before, t, c);
        SetBitsIsExact(mid.layers[t].bits, Cells(p, last, 0, mid.layers[t].size), c);
      } else {
        LayersRise(p, st, before, t, end.layers[t].size, c);
        var l := Grown(mid.layers)[t];
        DoubledIsDark(mid.layers[|mid.layers| - 1]);
        assert !BitOn(l.bits, c);
        SetBitsIsExact(l.bits, Cells(p, last, 0, l.size), c);
      }
    }
  }

  /** Each cell of the key in layer `t` is a cell of some key that the layer took. */
  ghost predicate CoveredIn(p: Params, st: State, keys: seq<Bytes>, key: Bytes, t: nat, size: nat)
    requires Ok(st) && size > 0
  {
    forall j: nat :: j < p.hashCount ==> TouchesLayer(p, st, keys, t, size, Hash(p, key, j) % size)
  }

  /** A key tests positive exactly if in one layer each of its cells is a cell of some key that the layer took. */
  lemma ScalableIsExact(p: Params, st: State, keys: seq<Bytes>, key: Bytes)
    requires Ok(st) && st.layout == Scalable && forall i :: 0 <= i < |st.layers| ==> Dark(st.layers[i])
    ensures var end := AddedAll(p, st, keys);
      MayContain(p, end, key) <==>
        && key != []
        && exists t :: 0 <= t < |end.layers| && CoveredIn(p, st, keys, key, t, end.layers[t].size)
  {
    hide Hash, TouchesLayer, LayerHas, BitOn;
    var end := AddedAll(p, st, keys);
    LayersStay(p, st, keys);
    forall t | 0 <= t < |end.layers|
      ensures LayerOk(end.layers[t])
      ensures LayerHas(p, end.layers[t], key, 0) <==> CoveredIn(p, st, keys, key, t, end.layers[t].size)
    {
      AllOnIs(p, end.layers[t], key, 0);
      forall j: nat | j < p.hashCount
        ensures BitOn(end.layers[t].bits, Hash(p, key, j) % end.layers[t].size) <==>
          TouchesLayer(p, st, keys, t, end.layers[t].size, Hash(p, key, j) % end.layers[t].size)
      {
        ScalableBits(p, st, keys, t, Hash(p, key, j) % end.layers[t].size);
      }
    }
  }

  // ----- how layers and blocks fill up

  ghost function Pow2(t: nat): nat {
    if t == 0 then 1 else 2 * Pow2(t - 1)
  }

  /** Each layer is twice the one before in bits and in room; all but the last are exactly full. */
  ghost predicate Doubling(layers: seq<Layer>, size: nat, max: nat) {
    && |layers| > 0
    && (forall t :: 0 <= t < |layers| ==> layers[t].size == size * Pow2(t) && layers[t].max == max * Pow2(t))
    && (forall t :: 0 <= t < |layers| - 1 ==> layers[t].entries == layers[t].max)
    && layers[|layers| - 1].entries <= layers[|layers| - 1].max
  }

  lemma {:induction false} ScalableGrows(p: Params, st: State, keys: seq<Bytes>)
    requires Ok(st) && st.layout == Scalable && |st.layers| == 1 && st.layers[0].entries == 0 && st.layers[0].max > 0
    ensures AddedAll(p, st, keys).layout == Scalable
    ensures Doubling(AddedAll(p, st, keys).layers, st.layers[0].size, st.layers[0].max)
    decreases |keys|
  {
    hide Cells, SetBits, Pow2;
    var size, max := st.layers[0].size, st.layers[0].max;
    PowFacts(size, max, 0);
    if keys != [] {
      var before, last := keys[..|keys| - 1], keys[|keys| - 1];
      ScalableGrows(p, st, before);
      var mid := AddedAll(p, st, before);
      LayersStay(p, st, before);
      PowFacts(size, max, |mid.layers| - 1);
      GrowsOnce(mid.layers, size, max);
    }
  }

  lemma PowFacts(size: nat, max: nat, t: nat)
    ensures Pow2(0) == 1 && Pow2(t) > 0
    ensures size * Pow2(t + 1) == 2 * (size * Pow2(t)) && max * Pow2(t + 1) == 2 * (max * Pow2(t))
    ensures max > 0 ==> max * Pow2(t) > 0
  {
    if t > 0 { PowFacts(size, max, t - 1); }
  }

  lemma GrowsOnce(layers: seq<Layer>, size: nat, max: nat)
    requires Doubling(layers, size, max) && max > 0 && forall i :: 0 <= i < |layers| ==> LayerOk(layers[i])
    ensures Doubling(Grown(layers), size, max)
    ensures var ls := Grown(layers); ls[|ls| - 1].entries < ls[|ls| - 1].max
  {
    hide Pow2;
    PowFacts(size, max, |layers| - 1);
  }

  lemma BlockCountsOne(p: Params, st: State, key: Bytes, b: nat)
    requires Ok(st) && st.layout == Blocked && b < |st.layers|
    ensures var r := Added(p, st, key);
      && |r.layers| == |st.layers|
      && r.layers[b].entries == st.layers[b].entries +
           if key != [] && Hash(p, key, 0) % |st.layers| == b then 1 else 0
  {
    hide Cells, SetBits, Hash;
  }

  /** The places of the keys that a block takes. */
  ghost function PlacesIn(p: Params, keys: seq<Bytes>, n: nat, b: nat): set<nat>
    requires n > 0
  {
    set i: nat | i < |keys| && keys[i] != [] && Hash(p, keys[i], 0) % n == b
  }

  lemma OneMorePlace(p: Params, keys: seq<Bytes>, n: nat, b: nat)
    requires keys != [] && n > 0
    ensures var before, last := keys[..|keys| - 1], keys[|keys| - 1];
      |PlacesIn(p, keys, n, b)| ==
        |PlacesIn(p, before, n, b)| + if last != [] && Hash(p, last, 0) % n == b then 1 else 0
  {
    hide Hash;
    var before, last := keys[..|keys| - 1], keys[|keys| - 1];
    var was := PlacesIn(p, before, n, b);
    assert PlacesIn(p, keys, n, b) == if last != [] && Hash(p, last, 0) % n == b then was + {|before|} else was;
  }

  /** A block counts the keys it took. */
  lemma {:induction false} BlockCounts(p: Params, st: State, keys: seq<Bytes>, b: nat)
    requires Ok(st) && st.layout == Blocked && b < |st.layers|
    ensures var end := AddedAll(p, st, keys);
      && end.layout == Blocked && |end.layers| == |st.layers|
      && end.layers[b].entries == st.layers[b].entries + |PlacesIn(p, keys, |st.layers|, b)|
    decreases |keys|
  {
    hide Hash, Added;
    if keys == [] {
      assert PlacesIn(p, keys, |st.layers|, b) == {};
    } else {
      hide PlacesIn;
      var before, last := keys[..|keys| - 1], keys[|keys| - 1];
      BlockCounts(p, st, before, b);
      BlockCountsOne(p, AddedAll(p, st, before), last, b);
      OneMorePlace(p, keys, |st.layers|, b);
    }
  }

  // ----- new filters

  /** Nothing has been added. */
  ghost predicate Blank(st: State) {
    && (forall i :: 0 <= i < |st.layers| ==> Dark(st.layers[i]))
    && (forall i :: 0 <= i < |st.registers| ==> st.registers[i] == 0)
    && forall i :: 0 <= i < |st.counters| ==> st.counters[i] == 0
  }

  /**
    A new filter answers no to every key, unless it has no cell to test: blocks and registers spend the
    first hash on choosing a place, so that with a single hash they answer yes to every key.
   */
  lemma NewAnswersIff(p: Params, st: State, key: Bytes)
    requires Ok(st) && Blank(st)
    ensures MayContain(p, st, key) <==>
      key != [] && p.hashCount <= if st.layout == Blocked || st.layout == Registers then 1 else 0
  {
    hide Hash, BitOn, CoversMask, LayerHas;
    match st.layout
    case Standard => NoneInLayer(p, st.layers[0], key, 0);
    case Blocked => NoneInLayer(p, st.layers[Place(p, key, |st.layers|)], key, 1);
    case Registers =>
      var cells := Cells(p, key, 1, 64);
      CoversAll(0, cells);
      if p.hashCount > 1 {
        NoBits(cells[0]);
        assert !RegisterOn(0, cells[0]);
      }
    case Counting =>
      var cells := Cells(p, key, 0, |st.counters|);
      if p.hashCount > 0 {
        assert st.counters[cells[0]] == 0;
      }
    case Scalable =>
      forall i | 0 <= i < |st.layers| ensures LayerHas(p, st.layers[i], key, 0) <==> p.hashCount == 0 {
        NoneInLayer(p, st.layers[i], key, 0);
      }
      assert LayerHas(p, st.layers[0], key, 0) <==> p.hashCount == 0;
  }

  lemma ZerosAreDark(bytes: nat, size: nat, entries: nat, max: nat)
    ensures Dark(Layer(seq(bytes, _ => 0), size, entries, max))
  {
    var l := Layer(seq(bytes, _ => 0), size, entries, max);
    forall c | 0 <= c < 8 * |l.bits| ensures !BitOn(l.bits, c) {
      NoneOn(l.bits, c);
    }
  }

  lemma NoneInLayer(p: Params, l: Layer, key: Bytes, from: nat)
    requires LayerOk(l) && Dark(l)
    ensures LayerHas(p, l, key, from) <==> p.hashCount <= from
  {
    hide Hash, BitOn;
    AllOnIs(p, l, key, from);
    if p.hashCount > from {
      assert !BitOn(l.bits, Hash(p, key, from) % l.size);
    }
  }
}
