/**
  Byte strings and the order every engine of the server sorts them by.

  `btree_key_compare` (memcmp, then length) and `strcmp` on NUL-free strings are the
  same order: unsigned lexicographic. `Compare` is that procedure, and `Pos` embeds the
  order into the reals, so that sortedness of keys becomes plain arithmetic.
 */
module Bytes {

  type Byte = b: int | 0 <= b < 256

  type Bytes = seq<Byte>

  /** The comparison of `btree_key_compare`: the first differing byte decides, then the length. */
  function Compare(a: Bytes, b: Bytes): (r: int)
    ensures r == 0 <==> a == b
    decreases |a|
  {
    if a == [] then (if b == [] then 0 else -1)
    else if b == [] then 1
    else if a[0] != b[0] then a[0] - b[0]
    else
      var r := Compare(a[1..], b[1..]);
      assert r == 0 ==> a == [a[0]] + b[1..] == b;
      r
  }

  /** Position of a byte string on the unit interval: the base-257 fraction with digits `byte + 1`. */
  ghost function Pos(k: Bytes): (r: real)
    ensures 0.0 <= r < 1.0
    ensures r == 0.0 <==> k == []
    decreases |k|
  {
    if k == [] then 0.0 else (k[0] as int as real + 1.0 + Pos(k[1..])) / 257.0
  }

  /** `Pos` is an order embedding: comparing byte strings is comparing their positions. */
  lemma {:induction false} CompareIsPos(a: Bytes, b: Bytes)
    ensures Compare(a, b) < 0 <==> Pos(a) < Pos(b)
    ensures Compare(a, b) == 0 <==> Pos(a) == Pos(b)
    ensures a == b <==> Pos(a) == Pos(b)
    decreases |a|
  {
    if a != [] && b != [] {
      if a[0] == b[0] {
        CompareIsPos(a[1..], b[1..]);
      }
    }
  }
}

module Options {
  datatype Option<T> = None | Some(value: T)
}

/** The number of values of the machine words. */
module Words {
  const WORD32 := 0x1_0000_0000
  const WORD64 := 0x1_0000_0000_0000_0000
}

module Sets {
  lemma {:induction false} SubsetSize<T>(a: set<T>, b: set<T>)
    requires a <= b
    ensures |a| <= |b|
    decreases |a|
  {
    if a != {} {
      var x :| x in a;
      SubsetSize(a - {x}, b - {x});
    }
  }
}
