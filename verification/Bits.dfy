/** Single bits of bytes and of 64-bit words. */
module Bits {

  function Mask8(o: nat): (m: bv8)
    requires o < 8
  {
    match o
    case 0 => 1
    case 1 => 2
    case 2 => 4
    case 3 => 8
    case 4 => 16
    case 5 => 32
    case 6 => 64
    case _ => 128
  }

  lemma OrKeeps(b: bv8, m: bv8, n: bv8)
    ensures b & n != 0 ==> (b | m) & n != 0
    ensures (b | m) & n != 0 ==> b & n != 0 || m & n != 0
    ensures m != 0 ==> (b | m) & m != 0
  {}

  lemma MasksApart(o: nat, q: nat)
    requires o < 8 && q < 8
    ensures Mask8(o) != 0
    ensures Mask8(o) & Mask8(q) != 0 <==> o == q
  {}

  function Bit64(c: nat): bv64
    requires c < 64
  {
    (1 as bv64) << c
  }

  function Or64(r: bv64, mask: bv64): bv64 {
    r | mask
  }

  predicate CoversMask(r: bv64, mask: bv64) {
    r & mask == mask
  }

  lemma RegisterKeeps(r: bv64, m: bv64, n: bv64)
    ensures CoversMask(Or64(r, m), m)
    ensures CoversMask(r, n) ==> CoversMask(Or64(r, m), n)
  {}

  function And64(r: bv64, m: bv64): bv64 {
    r & m
  }

  function Not64(r: bv64): bv64 {
    !r
  }

  /** The register and the mask have a bit in common. */
  predicate Meets(r: bv64, m: bv64) {
    And64(r, m) != 0
  }

  predicate RegisterOn(r: bv64, c: nat)
    requires c < 64
  {
    Meets(r, Bit64(c))
  }

  lemma Distributes(r: bv64, m: bv64, n: bv64)
    ensures (r | m) & n == (r & n) | (m & n)
  {}

  lemma AndOverOr(r: bv64, m: bv64, n: bv64)
    ensures And64(Or64(r, m), n) == Or64(And64(r, n), And64(m, n))
  {
    calc {
      And64(Or64(r, m), n);
      (r | m) & n;
      { Distributes(r, m, n); }
      (r & n) | (m & n);
      Or64(And64(r, n), And64(m, n));
    }
  }

  lemma OrIsZero(a: bv64, b: bv64)
    ensures Or64(a, b) == 0 <==> a == 0 && b == 0
    ensures Or64(a, 0) == a
  {}

  lemma MeetsEither(r: bv64, m: bv64, n: bv64)
    ensures Meets(Or64(r, m), n) <==> Meets(r, n) || Meets(m, n)
  {
    hide And64, Or64;
    AndOverOr(r, m, n);
    OrIsZero(And64(r, n), And64(m, n));
  }

  lemma TwoParts(r: bv64, m: bv64)
    ensures m == Or64(And64(r, m), And64(m, Not64(r)))
  {}

  lemma NothingLacks(r: bv64, m: bv64)
    ensures And64(And64(r, m), Not64(r)) == 0
  {}

  lemma CoversIs(r: bv64, m: bv64)
    ensures CoversMask(r, m) <==> And64(r, m) == m
  {}

  lemma OrSplits(r: bv64, m: bv64, c: nat)
    requires c < 64
    ensures RegisterOn(Or64(r, m), c) <==> RegisterOn(r, c) || RegisterOn(m, c)
  {
    hide Bit64, Meets, Or64;
    MeetsEither(r, m, Bit64(c));
  }

  /** Covering a mask is not meeting it with what the register lacks. */
  lemma CoverIsMiss(r: bv64, m: bv64)
    ensures CoversMask(r, m) <==> !Meets(m, Not64(r))
  {
    hide And64, Or64, Not64, CoversMask;
    CoversIs(r, m);
    TwoParts(r, m);
    NothingLacks(r, m);
    OrIsZero(And64(r, m), And64(m, Not64(r)));
  }

  lemma CoverSplits(r: bv64, m: bv64, n: bv64)
    ensures CoversMask(r, Or64(m, n)) <==> CoversMask(r, m) && CoversMask(r, n)
  {
    hide CoversMask, Meets, Or64, Not64;
    CoverIsMiss(r, Or64(m, n));
    CoverIsMiss(r, m);
    CoverIsMiss(r, n);
    MeetsEither(m, n, Not64(r));
  }

  lemma CoversNothing(r: bv64)
    ensures CoversMask(r, 0)
  {}

  lemma BitsApart(a: nat, c: nat)
    requires a < 64 && c < 64
    ensures RegisterOn(Bit64(a), c) <==> a == c
  {}

  lemma OneBit(r: bv64, c: nat)
    requires c < 64
    ensures CoversMask(r, Bit64(c)) <==> RegisterOn(r, c)
  {}

  lemma NoBits(c: nat)
    requires c < 64
    ensures !RegisterOn(0, c)
  {}
}
