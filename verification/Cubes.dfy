/** Cubes over eight variables: the terms (mask, value) of the minimizer, what they cover, and the
    prime implicants of a set of minterms. */
module Cubes {

  datatype Cube = Cube(mask: bv8, value: bv8)

  // ----- bytes -----

  function Meet(a: bv8, b: bv8): bv8 {
    a & b
  }

  function Join(a: bv8, b: bv8): bv8 {
    a | b
  }

  function Toggle(a: bv8, b: bv8): bv8 {
    a ^ b
  }

  function Clear(a: bv8, d: bv8): bv8 {
    a & !d
  }

  /** Exactly one bit is set. */
  predicate SingleBit(d: bv8) {
    d != 0 && d & (d - 1) == 0
  }

  predicate Within(d: bv8, mask: bv8) {
    d & mask == d
  }

  function Ones(k: bv8): nat {
    (if k & 1 == 0 then 0 else 1) + (if k & 2 == 0 then 0 else 1)
    + (if k & 4 == 0 then 0 else 1) + (if k & 8 == 0 then 0 else 1)
    + (if k & 16 == 0 then 0 else 1) + (if k & 32 == 0 then 0 else 1)
    + (if k & 64 == 0 then 0 else 1) + (if k & 128 == 0 then 0 else 1)
  }

  lemma SingleBits(d: bv8)
    requires SingleBit(d)
    ensures d == 1 || d == 2 || d == 4 || d == 8 || d == 16 || d == 32 || d == 64 || d == 128
  {}

  /** Some set bit of a non-zero byte. */
  function SomeBit(x: bv8): (d: bv8)
    requires x != 0
    ensures SingleBit(d) && Within(d, x)
  {
    if x & 1 == 1 then 1 else if x & 2 == 2 then 2 else if x & 4 == 4 then 4 else if x & 8 == 8 then 8
    else if x & 16 == 16 then 16 else if x & 32 == 32 then 32 else if x & 64 == 64 then 64 else 128
  }

  lemma OnesClear(k: bv8, d: bv8)
    requires SingleBit(d) && Within(d, k)
    ensures Ones(Clear(k, d)) == Ones(k) - 1
  {
    SingleBits(d);
  }

  lemma OnesAll(k: bv8)
    ensures Ones(k) <= 8
    ensures Ones(k) == 8 <==> k == 0xFF
  {}

  lemma ToggleBack(a: bv8, b: bv8)
    ensures Toggle(a, Toggle(a, b)) == b && Toggle(Toggle(a, b), b) == a
  {}

  lemma ToggleWithin(k: bv8, a: bv8, b: bv8)
    requires Meet(a, k) == a && Meet(b, k) == b
    ensures Within(Toggle(a, b), k) && Meet(Toggle(a, b), k) == Toggle(a, b)
  {}

  lemma WithinMeets(d: bv8, k: bv8)
    ensures Within(d, k) <==> Meet(d, k) == d
  {}

  lemma MeetClear(k: bv8, v: bv8, d: bv8)
    requires Meet(v, k) == v
    ensures Meet(v, Clear(k, d)) == Clear(v, d)
    ensures Meet(Clear(v, d), Clear(k, d)) == Clear(v, d)
  {}

  lemma ClearToggle(v: bv8, d: bv8)
    ensures Clear(Toggle(v, d), d) == Clear(v, d)
  {}

  lemma ClearCovered(k: bv8, v: bv8, d: bv8, m: bv8)
    requires Meet(m, k) == v
    ensures Meet(m, Clear(k, d)) == Clear(v, d)
  {}

  lemma ClearSame(k: bv8, v: bv8, d: bv8, m: bv8)
    requires Meet(v, k) == v && Within(d, k)
    requires Meet(m, Clear(k, d)) == Clear(v, d) && Meet(m, d) == Meet(v, d)
    ensures Meet(m, k) == v
  {}

  lemma ClearOther(k: bv8, v: bv8, d: bv8, m: bv8)
    requires Meet(v, k) == v && Within(d, k)
    requires Meet(m, Clear(k, d)) == Clear(v, d) && Meet(m, d) == Toggle(Meet(v, d), d)
    ensures Meet(m, k) == Toggle(v, d)
  {}

  lemma OtherValue(v: bv8, d: bv8, m: bv8)
    requires SingleBit(d) && Meet(m, d) != Meet(v, d)
    ensures Meet(m, d) == Toggle(Meet(v, d), d)
  {
    SingleBits(d);
  }

  lemma JoinNew(k: bv8, v: bv8, d: bv8)
    requires Meet(v, k) == v && Meet(k, d) == 0
    ensures Meet(v, Join(k, d)) == v && Within(d, Join(k, d))
    ensures Clear(Join(k, d), d) == k && Clear(v, d) == v
  {}

  // ----- cubes -----

  predicate Covers(c: Cube, m: bv8) {
    Meet(m, c.mask) == c.value
  }

  /** The value has no bits outside the mask. */
  predicate Normal(c: Cube) {
    Meet(c.value, c.mask) == c.value
  }

  predicate Adjacent(a: bv8, b: bv8) {
    SingleBit(Toggle(a, b))
  }

  /** The cube on the other side of the bit `d`. */
  function Flip(c: Cube, d: bv8): Cube {
    Cube(c.mask, Toggle(c.value, d))
  }

  /** The cube with the bit `d` of its mask set free. */
  function Free(c: Cube, d: bv8): Cube {
    Cube(Clear(c.mask, d), Clear(c.value, d))
  }

  /** The half of a cube on which its free bit `d` is 0. */
  function ZeroHalf(c: Cube, d: bv8): Cube {
    Cube(Join(c.mask, d), c.value)
  }

  /** Two adjacent values under one mask become one cube in which the differing bit is free. */
  function Merge(mask: bv8, a: bv8, b: bv8): Cube {
    var mask' := Clear(mask, Toggle(a, b));
    Cube(mask', Meet(a, mask'))
  }

  /** Setting a bit free covers the cube and its neighbour across that bit. */
  lemma FreeCovers(c: Cube, d: bv8, m: bv8)
    requires Normal(c) && SingleBit(d) && Within(d, c.mask)
    ensures Covers(Free(c, d), m) <==> Covers(c, m) || Covers(Flip(c, d), m)
  {
    hide Meet, Toggle, Clear, SingleBit, Within;
    var Cube(k, v) := c;
    if Covers(c, m) {
      ClearCovered(k, v, d, m);
    }
    if Covers(Flip(c, d), m) {
      ClearCovered(k, Toggle(v, d), d, m);
      ClearToggle(v, d);
    }
    if Covers(Free(c, d), m) {
      if Meet(m, d) == Meet(v, d) {
        ClearSame(k, v, d, m);
      } else {
        OtherValue(v, d, m);
        ClearOther(k, v, d, m);
      }
    }
  }

  lemma FreeNormal(c: Cube, d: bv8)
    requires Normal(c) && Within(d, c.mask)
    ensures Normal(Free(c, d)) && Normal(Flip(c, d))
  {
    hide Meet, Toggle, Clear, Within;
    MeetClear(c.mask, c.value, d);
    WithinMeets(d, c.mask);
    ToggleWithin(c.mask, c.value, d);
  }

  lemma MergeIsFree(c: Cube, b: bv8)
    requires Normal(c) && Normal(Cube(c.mask, b)) && Adjacent(c.value, b)
    ensures var d := Toggle(c.value, b);
            SingleBit(d) && Within(d, c.mask) && Cube(c.mask, b) == Flip(c, d)
            && Merge(c.mask, c.value, b) == Free(c, d)
  {
    hide Meet, Toggle, Clear, SingleBit, Within;
    ToggleWithin(c.mask, c.value, b);
    ToggleBack(c.value, b);
    MeetClear(c.mask, c.value, Toggle(c.value, b));
  }

  lemma FlipAdjacent(c: Cube, d: bv8)
    requires Normal(c) && SingleBit(d) && Within(d, c.mask)
    ensures Adjacent(c.value, Flip(c, d).value) && Merge(c.mask, c.value, Flip(c, d).value) == Free(c, d)
    ensures Flip(c, d) != c && Flip(Flip(c, d), d) == c
  {
    hide Meet, Toggle, Clear, SingleBit, Within;
    FreeNormal(c, d);
    ToggleBack(c.value, d);
    ToggleChanges(c.value, d);
    MergeIsFree(c, Flip(c, d).value);
  }

  lemma ToggleChanges(v: bv8, d: bv8)
    requires SingleBit(d)
    ensures Toggle(v, d) != v
  {}

  lemma CoversOwnValue(c: Cube)
    requires Normal(c)
    ensures Covers(c, c.value)
  {}

  // ----- implicants -----

  /** All that the cube covers is in the on-set. */
  ghost predicate Implicant(c: Cube, on: set<bv8>) {
    Normal(c) && forall m: bv8 :: Covers(c, m) ==> m in on
  }

  ghost predicate Contains(big: Cube, small: Cube) {
    forall m: bv8 :: Covers(small, m) ==> Covers(big, m)
  }

  /** A maximal implicant. */
  ghost predicate Prime(c: Cube, on: set<bv8>) {
    Implicant(c, on) && forall big :: Implicant(big, on) && Contains(big, c) ==> big == c
  }

  lemma FreeImplicant(c: Cube, d: bv8, on: set<bv8>)
    requires Normal(c) && SingleBit(d) && Within(d, c.mask)
    ensures Implicant(Free(c, d), on) <==> Implicant(c, on) && Implicant(Flip(c, d), on)
  {
    hide Covers, Normal, Free, Flip, Within, SingleBit;
    FreeNormal(c, d);
    if Implicant(Free(c, d), on) {
      forall m: bv8 | Covers(c, m) || Covers(Flip(c, d), m) ensures m in on {
        FreeCovers(c, d, m);
      }
    }
    if Implicant(c, on) && Implicant(Flip(c, d), on) {
      forall m: bv8 | Covers(Free(c, d), m) ensures m in on {
        FreeCovers(c, d, m);
      }
    }
  }

  /** An implicant with a free bit comes from merging two implicants that fix this bit. */
  lemma HalfImplicant(c: Cube, d: bv8, on: set<bv8>)
    requires Implicant(c, on) && SingleBit(d) && Meet(c.mask, d) == 0
    ensures var h := ZeroHalf(c, d);
            Normal(h) && Within(d, h.mask) && Implicant(h, on) && Implicant(Flip(h, d), on) && Free(h, d) == c
  {
    hide Covers, Flip, Within, SingleBit, Meet, Join, Clear;
    JoinNew(c.mask, c.value, d);
    FreeImplicant(ZeroHalf(c, d), d, on);
  }

  lemma OnesFree(c: Cube, d: bv8)
    requires SingleBit(d) && Within(d, c.mask)
    ensures Ones(Free(c, d).mask) == Ones(c.mask) - 1
  {
    hide Ones, Clear, SingleBit, Within;
    OnesClear(c.mask, d);
  }

  lemma OutsideBit(a: bv8, b: bv8, d: bv8)
    requires Within(d, Clear(a, b))
    ensures Within(d, a) && Meet(b, d) == 0
  {}

  lemma ToggleOutside(k: bv8, v: bv8, d: bv8)
    requires Meet(k, d) == 0
    ensures Meet(Toggle(v, d), k) == Meet(v, k)
  {}

  lemma ToggleInside(k: bv8, v: bv8, d: bv8)
    requires SingleBit(d) && Within(d, k)
    ensures Meet(Toggle(v, d), k) != Meet(v, k)
  {
    SingleBits(d);
  }

  lemma ClearBoth(a: bv8, b: bv8)
    requires Clear(a, b) == 0 && Clear(b, a) == 0
    ensures a == b
  {}

  lemma MeetSmaller(m: bv8, k: bv8, v: bv8, small: bv8, d: bv8)
    requires Clear(small, k) == 0 && Meet(small, d) == 0
    requires Meet(m, Clear(k, d)) == Clear(v, d)
    ensures Meet(m, small) == Meet(v, small)
  {}

  /** A larger cube fixes fewer bits. */
  lemma LargerMask(c: Cube, big: Cube)
    requires Normal(c) && Contains(big, c)
    ensures Clear(big.mask, c.mask) == 0
  {
    hide Meet, Toggle, Clear, SingleBit, Within;
    var outside := Clear(big.mask, c.mask);
    if outside != 0 {
      var d := SomeBit(outside);
      OutsideBit(big.mask, c.mask, d);
      ToggleOutside(c.mask, c.value, d);
      assert Covers(c, c.value) && Covers(c, Toggle(c.value, d));
      ToggleInside(big.mask, c.value, d);
    }
  }

  /** A strictly larger implicant shows in a single bit that can be set free. */
  lemma LargerFreesBit(c: Cube, big: Cube, on: set<bv8>) returns (d: bv8)
    requires Implicant(c, on) && Implicant(big, on) && Contains(big, c) && big != c
    ensures SingleBit(d) && Within(d, c.mask) && Implicant(Free(c, d), on)
  {
    hide Meet, Toggle, Clear, SingleBit, Within;
    LargerMask(c, big);
    assert Covers(c, c.value);
    var freed := Clear(c.mask, big.mask);
    if freed == 0 {
      ClearBoth(c.mask, big.mask);
    }
    d := SomeBit(freed);
    OutsideBit(c.mask, big.mask, d);
    FreeNormal(c, d);
    forall m: bv8 | Covers(Free(c, d), m) ensures m in on {
      MeetSmaller(m, c.mask, c.value, big.mask, d);
      assert Covers(big, m);
    }
  }

  lemma FreeContains(c: Cube, d: bv8)
    requires Normal(c) && SingleBit(d) && Within(d, c.mask)
    ensures Contains(Free(c, d), c) && Free(c, d) != c
  {
    hide Covers, Within, SingleBit, Ones, Free;
    forall m: bv8 | Covers(c, m) ensures Covers(Free(c, d), m) {
      FreeCovers(c, d, m);
    }
    OnesFree(c, d);
  }

  /** Primality can be read off the neighbours: no neighbour across a fixed bit is an implicant. */
  lemma PrimeByNeighbours(c: Cube, on: set<bv8>)
    requires Implicant(c, on)
    ensures Prime(c, on) <==> forall d: bv8 :: SingleBit(d) && Within(d, c.mask) ==> !Implicant(Flip(c, d), on)
  {
    hide Covers, Within, SingleBit, Free, Flip;
    if Prime(c, on) {
      forall d: bv8 | SingleBit(d) && Within(d, c.mask) ensures !Implicant(Flip(c, d), on) {
        FreeImplicant(c, d, on);
        FreeContains(c, d);
      }
    } else {
      var big :| Implicant(big, on) && Contains(big, c) && big != c;
      var d := LargerFreesBit(c, big, on);
      FreeImplicant(c, d, on);
    }
  }

  /** Every implicant lies in a prime one. */
  lemma {:induction false} PrimeAbove(c: Cube, on: set<bv8>) returns (p: Cube)
    requires Implicant(c, on)
    ensures Prime(p, on) && Contains(p, c)
    decreases Ones(c.mask)
  {
    hide Covers, Within, SingleBit, Free, Flip, Ones;
    if Prime(c, on) {
      p := c;
    } else {
      var big :| Implicant(big, on) && Contains(big, c) && big != c;
      var d := LargerFreesBit(c, big, on);
      OnesFree(c, d);
      FreeContains(c, d);
      p := PrimeAbove(Free(c, d), on);
    }
  }

  /** Where no implicant fixes exactly `n` bits, none fixes fewer. */
  lemma {:induction false} NoneBelow(c: Cube, on: set<bv8>, n: int)
    requires forall x :: Implicant(x, on) ==> Ones(x.mask) != n
    requires Implicant(c, on) && Ones(c.mask) < n <= 8
    ensures false
    decreases 8 - Ones(c.mask)
  {
    hide Covers, Within, SingleBit, Free, Flip, Ones, ZeroHalf, Meet;
    OnesAll(c.mask);
    var d := FreeBit(c.mask);
    HalfImplicant(c, d, on);
    OnesFree(ZeroHalf(c, d), d);
    NoneBelow(ZeroHalf(c, d), on, n);
  }

  function FreeBit(k: bv8): (d: bv8)
    requires k != 0xFF
    ensures SingleBit(d) && Meet(k, d) == 0
  {
    NotFull(k);
    var d := SomeBit(!k);
    NotWithin(k, d);
    d
  }

  lemma NotFull(k: bv8)
    requires k != 0xFF
    ensures !k != 0
  {}

  lemma NotWithin(k: bv8, d: bv8)
    requires Within(d, !k)
    ensures Meet(k, d) == 0
  {}
}
