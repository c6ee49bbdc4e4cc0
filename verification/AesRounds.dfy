/** The round functions of the cipher on a state of sixteen bytes, and the block cipher composed of
    them (sections 5.1 to 5.3 of FIPS 197). */
module AesRounds {
  import opened AesTables

  function Xor(a: bv8, b: bv8): bv8 {
    a ^ b
  }

  // ----- multiplication by constants -----

  function Mul2(x: bv8): bv8 {
    if x >= 0x80 then (x << 1) ^ 0x1B else x << 1
  }

  function Mul3(x: bv8): bv8 { Xor(Mul2(x), x) }

  function Mul9(x: bv8): bv8 { Xor(Mul2(Mul2(Mul2(x))), x) }

  function Mul11(x: bv8): bv8 { Xor(Xor(Mul2(Mul2(Mul2(x))), Mul2(x)), x) }

  function Mul13(x: bv8): bv8 { Xor(Xor(Mul2(Mul2(Mul2(x))), Mul2(Mul2(x))), x) }

  function Mul14(x: bv8): bv8 { Xor(Xor(Mul2(Mul2(Mul2(x))), Mul2(Mul2(x))), Mul2(x)) }

  function Xor4(p: bv8, q: bv8, r: bv8, s: bv8): bv8 {
    Xor(Xor(Xor(p, q), r), s)
  }

  /** One output byte of the column mixing, from the input byte of its row onward. */
  function Mix(p: bv8, q: bv8, r: bv8, s: bv8): bv8 {
    Xor4(Mul2(p), Mul3(q), r, s)
  }

  function InvMix(p: bv8, q: bv8, r: bv8, s: bv8): bv8 {
    Xor4(Mul14(p), Mul11(q), Mul13(r), Mul9(s))
  }

  lemma XorCommutes(a: bv8, b: bv8)
    ensures Xor(a, b) == Xor(b, a)
  {}

  lemma XorAssociates(a: bv8, b: bv8, c: bv8)
    ensures Xor(Xor(a, b), c) == Xor(a, Xor(b, c))
  {}

  lemma XorCancels(a: bv8, b: bv8)
    ensures Xor(Xor(a, b), b) == a && Xor(a, 0) == a && Xor(0, a) == a && Xor(a, a) == 0
  {}

  lemma ShiftLinear(a: bv8, b: bv8)
    ensures (a ^ b) << 1 == (a << 1) ^ (b << 1)
    ensures a ^ b >= 0x80 <==> ((a >= 0x80) != (b >= 0x80))
  {}

  lemma ReductionCancels(p: bv8, q: bv8, r: bv8)
    ensures (p ^ r) ^ (q ^ r) == p ^ q
    ensures (p ^ q) ^ r == (p ^ r) ^ q && (p ^ q) ^ r == p ^ (q ^ r)
  {}

  lemma Mul2Linear(a: bv8, b: bv8)
    ensures Mul2(Xor(a, b)) == Xor(Mul2(a), Mul2(b))
  {
    ShiftLinear(a, b);
    ReductionCancels(a << 1, b << 1, 0x1B);
  }

  lemma XorSwap(a: bv8, b: bv8, c: bv8, d: bv8)
    ensures Xor(Xor(a, b), Xor(c, d)) == Xor(Xor(a, c), Xor(b, d))
  {
    hide Xor;
    XorAssociates(a, b, Xor(c, d));
    XorAssociates(b, c, d);
    XorCommutes(b, c);
    XorAssociates(c, b, d);
    XorAssociates(a, c, Xor(b, d));
  }

  lemma MulLinear(a: bv8, b: bv8)
    ensures Mul3(Xor(a, b)) == Xor(Mul3(a), Mul3(b)) && Mul9(Xor(a, b)) == Xor(Mul9(a), Mul9(b))
    ensures Mul11(Xor(a, b)) == Xor(Mul11(a), Mul11(b)) && Mul13(Xor(a, b)) == Xor(Mul13(a), Mul13(b))
    ensures Mul14(Xor(a, b)) == Xor(Mul14(a), Mul14(b))
  {
    hide Xor, Mul2;
    var (a2, b2) := (Mul2(a), Mul2(b));
    var (a4, b4) := (Mul2(a2), Mul2(b2));
    var (a8, b8) := (Mul2(a4), Mul2(b4));
    Mul2Linear(a, b);
    Mul2Linear(a2, b2);
    Mul2Linear(a4, b4);
    XorSwap(a2, b2, a, b);
    XorSwap(a8, b8, a, b);
    XorSwap(a8, b8, a2, b2);
    XorSwap(Xor(a8, a2), Xor(b8, b2), a, b);
    XorSwap(a8, b8, a4, b4);
    XorSwap(Xor(a8, a4), Xor(b8, b4), a, b);
    XorSwap(Xor(a8, a4), Xor(b8, b4), a2, b2);
  }

  // What the inverse mixing collects of each byte of a mixed column: the byte itself, or nothing.
  lemma Collect0(x: bv8) ensures Xor4(Mul14(Mul2(x)), Mul11(x), Mul13(x), Mul9(Mul3(x))) == x {}
  lemma Collect1(x: bv8) ensures Xor4(Mul14(Mul3(x)), Mul11(Mul2(x)), Mul13(x), Mul9(x)) == 0 {}
  lemma Collect2(x: bv8) ensures Xor4(Mul14(x), Mul11(Mul3(x)), Mul13(Mul2(x)), Mul9(x)) == 0 {}
  lemma Collect3(x: bv8) ensures Xor4(Mul14(x), Mul11(x), Mul13(Mul3(x)), Mul9(Mul2(x))) == 0 {}

  // The same for mixing an inversely mixed column.
  lemma InvCollect0(x: bv8) ensures Xor4(Mul2(Mul14(x)), Mul3(Mul9(x)), Mul13(x), Mul11(x)) == x {}
  lemma InvCollect1(x: bv8) ensures Xor4(Mul2(Mul11(x)), Mul3(Mul14(x)), Mul9(x), Mul13(x)) == 0 {}
  lemma InvCollect2(x: bv8) ensures Xor4(Mul2(Mul13(x)), Mul3(Mul11(x)), Mul14(x), Mul9(x)) == 0 {}
  lemma InvCollect3(x: bv8) ensures Xor4(Mul2(Mul9(x)), Mul3(Mul13(x)), Mul11(x), Mul14(x)) == 0 {}

  lemma Xor4Swap(a: bv8, b: bv8, c: bv8, d: bv8, e: bv8, f: bv8, g: bv8, h: bv8)
    ensures Xor(Xor4(a, b, c, d), Xor4(e, f, g, h)) == Xor4(Xor(a, e), Xor(b, f), Xor(c, g), Xor(d, h))
  {
    hide Xor;
    XorSwap(a, b, e, f);
    XorSwap(Xor(a, b), c, Xor(e, f), g);
    XorSwap(Xor(Xor(a, b), c), d, Xor(Xor(e, f), g), h);
  }

  lemma Transpose(a: bv8, b: bv8, c: bv8, d: bv8, e: bv8, f: bv8, g: bv8, h: bv8,
                  i: bv8, j: bv8, k: bv8, l: bv8, m: bv8, n: bv8, o: bv8, p: bv8)
    ensures Xor4(Xor4(a, b, c, d), Xor4(e, f, g, h), Xor4(i, j, k, l), Xor4(m, n, o, p))
            == Xor4(Xor4(a, e, i, m), Xor4(b, f, j, n), Xor4(c, g, k, o), Xor4(d, h, l, p))
  {
    hide Xor;
    Xor4Swap(a, b, c, d, e, f, g, h);
    Xor4Swap(Xor(a, e), Xor(b, f), Xor(c, g), Xor(d, h), i, j, k, l);
    Xor4Swap(Xor(Xor(a, e), i), Xor(Xor(b, f), j), Xor(Xor(c, g), k), Xor(Xor(d, h), l), m, n, o, p);
  }

  /** All multiplications by constants distribute over a sum of four. */
  lemma MulXor4(p: bv8, q: bv8, r: bv8, s: bv8)
    ensures var x := Xor4(p, q, r, s);
            Mul2(x) == Xor4(Mul2(p), Mul2(q), Mul2(r), Mul2(s))
            && Mul3(x) == Xor4(Mul3(p), Mul3(q), Mul3(r), Mul3(s))
            && Mul9(x) == Xor4(Mul9(p), Mul9(q), Mul9(r), Mul9(s))
            && Mul11(x) == Xor4(Mul11(p), Mul11(q), Mul11(r), Mul11(s))
            && Mul13(x) == Xor4(Mul13(p), Mul13(q), Mul13(r), Mul13(s))
            && Mul14(x) == Xor4(Mul14(p), Mul14(q), Mul14(r), Mul14(s))
  {
    hide Xor, Mul2, Mul3, Mul9, Mul11, Mul13, Mul14;
    Mul2Linear(p, q);
    Mul2Linear(Xor(p, q), r);
    Mul2Linear(Xor(Xor(p, q), r), s);
    MulLinear(p, q);
    MulLinear(Xor(p, q), r);
    MulLinear(Xor(Xor(p, q), r), s);
  }

  lemma OnlyFirst(x: bv8)
    ensures Xor4(x, 0, 0, 0) == x
  {}

  /** Inverse mixing undoes mixing; the other three rows are this one with the column rotated. */
  lemma MixInverse(a: bv8, b: bv8, c: bv8, d: bv8)
    ensures InvMix(Mix(a, b, c, d), Mix(b, c, d, a), Mix(c, d, a, b), Mix(d, a, b, c)) == a
    ensures Mix(InvMix(a, b, c, d), InvMix(b, c, d, a), InvMix(c, d, a, b), InvMix(d, a, b, c)) == a
  {
    MixUndone(a, b, c, d);
    InvMixUndone(a, b, c, d);
  }

  lemma MixUndone(a: bv8, b: bv8, c: bv8, d: bv8)
    ensures InvMix(Mix(a, b, c, d), Mix(b, c, d, a), Mix(c, d, a, b), Mix(d, a, b, c)) == a
  {
    hide Xor, Xor4, Mul2, Mul3, Mul9, Mul11, Mul13, Mul14;
    MulXor4(Mul2(a), Mul3(b), c, d);
    MulXor4(Mul2(b), Mul3(c), d, a);
    MulXor4(Mul2(c), Mul3(d), a, b);
    MulXor4(Mul2(d), Mul3(a), b, c);
    Rotate(Mul11(Mul2(b)), Mul11(Mul3(c)), Mul11(d), Mul11(a));
    Rotate(Mul13(Mul2(c)), Mul13(Mul3(d)), Mul13(a), Mul13(b));
    Rotate(Mul9(Mul2(d)), Mul9(Mul3(a)), Mul9(b), Mul9(c));
    Transpose(Mul14(Mul2(a)), Mul14(Mul3(b)), Mul14(c), Mul14(d),
              Mul11(a), Mul11(Mul2(b)), Mul11(Mul3(c)), Mul11(d),
              Mul13(a), Mul13(b), Mul13(Mul2(c)), Mul13(Mul3(d)),
              Mul9(Mul3(a)), Mul9(b), Mul9(c), Mul9(Mul2(d)));
    Collect0(a);
    Collect1(b);
    Collect2(c);
    Collect3(d);
    OnlyFirst(a);
  }

  lemma InvMixUndone(a: bv8, b: bv8, c: bv8, d: bv8)
    ensures Mix(InvMix(a, b, c, d), InvMix(b, c, d, a), InvMix(c, d, a, b), InvMix(d, a, b, c)) == a
  {
    hide Xor, Xor4, Mul2, Mul3, Mul9, Mul11, Mul13, Mul14;
    MulXor4(Mul14(a), Mul11(b), Mul13(c), Mul9(d));
    MulXor4(Mul14(b), Mul11(c), Mul13(d), Mul9(a));
    Rotate(Mul3(Mul14(b)), Mul3(Mul11(c)), Mul3(Mul13(d)), Mul3(Mul9(a)));
    Rotate(Mul14(c), Mul11(d), Mul13(a), Mul9(b));
    Rotate(Mul14(d), Mul11(a), Mul13(b), Mul9(c));
    Transpose(Mul2(Mul14(a)), Mul2(Mul11(b)), Mul2(Mul13(c)), Mul2(Mul9(d)),
              Mul3(Mul9(a)), Mul3(Mul14(b)), Mul3(Mul11(c)), Mul3(Mul13(d)),
              Mul13(a), Mul9(b), Mul14(c), Mul11(d),
              Mul11(a), Mul13(b), Mul9(c), Mul14(d));
    InvCollect0(a);
    InvCollect1(b);
    InvCollect2(c);
    InvCollect3(d);
    OnlyFirst(a);
  }

  lemma Rotate(p: bv8, q: bv8, r: bv8, s: bv8)
    ensures Xor4(p, q, r, s) == Xor4(s, p, q, r)
    ensures Xor4(p, q, r, s) == Xor4(r, s, p, q)
    ensures Xor4(p, q, r, s) == Xor4(q, r, s, p)
  {
    hide Xor;
    RotateOne(p, q, r, s);
    RotateOne(s, p, q, r);
    RotateOne(r, s, p, q);
  }

  lemma RotateOne(p: bv8, q: bv8, r: bv8, s: bv8)
    ensures Xor4(p, q, r, s) == Xor4(s, p, q, r)
  {
    hide Xor;
    XorCommutes(Xor(Xor(p, q), r), s);
    XorAssociates(s, Xor(p, q), r);
    XorAssociates(s, p, q);
  }
}
