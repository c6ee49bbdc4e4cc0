/** What the tables of the cipher hold, in the field of the bytes modulo 0x11B (section 4.2 of FIPS 197). */
module AesField {
  import opened AesTables
  import opened AesRounds

  // ----- the field -----

  /** A multiple that enters a product for one bit of `a`. */
  function Term(a: bv8, mask: bv8, b: bv8): bv8 {
    if a & mask != 0 then b else 0
  }

  function Xor8(p: bv8, q: bv8, r: bv8, s: bv8, t: bv8, u: bv8, v: bv8, w: bv8): bv8 {
    Xor(Xor4(p, q, r, s), Xor4(t, u, v, w))
  }

  /** The sum of b, b x, b x^2, ... b x^7 over the bits of `a`. */
  function Product(a: bv8, b: bv8): bv8 {
    var b1 := Mul2(b);
    var b2 := Mul2(b1);
    var b3 := Mul2(b2);
    var b4 := Mul2(b3);
    var b5 := Mul2(b4);
    var b6 := Mul2(b5);
    var b7 := Mul2(b6);
    Xor8(Term(a, 0x01, b), Term(a, 0x02, b1), Term(a, 0x04, b2), Term(a, 0x08, b3),
         Term(a, 0x10, b4), Term(a, 0x20, b5), Term(a, 0x40, b6), Term(a, 0x80, b7))
  }

  lemma ProductOne(a: bv8)
    ensures Product(a, 1) == a && Product(2, a) == Mul2(a)
  {}

  lemma ProductZero(a: bv8)
    ensures Product(a, 0) == 0
  {}

  lemma TermSum(a: bv8, m: bv8, b: bv8, c: bv8)
    ensures Term(a, m, Xor(b, c)) == Xor(Term(a, m, b), Term(a, m, c))
  {}

  lemma ProductSum(a: bv8, b: bv8, c: bv8)
    ensures Product(a, Xor(b, c)) == Xor(Product(a, b), Product(a, c))
  {
    hide Xor, Term, Mul2, Xor4;
    var (b1, c1) := (Mul2(b), Mul2(c));
    var (b2, c2) := (Mul2(b1), Mul2(c1));
    var (b3, c3) := (Mul2(b2), Mul2(c2));
    var (b4, c4) := (Mul2(b3), Mul2(c3));
    var (b5, c5) := (Mul2(b4), Mul2(c4));
    var (b6, c6) := (Mul2(b5), Mul2(c5));
    var (b7, c7) := (Mul2(b6), Mul2(c6));
    Mul2Linear(b, c);
    Mul2Linear(b1, c1);
    Mul2Linear(b2, c2);
    Mul2Linear(b3, c3);
    Mul2Linear(b4, c4);
    Mul2Linear(b5, c5);
    Mul2Linear(b6, c6);
    TermSum(a, 0x01, b, c);
    TermSum(a, 0x02, b1, c1);
    TermSum(a, 0x04, b2, c2);
    TermSum(a, 0x08, b3, c3);
    TermSum(a, 0x10, b4, c4);
    TermSum(a, 0x20, b5, c5);
    TermSum(a, 0x40, b6, c6);
    TermSum(a, 0x80, b7, c7);
    var (p, q) := (Xor4(Term(a, 0x01, b), Term(a, 0x02, b1), Term(a, 0x04, b2), Term(a, 0x08, b3)),
                   Xor4(Term(a, 0x01, c), Term(a, 0x02, c1), Term(a, 0x04, c2), Term(a, 0x08, c3)));
    var (r, s) := (Xor4(Term(a, 0x10, b4), Term(a, 0x20, b5), Term(a, 0x40, b6), Term(a, 0x80, b7)),
                   Xor4(Term(a, 0x10, c4), Term(a, 0x20, c5), Term(a, 0x40, c6), Term(a, 0x80, c7)));
    Xor4Swap(Term(a, 0x01, b), Term(a, 0x02, b1), Term(a, 0x04, b2), Term(a, 0x08, b3),
             Term(a, 0x01, c), Term(a, 0x02, c1), Term(a, 0x04, c2), Term(a, 0x08, c3));
    Xor4Swap(Term(a, 0x10, b4), Term(a, 0x20, b5), Term(a, 0x40, b6), Term(a, 0x80, b7),
             Term(a, 0x10, c4), Term(a, 0x20, c5), Term(a, 0x40, c6), Term(a, 0x80, c7));
    XorSwap(p, q, r, s);
  }

  lemma TermDouble(a: bv8, m: bv8, b: bv8)
    ensures Mul2(Term(a, m, b)) == Term(a, m, Mul2(b))
  {}

  lemma Mul2Sum(p: bv8, q: bv8, r: bv8, s: bv8, t: bv8, u: bv8, v: bv8, w: bv8)
    ensures Mul2(Xor8(p, q, r, s, t, u, v, w))
            == Xor8(Mul2(p), Mul2(q), Mul2(r), Mul2(s), Mul2(t), Mul2(u), Mul2(v), Mul2(w))
  {
    hide Xor, Mul2, Xor4;
    Mul2Linear(Xor4(p, q, r, s), Xor4(t, u, v, w));
    MulXor4(p, q, r, s);
    MulXor4(t, u, v, w);
  }

  lemma ProductDouble(a: bv8, b: bv8)
    ensures Product(a, Mul2(b)) == Mul2(Product(a, b))
  {
    hide Xor8, Term, Mul2;
    var b1 := Mul2(b);
    var b2 := Mul2(b1);
    var b3 := Mul2(b2);
    var b4 := Mul2(b3);
    var b5 := Mul2(b4);
    var b6 := Mul2(b5);
    var b7 := Mul2(b6);
    TermDouble(a, 0x01, b);
    TermDouble(a, 0x02, b1);
    TermDouble(a, 0x04, b2);
    TermDouble(a, 0x08, b3);
    TermDouble(a, 0x10, b4);
    TermDouble(a, 0x20, b5);
    TermDouble(a, 0x40, b6);
    TermDouble(a, 0x80, b7);
    Mul2Sum(Term(a, 0x01, b), Term(a, 0x02, b1), Term(a, 0x04, b2), Term(a, 0x08, b3),
            Term(a, 0x10, b4), Term(a, 0x20, b5), Term(a, 0x40, b6), Term(a, 0x80, b7));
  }

  lemma ProductTerm(a: bv8, d: bv8, m: bv8, b: bv8)
    ensures Product(a, Term(d, m, b)) == Term(d, m, Product(a, b))
  {
    hide Product;
    ProductZero(a);
  }

  lemma ProductXor8(a: bv8, p: bv8, q: bv8, r: bv8, s: bv8, t: bv8, u: bv8, v: bv8, w: bv8)
    ensures Product(a, Xor8(p, q, r, s, t, u, v, w))
            == Xor8(Product(a, p), Product(a, q), Product(a, r), Product(a, s),
                    Product(a, t), Product(a, u), Product(a, v), Product(a, w))
  {
    hide Xor, Product;
    ProductSum(a, Xor4(p, q, r, s), Xor4(t, u, v, w));
    ProductXor4(a, p, q, r, s);
    ProductXor4(a, t, u, v, w);
  }

  lemma ProductXor4(a: bv8, p: bv8, q: bv8, r: bv8, s: bv8)
    ensures Product(a, Xor4(p, q, r, s)) == Xor4(Product(a, p), Product(a, q), Product(a, r), Product(a, s))
  {
    hide Xor, Product;
    ProductSum(a, p, q);
    ProductSum(a, Xor(p, q), r);
    ProductSum(a, Xor(Xor(p, q), r), s);
  }

  /** Multiplications can be exchanged. */
  lemma ProductExchange(a: bv8, d: bv8, b: bv8)
    ensures Product(a, Product(d, b)) == Product(d, Product(a, b))
  {
    var b1 := Mul2(b);
    var b2 := Mul2(b1);
    var b3 := Mul2(b2);
    var b4 := Mul2(b3);
    var b5 := Mul2(b4);
    var b6 := Mul2(b5);
    var b7 := Mul2(b6);
    Expanded(d, b);
    Expanded(d, Product(a, b));
    hide Xor8, Term, Mul2, Product;
    ProductXor8(a, Term(d, 0x01, b), Term(d, 0x02, b1), Term(d, 0x04, b2), Term(d, 0x08, b3),
                Term(d, 0x10, b4), Term(d, 0x20, b5), Term(d, 0x40, b6), Term(d, 0x80, b7));
    ProductTerm(a, d, 0x01, b);
    ProductTerm(a, d, 0x02, b1);
    ProductTerm(a, d, 0x04, b2);
    ProductTerm(a, d, 0x08, b3);
    ProductTerm(a, d, 0x10, b4);
    ProductTerm(a, d, 0x20, b5);
    ProductTerm(a, d, 0x40, b6);
    ProductTerm(a, d, 0x80, b7);
    ProductDouble(a, b);
    ProductDouble(a, b1);
    ProductDouble(a, b2);
    ProductDouble(a, b3);
    ProductDouble(a, b4);
    ProductDouble(a, b5);
    ProductDouble(a, b6);
  }

  lemma Expanded(a: bv8, b: bv8)
    ensures var b1 := Mul2(b); var b2 := Mul2(b1); var b3 := Mul2(b2); var b4 := Mul2(b3);
            var b5 := Mul2(b4); var b6 := Mul2(b5); var b7 := Mul2(b6);
            Product(a, b) == Xor8(Term(a, 0x01, b), Term(a, 0x02, b1), Term(a, 0x04, b2), Term(a, 0x08, b3),
                                  Term(a, 0x10, b4), Term(a, 0x20, b5), Term(a, 0x40, b6), Term(a, 0x80, b7))
  {
    hide Xor8, Term, Mul2;
  }

  lemma ProductCommutes(a: bv8, b: bv8)
    ensures Product(a, b) == Product(b, a)
  {
    hide Product;
    ProductExchange(a, b, 1);
    ProductOne(a);
    ProductOne(b);
  }

  /** A byte has at most one inverse. */
  lemma InverseUnique(x: bv8, y: bv8, z: bv8)
    requires Product(x, y) == 1 && Product(x, z) == 1
    ensures y == z
  {
    hide Product;
    ProductOne(y);
    ProductOne(z);
    ProductExchange(y, x, z);
    ProductExchange(z, x, y);
    ProductCommutes(y, z);
  }

  // ----- the substitution -----

  /** The byte with its bits turned to the left. */
  function Turn(y: bv8, k: bv4): bv8
    requires 0 < k < 8
  {
    (y << k) | (y >> (8 - k))
  }

  /** The affine map of section 5.1.1. */
  function Affine(y: bv8): bv8 {
    y ^ Turn(y, 1) ^ Turn(y, 2) ^ Turn(y, 3) ^ Turn(y, 4) ^ 0x63
  }

  function InvAffine(s: bv8): bv8 {
    Turn(s, 1) ^ Turn(s, 3) ^ Turn(s, 6) ^ 0x05
  }

  lemma AffineInverse(y: bv8)
    ensures InvAffine(Affine(y)) == y && Affine(InvAffine(y)) == y
  {}

  // The inverse affine map of an entry is the inverse of its index, a quarter at a time.
  lemma Quarter0(x: bv8) requires 0x01 <= x <= 0x3F ensures Product(x, InvAffine(Sbox(x))) == 1 {}
  lemma Quarter1(x: bv8) requires 0x40 <= x <= 0x7F ensures Product(x, InvAffine(Sbox(x))) == 1 {}
  lemma Quarter2(x: bv8) requires 0x80 <= x <= 0xBF ensures Product(x, InvAffine(Sbox(x))) == 1 {}
  lemma Quarter3(x: bv8) requires 0xC0 <= x <= 0xFF ensures Product(x, InvAffine(Sbox(x))) == 1 {}
  lemma SboxZero() ensures Sbox(0) == Affine(0) {}

  lemma ZeroProduct(y: bv8)
    ensures Product(0, y) == 0
  {}

  /** The substitution is the inverse in the field followed by the affine map, for every byte. */
  lemma SboxIsInverse(x: bv8, y: bv8)
    ensures Sbox(x) == Affine(y) <==> (x == 0 && y == 0) || Product(x, y) == 1
  {
    hide Sbox, Product, Affine, InvAffine;
    AffineInverse(y);
    AffineInverse(0);
    if x == 0 {
      SboxZero();
      ZeroProduct(y);
    } else {
      if x < 0x40 { Quarter0(x); } else if x < 0x80 { Quarter1(x); } else if x < 0xC0 { Quarter2(x); } else { Quarter3(x); }
      var z := InvAffine(Sbox(x));
      AffineInverse(Sbox(x));
      if Product(x, y) == 1 { InverseUnique(x, y, z); }
    }
  }

  /** The round constants are the powers of x (section 5.2). */
  lemma RoundConstants(i: nat)
    requires 1 <= i < |RCON|
    ensures |RCON| == 11 && RCON[1] == 1
    ensures i < 10 ==> RCON[i + 1] == Mul2(RCON[i]) == Product(2, RCON[i])
  {
    hide Product;
    ProductOne(RCON[i]);
    assert RCON[1] == 0x01 && RCON[2] == 0x02 && RCON[3] == 0x04 && RCON[4] == 0x08 && RCON[5] == 0x10;
    assert RCON[6] == 0x20 && RCON[7] == 0x40 && RCON[8] == 0x80 && RCON[9] == 0x1B && RCON[10] == 0x36;
    assert i in {1, 2, 3, 4, 5, 6, 7, 8, 9, 10};
  }
}
