/** The field GF(2^8) = GF(2)[x]/(x^8 + x^4 + x^3 + x^2 + 1) behind the Reed-Solomon encoder.
    Addition is XOR, and `Exp(i)` is alpha^i with alpha = 2.  `Times` is multiplication in the
    quotient ring straight from its definition; the lemmas show that it is addition of exponents,
    that alpha has order exactly 255, and that every non-zero byte is a power of alpha. */
module GF256 {

  function Add(a: bv8, b: bv8): bv8 {
    a ^ b
  }

  /** Multiplication by alpha: shift left, and subtract 0x11D when the degree reaches 8. */
  function Xtime(x: bv8): bv8 {
    if x >= 0x80 then (x << 1) ^ 0x1D else x << 1
  }

  function Exp(i: nat): bv8 {
    if i == 0 then 1 else Xtime(Exp(i - 1))
  }

  /** `Xtime` applied `i` times. */
  function Shifted(i: nat, b: bv8): bv8 {
    if i == 0 then b else Xtime(Shifted(i - 1, b))
  }

  predicate LowBit(b: bv8) {
    b & 1 == 1
  }

  function Half(b: bv8): bv8 {
    b >> 1
  }

  /** Shift-and-xor multiplication by the low `n` bits of `b`. */
  function PartialProduct(a: bv8, b: bv8, n: nat): bv8
    decreases n
  {
    if n == 0 then 0
    else if LowBit(b) then Add(a, PartialProduct(Xtime(a), Half(b), n - 1))
    else PartialProduct(Xtime(a), Half(b), n - 1)
  }

  /** Multiplication of polynomials over GF(2) modulo 0x11D. */
  function Times(a: bv8, b: bv8): bv8 {
    PartialProduct(a, b, 8)
  }

  // ----- XOR is a commutative group in which every element is its own inverse -----

  lemma AddZero(a: bv8)
    ensures Add(a, 0) == a && Add(0, a) == a && Add(a, a) == 0
  {}

  lemma AddCommutes(a: bv8, b: bv8)
    ensures Add(a, b) == Add(b, a)
  {}

  lemma AddAssociates(a: bv8, b: bv8, c: bv8)
    ensures Add(Add(a, b), c) == Add(a, Add(b, c))
  {}

  lemma AddSwap(p: bv8, q: bv8, r: bv8, s: bv8)
    ensures Add(Add(p, q), Add(r, s)) == Add(Add(p, r), Add(q, s))
  {
    hide Add;
    AddAssociates(p, q, Add(r, s));
    AddAssociates(q, r, s);
    AddCommutes(q, r);
    AddAssociates(r, q, s);
    AddAssociates(p, r, Add(q, s));
  }

  lemma AddCancel(p: bv8, q: bv8)
    ensures Add(Add(p, q), q) == p
    ensures Add(p, q) == 0 <==> p == q
  {}

  // ----- Times is bilinear and commutes with Xtime -----

  lemma ShiftLeftLinear(a: bv8, b: bv8)
    ensures (a ^ b) << 1 == (a << 1) ^ (b << 1)
    ensures a ^ b >= 0x80 <==> ((a >= 0x80) != (b >= 0x80))
  {}

  lemma XorCancel(p: bv8, q: bv8, r: bv8)
    ensures (p ^ r) ^ (q ^ r) == p ^ q
    ensures (p ^ q) ^ r == (p ^ r) ^ q
    ensures (p ^ q) ^ r == p ^ (q ^ r)
  {}

  lemma XtimeLinear(a: bv8, b: bv8)
    ensures Xtime(Add(a, b)) == Add(Xtime(a), Xtime(b))
    ensures Xtime(0) == 0
  {
    ShiftLeftLinear(a, b);
    XorCancel(a << 1, b << 1, 0x1D);
  }

  lemma HalfLinear(b: bv8, c: bv8)
    ensures Half(Add(b, c)) == Add(Half(b), Half(c))
  {}

  lemma LowBitLinear(b: bv8, c: bv8)
    ensures LowBit(Add(b, c)) <==> LowBit(b) != LowBit(c)
  {
    assert (b ^ c) & 1 == (b & 1) ^ (c & 1);
    assert b & 1 == 0 || b & 1 == 1;
    assert c & 1 == 0 || c & 1 == 1;
  }

  lemma {:induction false} PartialProductXtime(a: bv8, b: bv8, n: nat)
    ensures PartialProduct(Xtime(a), b, n) == Xtime(PartialProduct(a, b, n))
    decreases n
  {
    hide Xtime, Add, LowBit, Half;
    if n == 0 {
      XtimeLinear(0, 0);
    } else {
      PartialProductXtime(Xtime(a), Half(b), n - 1);
      XtimeLinear(a, PartialProduct(Xtime(a), Half(b), n - 1));
    }
  }

  lemma {:induction false} PartialProductDistributes(a: bv8, b: bv8, c: bv8, n: nat)
    ensures PartialProduct(a, Add(b, c), n) == Add(PartialProduct(a, b, n), PartialProduct(a, c, n))
    decreases n
  {
    hide Xtime, Add, LowBit, Half;
    if n == 0 {
      AddZero(0);
    } else {
      var (p, q) := (PartialProduct(Xtime(a), Half(b), n - 1), PartialProduct(Xtime(a), Half(c), n - 1));
      HalfLinear(b, c);
      LowBitLinear(b, c);
      PartialProductDistributes(Xtime(a), Half(b), Half(c), n - 1);
      AddAssociates(a, p, q);
      AddCommutes(a, p);
      AddAssociates(p, a, q);
      AddSwap(a, p, a, q);
      AddZero(a);
      AddZero(Add(p, q));
    }
  }

  // What the bits of `b` from position k upward contribute to 1 * b.
  lemma TimesTop7(b: bv8) ensures PartialProduct(0x80, b, 1) == b << 7 {}
  lemma TimesTop6(b: bv8) ensures PartialProduct(0x40, b, 2) == b << 6 { TimesTop7(Half(b)); }
  lemma TimesTop5(b: bv8) ensures PartialProduct(0x20, b, 3) == b << 5 { TimesTop6(Half(b)); }
  lemma TimesTop4(b: bv8) ensures PartialProduct(0x10, b, 4) == b << 4 { TimesTop5(Half(b)); }
  lemma TimesTop3(b: bv8) ensures PartialProduct(0x8, b, 5) == b << 3 { TimesTop4(Half(b)); }
  lemma TimesTop2(b: bv8) ensures PartialProduct(0x4, b, 6) == b << 2 { TimesTop3(Half(b)); }
  lemma TimesTop1(b: bv8) ensures PartialProduct(0x2, b, 7) == b << 1 { TimesTop2(Half(b)); }
  lemma TimesTop0(b: bv8) ensures PartialProduct(0x1, b, 8) == b << 0 { TimesTop1(Half(b)); }

  lemma TimesOne(b: bv8)
    ensures Times(1, b) == b
  {
    TimesTop0(b);
  }

  lemma {:induction false} TimesShifted(i: nat, b: bv8)
    ensures Times(Exp(i), b) == Shifted(i, b)
  {
    hide Xtime, Add, LowBit, Half;
    if i == 0 {
      TimesOne(b);
    } else {
      TimesShifted(i - 1, b);
      PartialProductXtime(Exp(i - 1), b, 8);
    }
  }

  lemma {:induction false} ShiftedExp(i: nat, j: nat)
    ensures Shifted(i, Exp(j)) == Exp(i + j)
  {
    hide Xtime;
    if i > 0 {
      ShiftedExp(i - 1, j);
    }
  }

  /** Multiplication adds exponents. */
  lemma TimesExp(i: nat, j: nat)
    ensures Times(Exp(i), Exp(j)) == Exp(i + j)
  {
    hide Times;
    TimesShifted(i, Exp(j));
    ShiftedExp(i, j);
  }

  // ----- alpha has order exactly 255 -----

  lemma Product2() ensures Times(0x02, 0x02) == 0x04 {}
  lemma Product4() ensures Times(0x04, 0x04) == 0x10 {}
  lemma Product5() ensures Times(0x10, 0x02) == 0x20 {}
  lemma Product8() ensures Times(0x10, 0x10) == 0x1D {}
  lemma Product10() ensures Times(0x20, 0x20) == 0x74 {}
  lemma Product15() ensures Times(0x74, 0x20) == 0x26 {}
  lemma Product16() ensures Times(0x1D, 0x1D) == 0x4C {}
  lemma Product17() ensures Times(0x4C, 0x02) == 0x98 {}
  lemma Product34() ensures Times(0x98, 0x98) == 0x4E {}
  lemma Product51() ensures Times(0x4E, 0x98) == 0x0A {}
  lemma Product85() ensures Times(0x0A, 0x4E) == 0xD6 {}
  lemma Product170() ensures Times(0xD6, 0xD6) == 0xD7 {}
  lemma Product255() ensures Times(0xD7, 0xD6) == 0x01 {}

  lemma ExpSmall()
    ensures Exp(0) == 1 && Exp(1) == 2
  {}

  /** alpha^255 = 1, and alpha^n != 1 for the maximal proper divisors n of 255. */
  lemma Powers()
    ensures Exp(255) == 1 && Exp(15) != 1 && Exp(51) != 1 && Exp(85) != 1
  {
    hide Times, Exp;
    ExpSmall();
    TimesExp(1, 1); Product2();
    TimesExp(2, 2); Product4();
    TimesExp(4, 1); Product5();
    TimesExp(4, 4); Product8();
    TimesExp(5, 5); Product10();
    TimesExp(10, 5); Product15();
    TimesExp(8, 8); Product16();
    TimesExp(16, 1); Product17();
    TimesExp(17, 17); Product34();
    TimesExp(34, 17); Product51();
    TimesExp(51, 34); Product85();
    TimesExp(85, 85); Product170();
    TimesExp(170, 85); Product255();
  }

  lemma {:induction false} PowerOfOne(n: nat, k: nat)
    requires Exp(n) == 1
    ensures Exp(n * k) == 1
  {
    hide Times, Xtime;
    if k > 0 {
      PowerOfOne(n, k - 1);
      assert n * k == n * (k - 1) + n;
      TimesExp(n * (k - 1), n);
      TimesOne(1);
    } else {
      assert n * k == 0;
    }
  }

  /** Cancelling an exponent: alpha is invertible. */
  lemma ExpShift(m: nat, n: nat)
    requires m <= n <= 255 && Exp(m) == Exp(n)
    ensures Exp(n - m) == 1
  {
    hide Times, Xtime;
    Powers();
    TimesExp(m, 255 - m);
    TimesExp(n, 255 - m);
    TimesExp(255, n - m);
    TimesOne(Exp(n - m));
  }

  /** Euclid's algorithm on exponents: a smaller exponent with power 1 divides 255. */
  lemma {:induction false} OrderDivides(n: nat)
    requires 0 < n < 255 && Exp(n) == 1
    ensures exists d :: 0 < d <= n && 255 % d == 0 && Exp(d) == 1
  {
    hide Times, Exp;
    var (q, r) := (255 / n, 255 % n);
    if r != 0 {
      PowerOfOne(n, q);
      assert n * q + r == 255;
      Powers();
      TimesExp(n * q, r);
      TimesOne(Exp(r));
      OrderDivides(r);
    }
  }

  lemma SmallDivisors(d: nat)
    requires 0 < d < 16 && 255 % d == 0
    ensures d == 1 || d == 3 || d == 5 || d == 15
  {}

  lemma TimesAtLeast(d: nat, q: nat)
    requires d >= 16
    ensures d * q >= 16 * q
  {}

  lemma Cofactor(d: nat, q: nat)
    requires d * q == 255
    ensures q > 0 && 255 % q == 0 && d == 255 / q
    ensures d < 16 || q < 16
  {
    if d >= 16 {
      TimesAtLeast(d, q);
    }
  }

  lemma DivisorsOf255(d: nat)
    requires 0 < d < 255 && 255 % d == 0
    ensures 85 % d == 0 || 51 % d == 0 || 15 % d == 0
  {
    var q := 255 / d;
    Cofactor(d, q);
    if d < 16 {
      SmallDivisors(d);
    } else {
      SmallDivisors(q);
    }
  }

  lemma ExpNotOne(n: nat)
    requires 0 < n < 255
    ensures Exp(n) != 1
  {
    hide Times, Exp;
    if Exp(n) == 1 {
      OrderDivides(n);
      var d :| 0 < d <= n && 255 % d == 0 && Exp(d) == 1;
      DivisorsOf255(d);
      PowerDivisible(d, 85);
      PowerDivisible(d, 51);
      PowerDivisible(d, 15);
      Powers();
    }
  }

  lemma PowerDivisible(d: nat, m: nat)
    requires 0 < d && Exp(d) == 1
    ensures m % d == 0 ==> Exp(m) == 1
  {
    hide Times, Exp;
    PowerOfOne(d, m / d);
  }

  lemma ExpInjective(i: nat, j: nat)
    requires i < 255 && j < 255 && Exp(i) == Exp(j)
    ensures i == j
  {
    hide Times, Exp;
    if i != j {
      var (m, n) := if i < j then (i, j) else (j, i);
      var d: nat := n - m;
      ExpShift(m, n);
      ExpNotOne(d);
    }
  }

  lemma {:induction false} ExpNonZero(i: nat)
    ensures Exp(i) != 0
  {
    if i > 0 {
      ExpNonZero(i - 1);
      assert Xtime(Exp(i - 1)) != 0;
    }
  }

  /** Exponents count modulo 255, so the lookup `exp[(i + j) mod 255]` is alpha^(i+j). */
  lemma ExpPeriodic(i: nat)
    requires 255 <= i
    ensures Exp(i) == Exp(i - 255)
  {
    hide Times, Exp;
    Powers();
    TimesExp(255, i - 255);
    TimesOne(Exp(i - 255));
  }

  // ----- every non-zero byte is a power of alpha -----

  ghost function Range(n: nat): (r: set<int>)
    ensures |r| == n && forall x :: x in r <==> 0 < x <= n
  {
    if n == 0 then {} else Range(n - 1) + {n}
  }

  /** As many distinct values as there are in a range fill the range. */
  lemma Pigeonhole(s: seq<int>, v: int)
    requires forall i :: 0 <= i < |s| ==> 0 < s[i] <= |s|
    requires forall i, j :: 0 <= i < j < |s| ==> s[i] != s[j]
    requires 0 < v <= |s|
    ensures v in s
  {
    var elements := set x | x in s;
    DistinctSize(s);
    assert elements <= Range(|s|);
    if v !in s {
      SubsetSize(elements, Range(|s|) - {v});
    }
  }

  lemma {:induction false} DistinctSize(s: seq<int>)
    requires forall i, j :: 0 <= i < j < |s| ==> s[i] != s[j]
    ensures |set x | x in s| == |s|
  {
    if s != [] {
      var (front, last) := (s[..|s| - 1], s[|s| - 1]);
      DistinctSize(front);
      assert (set x | x in s) == (set x | x in front) + {last};
    }
  }

  lemma SubsetSize(a: set<int>, b: set<int>)
    requires a <= b
    ensures |a| <= |b|
  {
    assert b == a + (b - a);
  }

  lemma SameByte(a: bv8, b: bv8)
    ensures a as int == b as int <==> a == b
    ensures 0 <= a as int < 256 && (a != 0 ==> 0 < a as int)
  {}

  lemma EveryPower(b: bv8)
    requires b != 0
    ensures exists i: nat :: i < 255 && Exp(i) == b
  {
    hide Exp;
    var s := seq(255, i requires 0 <= i < 255 => Exp(i) as int);
    forall i | 0 <= i < 255 ensures 0 < s[i] <= 255 {
      ExpNonZero(i);
      SameByte(Exp(i), b);
    }
    forall i, j | 0 <= i < j < 255 ensures s[i] != s[j] {
      SameByte(Exp(i), Exp(j));
      if Exp(i) == Exp(j) { ExpInjective(i, j); }
    }
    Pigeonhole(s, b as int);
    var i: nat :| i < 255 && s[i] == b as int;
    SameByte(Exp(i), b);
  }

  /** The discrete logarithm, unique by `ExpInjective`. */
  ghost function Log(b: bv8): (i: nat)
    requires b != 0
    ensures i < 255 && Exp(i) == b
  {
    EveryPower(b);
    var i: nat :| i < 255 && Exp(i) == b;
    i
  }

  // ----- the laws of a field -----

  lemma TimesDistributes(a: bv8, b: bv8, c: bv8)
    ensures Times(a, Add(b, c)) == Add(Times(a, b), Times(a, c))
  {
    PartialProductDistributes(a, b, c, 8);
  }

  lemma {:induction false} PartialProductZero(b: bv8, n: nat)
    ensures PartialProduct(0, b, n) == 0
    decreases n
  {
    hide Add, LowBit, Half;
    if n > 0 {
      XtimeLinear(0, 0);
      PartialProductZero(Half(b), n - 1);
      AddZero(0);
    }
  }

  lemma TimesZero(a: bv8)
    ensures Times(a, 0) == 0 && Times(0, a) == 0
  {
    hide Add, PartialProduct;
    PartialProductZero(a, 8);
    TimesDistributes(a, 0, 0);
    AddZero(0);
    AddZero(Times(a, 0));
  }

  lemma TimesCommutes(a: bv8, b: bv8)
    ensures Times(a, b) == Times(b, a)
  {
    hide Times, Exp;
    if a == 0 {
      TimesZero(b);
    } else if b == 0 {
      TimesZero(a);
    } else {
      TimesExp(Log(a), Log(b));
      TimesExp(Log(b), Log(a));
    }
  }

  lemma TimesAssociates(a: bv8, b: bv8, c: bv8)
    ensures Times(Times(a, b), c) == Times(a, Times(b, c))
  {
    hide Times, Exp;
    if a == 0 || b == 0 || c == 0 {
      TimesZero(a); TimesZero(b); TimesZero(c);
      TimesZero(Times(a, b)); TimesZero(Times(b, c));
    } else {
      var (i, j, k) := (Log(a), Log(b), Log(c));
      TimesExp(i, j); TimesExp(j, k);
      TimesExp(i + j, k); TimesExp(i, j + k);
    }
  }

  /** Every non-zero element has an inverse, hence there are no divisors of zero. */
  lemma TimesInverse(a: bv8)
    requires a != 0
    ensures Times(a, Exp(255 - Log(a))) == 1
  {
    hide Times, Exp;
    TimesExp(Log(a), 255 - Log(a));
    Powers();
  }

  lemma NoZeroDivisors(a: bv8, b: bv8)
    ensures Times(a, b) == 0 <==> a == 0 || b == 0
  {
    hide Times, Exp;
    TimesZero(a);
    TimesZero(b);
    if a != 0 && b != 0 {
      TimesExp(Log(a), Log(b));
      ExpNonZero(Log(a) + Log(b));
    }
  }

  lemma TimesDistributesRight(a: bv8, b: bv8, c: bv8)
    ensures Times(Add(a, b), c) == Add(Times(a, c), Times(b, c))
  {
    hide Times, Add;
    TimesCommutes(Add(a, b), c);
    TimesCommutes(a, c);
    TimesCommutes(b, c);
    TimesDistributes(c, a, b);
  }
}
