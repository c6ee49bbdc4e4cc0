/** The generator polynomials of more than 255 roots: alpha has order 255, so that the roots come
    again, and the coefficients of one cycle are woven with a row of Pascal's triangle modulo 2. */
module CycleStructure {
  import opened Arithmetic
  import opened GF256
  import opened Polynomial
  import opened ReedSolomon

  // ----- multiplication by x + root -----

  function Linear(p: seq<bv8>, root: bv8): (r: seq<bv8>)
    ensures |r| == |p| + 1
  {
    Product(p, [1, root])
  }

  function Before(p: seq<bv8>, k: int): bv8
  {
    if 0 <= k < |p| then p[k] else 0
  }

  lemma LinearAt(p: seq<bv8>, root: bv8, k: nat)
    requires k <= |p|
    ensures Linear(p, root)[k] == Add(Before(p, k), Times(Before(p, k - 1), root))
  {
    hide Times, Add;
    ProductLinear(p, root);
    TimesZero(root);
  }

  /** The product with two polynomials in sequence overlaps in one coefficient. */
  lemma LinearConcat(p: seq<bv8>, q: seq<bv8>, root: bv8)
    ensures Linear(p + q, root) == Sum(Linear(p, root) + Zeros(|q|), Zeros(|p|) + Linear(q, root))
  {
    hide Times, Add, Linear;
    var (a, b) := (Linear(p, root) + Zeros(|q|), Zeros(|p|) + Linear(q, root));
    forall k | 0 <= k <= |p + q| ensures Linear(p + q, root)[k] == Add(a[k], b[k]) {
      LinearAt(p + q, root, k);
      TimesZero(root);
      if k <= |p| { LinearAt(p, root, k); }
      if k >= |p| { LinearAt(q, root, k - |p|); }
      AddZero(a[k]);
      AddZero(b[k]);
      if k == |p| {
        AddZero(Times(Before(p, k - 1), root));
        AddZero(Before(q, 0));
        AddCommutes(Before(q, 0), Times(Before(p, k - 1), root));
      }
    }
  }

  lemma LinearZeros(n: nat, root: bv8)
    ensures Linear(Zeros(n), root) == Zeros(n + 1)
  {
    hide Times, Add, Linear;
    forall k | 0 <= k <= n ensures Linear(Zeros(n), root)[k] == 0 {
      LinearAt(Zeros(n), root, k);
      TimesZero(root);
      AddZero(0);
    }
  }

  lemma LinearScale(c: bv8, p: seq<bv8>, root: bv8)
    ensures Linear(Scale(c, p), root) == Scale(c, Linear(p, root))
  {
    hide Times, Add, Linear;
    forall k | 0 <= k <= |p| ensures Linear(Scale(c, p), root)[k] == Times(Linear(p, root)[k], c) {
      LinearAt(Scale(c, p), root, k);
      LinearAt(p, root, k);
      TimesZero(c);
      var (u, v) := (Before(p, k), Before(p, k - 1));
      assert Before(Scale(c, p), k) == Times(u, c) && Before(Scale(c, p), k - 1) == Times(v, c);
      TimesDistributesRight(u, Times(v, root), c);
      TimesAssociates(v, root, c);
      TimesAssociates(v, c, root);
      TimesCommutes(root, c);
    }
  }

  /** Words next to each other, with at least one zero between them, do not touch. */
  lemma LinearApart(p: seq<bv8>, z: nat, q: seq<bv8>, root: bv8)
    requires z > 0
    ensures Linear(p + (Zeros(z) + q), root) == Linear(p, root) + (Zeros(z - 1) + Linear(q, root))
  {
    hide Linear, Add;
    LinearConcat(p, Zeros(z) + q, root);
    LinearConcat(Zeros(z), q, root);
    LinearZeros(z, root);
    var (a, b) := (Linear(p, root), Linear(q, root));
    SumApart(Zeros(z), b);
    SumApart(a, Zeros(z - 1) + b);
  }

  /** Addition of words that do not overlap is concatenation. */
  lemma SumApart(a: seq<bv8>, b: seq<bv8>)
    ensures Sum(a + Zeros(|b|), Zeros(|a|) + b) == a + b
  {
    hide Add;
    forall k | 0 <= k < |a| + |b| ensures Sum(a + Zeros(|b|), Zeros(|a|) + b)[k] == (a + b)[k] {
      AddZero((a + b)[k]);
    }
  }

  // ----- one cycle -----

  /** x^255 + 1. */
  function Cycle(): (p: seq<bv8>)
    ensures |p| == 256
  {
    [1] + Zeros(254) + [1]
  }

  lemma FirstCoefficient(d: nat)
    ensures RootProduct(d)[0] == 1
  {
    GeneratorIsRootProduct(d);
  }

  /** The product of all 255 roots is x^255 + 1: the difference has fewer than 256 coefficients and
      255 roots. */
  lemma FullCycle()
    ensures RootProduct(255) == Cycle()
  {
    hide Times, Add, Exp, RootProduct;
    var p := RootProduct(255);
    FirstCoefficient(255);
    assert WrapWord(256) == Cycle() by { assert Zeros(0) + Cycle() == Cycle(); }
    WrapWordInCode(256, 255);
    var (low, one) := (p[1..], Zeros(254) + [1]);
    assert p == [1] + low && Cycle() == [1] + one;
    forall i: nat | i < 255 ensures Eval(low, Exp(i)) == Eval(one, Exp(i)) {
      var x := Exp(i);
      RootProductRoots(255, x);
      assert Eval(Cycle(), x) == 0;
      EvalConcat([1], low, x);
      EvalConcat([1], one, x);
      var high := Times(Eval([1], x), Power(x, 255));
      AddCancel(high, Eval(low, x));
      AddCancel(high, Eval(one, x));
    }
    SameLow(low, one);
  }

  lemma SameLow(a: seq<bv8>, b: seq<bv8>)
    requires |a| == |b| == 255 && forall i: nat :: i < 255 ==> Eval(a, Exp(i)) == Eval(b, Exp(i))
    ensures a == b
  {
    hide Times, Add, Exp;
    var diff := Sum(a, b);
    forall i: nat | i < 255 ensures Eval(diff, Exp(i)) == 0 && Eval(Zeros(255), Exp(i)) == 0 {
      EvalSum(a, b, Exp(i));
      AddCancel(Eval(a, Exp(i)), Eval(b, Exp(i)));
      EvalZeros(255, Exp(i));
    }
    MinimumDistance(diff, Zeros(255), 255);
    DistanceBound(diff, Zeros(255));
    forall k | 0 <= k < 255 ensures a[k] == b[k] {
      assert diff[k] == 0;
      AddCancel(a[k], b[k]);
    }
  }

  /** Without its last root the cycle has no zero coefficient. */
  lemma {:induction false} CycleDense(k: nat)
    requires k < 255
    ensures RootProduct(254)[k] != 0
  {
    hide Times, Add, Exp, Linear, RootProduct, Cycle;
    var (p, root) := (RootProduct(254), Exp(254));
    if k == 0 {
      FirstCoefficient(254);
    } else {
      CycleDense(k - 1);
      FullCycle();
      assert RootProduct(255) == Linear(p, root) by { LinearStep(254); }
      LinearAt(p, root, k);
      CycleInside(k);
      AddCancel(p[k], Times(p[k - 1], root));
      ExpNonZero(254);
      NoZeroDivisors(p[k - 1], root);
    }
  }

  lemma CycleInside(k: nat)
    requires 0 < k < 255
    ensures Cycle()[k] == 0
  {}

  lemma LinearStep(d: nat)
    ensures RootProduct(d + 1) == Linear(RootProduct(d), Exp(d))
  {
    hide Product, Exp;
  }

  // ----- all cycles -----

  /** Row q of Pascal's triangle modulo 2: the coefficients of (y + 1)^q. */
  function Row(q: nat): (r: seq<bv8>)
    ensures |r| == q + 1
  {
    if q == 0 then [1] else Linear(Row(q - 1), 1)
  }

  /** Multiples of a block, by the entries of a row, every 255 places. */
  function Woven(row: seq<bv8>, block: seq<bv8>): (p: seq<bv8>)
    requires |row| > 0 && 0 < |block| <= 255
    ensures |p| == 255 * (|row| - 1) + |block|
  {
    var n := |row| - 1;
    if n == 0 then Scale(row[0], block)
    else Woven(row[..n], block) + (Zeros(255 - |block|) + Scale(row[n], block))
  }

  /** A root within a cycle goes into the block. */
  lemma {:induction false} WovenRoot(row: seq<bv8>, block: seq<bv8>, root: bv8)
    requires |row| > 0 && 0 < |block| < 255
    ensures Linear(Woven(row, block), root) == Woven(row, Linear(block, root))
    decreases |row|
  {
    hide Linear, Scale;
    var n := |row| - 1;
    LinearScale(row[n], block, root);
    if n > 0 {
      WovenRoot(row[..n], block, root);
      LinearApart(Woven(row[..n], block), 255 - |block|, Scale(row[n], block), root);
    }
  }

  /** The last root of a cycle goes into the row. */
  lemma {:induction false} WovenCycle(row: seq<bv8>, block: seq<bv8>, root: bv8)
    requires |row| > 0 && |block| == 255 && Linear(block, root) == Cycle()
    ensures Linear(Woven(row, block), root) == Woven(Linear(row, 1), [1])
    decreases |row|
  {
    hide Linear, Add, Times, Woven, Scale, Cycle;
    var (n, b) := (|row| - 1, row[|row| - 1]);
    LinearScale(b, block, root);
    ScaleCycle(b);
    WovenLast(row, block);
    if n == 0 {
      assert row == [b];
      LinearOne(b);
      WovenOne([b], b);
      assert [b] + [b] == [b, b];
    } else {
      WovenCycle(row[..n], block, root);
      assert row == row[..n] + [b];
      assert Zeros(0) + Scale(b, block) == Scale(b, block);
      NextCycle(row[..n], b, Woven(row[..n], block), Scale(b, block), root);
    }
  }

  /** One more entry of the row, whose multiple of the cycle overlaps the end of those before. */
  lemma NextCycle(front: seq<bv8>, b: bv8, p: seq<bv8>, last: seq<bv8>, root: bv8)
    requires front != [] && Linear(p, root) == Woven(Linear(front, 1), [1])
    requires |last| == 255 && Linear(last, root) == [b] + Zeros(254) + [b]
    ensures Linear(p + last, root) == Woven(Linear(front + [b], 1), [1])
  {
    hide Linear, Add, Woven;
    LinearConcat(p, last, root);
    LinearSnoc(front, b);
    var (w, n) := (Linear(front, 1), |front|);
    var (u, c) := (w[..n], Add(w[n], b));
    assert w == u + [w[n]];
    WovenOne(u, w[n]);
    WovenOne(u, c);
    WovenOne(u + [c], b);
    OverlapOne(Linear(p, root), b);
  }

  lemma WovenLast(row: seq<bv8>, block: seq<bv8>)
    requires |row| > 0 && 0 < |block| <= 255
    ensures var n := |row| - 1;
            Woven(row, block) == if n == 0 then Scale(row[0], block)
                                 else Woven(row[..n], block) + (Zeros(255 - |block|) + Scale(row[n], block))
  {}

  lemma WovenOne(row: seq<bv8>, c: bv8)
    requires |row| > 0
    ensures Woven(row + [c], [1]) == Woven(row, [1]) + Zeros(254) + [c]
    ensures Woven([c], [1]) == [c]
  {
    hide Times;
    TimesOne(c);
    assert Scale(c, [1]) == [c];
    assert (row + [c])[..|row|] == row;
  }

  lemma ScaleCycle(b: bv8)
    ensures Scale(b, Cycle()) == [b] + Zeros(254) + [b]
  {
    hide Times;
    TimesOne(b);
    TimesZero(b);
  }

  lemma LinearOne(b: bv8)
    ensures Linear([b], 1) == [b, b]
  {
    hide Times, Add, Linear;
    LinearAt([b], 1, 0);
    LinearAt([b], 1, 1);
    TimesZero(1);
    TimesCommutes(b, 1);
    TimesOne(b);
    AddZero(b);
  }

  lemma LinearSnoc(front: seq<bv8>, b: bv8)
    requires front != []
    ensures var (w, n) := (Linear(front, 1), |front|); Linear(front + [b], 1) == w[..n] + [Add(w[n], b)] + [b]
  {
    hide Add, Linear;
    LinearConcat(front, [b], 1);
    LinearOne(b);
    var (w, n) := (Linear(front, 1), |front|);
    forall k | 0 <= k < n ensures Add(w[k], 0) == w[k] {
      AddZero(w[k]);
    }
    AddZero(b);
  }

  lemma OverlapOne(a: seq<bv8>, b: bv8)
    requires |a| > 0
    ensures var n := |a| - 1;
            Sum(a + Zeros(255), Zeros(n) + ([b] + Zeros(254) + [b])) == a[..n] + [Add(a[n], b)] + Zeros(254) + [b]
  {
    hide Add;
    var n := |a| - 1;
    var (s, t) := (a + Zeros(255), Zeros(n) + ([b] + Zeros(254) + [b]));
    forall k | 0 <= k < |s| ensures Add(s[k], t[k]) == (a[..n] + [Add(a[n], b)] + Zeros(254) + [b])[k] {
      AddZero(s[k]);
      AddZero(t[k]);
    }
  }

  /** The generator of degree 255 q + r: the one of degree r, every 255 places, by the entries of row q. */
  lemma {:induction false} GeneratorWoven(q: nat, r: nat)
    requires r < 255
    ensures RootProduct(255 * q + r) == Woven(Row(q), RootProduct(r))
    decreases q, r
  {
    hide Linear, Woven, Exp, Product;
    if r > 0 {
      GeneratorWoven(q, r - 1);
      ExpCycle(q, r - 1);
      LinearStep(255 * q + r - 1);
      LinearStep(r - 1);
      WovenRoot(Row(q), RootProduct(r - 1), Exp(r - 1));
    } else if q > 0 {
      GeneratorWoven(q - 1, 254);
      ExpCycle(q - 1, 254);
      LinearStep(255 * (q - 1) + 254);
      LinearStep(254);
      FullCycle();
      WovenCycle(Row(q - 1), RootProduct(254), Exp(254));
    } else {
      WovenOne([1], 1);
    }
  }

  lemma ExpCycle(q: nat, r: nat)
    requires r < 255
    ensures Exp(255 * q + r) == Exp(r)
  {
    hide Exp;
    ExpModulo(255 * q + r);
  }

  // ----- rows of odd entries only -----

  /** Is entry i of row q of Pascal's triangle odd? */
  predicate Odd(q: nat, i: int) {
    if q == 0 then i == 0 else Odd(q - 1, i) != Odd(q - 1, i - 1)
  }

  lemma {:induction false} OddOutside(q: nat, i: int)
    requires i < 0 || i > q
    ensures !Odd(q, i)
  {
    if q > 0 {
      OddOutside(q - 1, i);
      OddOutside(q - 1, i - 1);
    }
  }

  lemma {:induction false} RowOdd(q: nat, i: nat)
    requires i <= q
    ensures Row(q)[i] == if Odd(q, i) then 1 else 0
  {
    hide Times, Linear;
    if q > 0 {
      LinearAt(Row(q - 1), 1, i);
      if i < q { RowOdd(q - 1, i); } else { OddOutside(q - 1, i); }
      if i > 0 { RowOdd(q - 1, i - 1); } else { OddOutside(q - 1, i - 1); }
      TimesOne(1);
      TimesZero(1);
    }
  }

  /** Row 2s is row s with zeros in between. */
  lemma {:induction false} OddDouble(s: nat, i: int)
    ensures Odd(2 * s, i) == (i % 2 == 0 && Odd(s, i / 2))
  {
    if s > 0 {
      OddDouble(s - 1, i);
      OddDouble(s - 1, i - 1);
      OddDouble(s - 1, i - 2);
      assert Odd(2 * s, i) == (Odd(2 * s - 1, i) != Odd(2 * s - 1, i - 1));
      assert (i - 2) / 2 == i / 2 - 1 && (i - 2) % 2 == i % 2;
    }
  }

  ghost predicate AllOdd(q: nat) {
    forall i :: 0 <= i <= q ==> Odd(q, i)
  }

  /** 255 times a power of two. */
  ghost predicate WholeCycles(n: nat) {
    exists m: nat :: n == 255 * Power2(m)
  }

  ghost predicate IsPower(n: nat) {
    exists m: nat :: n == Power2(m)
  }

  lemma PowerHalves(n: nat)
    requires n > 1
    ensures IsPower(n) <==> n % 2 == 0 && IsPower(n / 2)
  {
    if m: nat :| n == Power2(m) {
      assert m > 0 && n / 2 == Power2(m - 1);
    }
    if m: nat :| n / 2 == Power2(m) && n % 2 == 0 {
      assert n == Power2(m + 1);
    }
  }

  lemma PowerOne()
    ensures IsPower(1)
  {
    assert Power2(0) == 1;
  }

  /** The rows of odd entries only are those one below a power of two. */
  lemma {:induction false} AllOddExactly(q: nat)
    ensures AllOdd(q) <==> IsPower(q + 1)
  {
    hide IsPower, Odd;
    if q == 0 {
      PowerOne();
      assert AllOdd(0) by { FirstRow(); }
    } else {
      PowerHalves(q + 1);
      if q % 2 == 0 {
        OddDouble(q / 2, 1);
        assert !Odd(q, 1);
      } else {
        AllOddExactly(q / 2);
        AllOddHalves(q / 2);
        assert q == 2 * (q / 2) + 1 && (q + 1) / 2 == q / 2 + 1;
      }
    }
  }

  lemma FirstRow()
    ensures Odd(0, 0)
  {}

  /** Row 2s + 1 has every entry of row s twice. */
  lemma OddTwice(s: nat, i: int)
    ensures Odd(2 * s + 1, i) == Odd(s, i / 2)
  {
    hide Odd;
    OddDouble(s, i);
    OddDouble(s, i - 1);
    OddStep(2 * s + 1, i);
  }

  lemma AllOddHalves(s: nat)
    ensures AllOdd(2 * s + 1) <==> AllOdd(s)
  {
    hide Odd;
    if AllOdd(2 * s + 1) {
      forall i | 0 <= i <= s ensures Odd(s, i) {
        OddTwice(s, 2 * i);
        assert Odd(2 * s + 1, 2 * i);
      }
    } else {
      var i :| 0 <= i <= 2 * s + 1 && !Odd(2 * s + 1, i);
      OddTwice(s, i);
      assert !Odd(s, i / 2);
    }
  }

  // ----- weights -----

  lemma {:induction false} WeightConcat(a: seq<bv8>, b: seq<bv8>)
    ensures Weight(a + b) == Weight(a) + Weight(b)
  {
    if a == [] {
      assert a + b == b;
    } else {
      assert (a + b)[1..] == a[1..] + b;
      WeightConcat(a[1..], b);
    }
  }

  lemma {:induction false} WeightZeros(n: nat)
    ensures Weight(Zeros(n)) == 0
  {
    if n > 0 {
      assert Zeros(n)[1..] == Zeros(n - 1);
      WeightZeros(n - 1);
    }
  }

  lemma ScaleZero(block: seq<bv8>)
    ensures Scale(0, block) == Zeros(|block|)
  {
    hide Times;
    forall k | 0 <= k < |block| ensures Times(block[k], 0) == 0 {
      TimesCommutes(block[k], 0);
      TimesZero(block[k]);
    }
  }

  lemma {:induction false} WovenWeight(row: seq<bv8>, block: seq<bv8>)
    requires |row| > 0 && 0 < |block| <= 255
    ensures Weight(Woven(row, block)) <= Weight(row) * |block|
    decreases |row|
  {
    hide Scale, Weight, Woven;
    var (n, z) := (|row| - 1, 255 - |block|);
    var last := Scale(row[n], block);
    WovenLast(row, block);
    assert row == row[..n] + [row[n]];
    WeightConcat(row[..n], [row[n]]);
    ScaleZero(block);
    WeightZeros(|block|);
    WeightOne(row[n]);
    if n > 0 {
      WovenWeight(row[..n], block);
      WeightConcat(Woven(row[..n], block), Zeros(z) + last);
      WeightConcat(Zeros(z), last);
      WeightZeros(z);
    } else {
      assert row == [row[0]];
    }
  }

  lemma WeightOne(c: bv8)
    ensures Weight([c]) == if c == 0 then 0 else 1
  {
    assert [c][1..] == [];
  }

  /** Where all entries are odd and the block is dense, the whole is. */
  lemma {:induction false} WovenDense(row: seq<bv8>, block: seq<bv8>, k: nat)
    requires |row| > 0 && |block| == 255 && k < 255 * |row|
    requires (forall i :: 0 <= i < |row| ==> row[i] != 0) && (forall i :: 0 <= i < 255 ==> block[i] != 0)
    ensures Woven(row, block)[k] != 0
    decreases |row|
  {
    hide Times;
    var n := |row| - 1;
    if k < 255 * n {
      WovenDense(row[..n], block, k);
    } else {
      NoZeroDivisors(block[k - 255 * n], row[n]);
    }
  }

  lemma {:induction false} WeightGap(p: seq<bv8>, k: nat)
    requires k < |p| && p[k] == 0
    ensures Weight(p) < |p|
  {
    if k > 0 { WeightGap(p[1..], k - 1); }
  }

  /** Beyond 255 roots the generator has at least two zero coefficients, or one if their number is
      even, unless e + 1 is 255 times a power of two. */
  lemma GeneratorSparse(e: nat)
    requires e > 255 && !WholeCycles(e + 1)
    ensures Weight(RootProduct(e)) <= 2 * (e / 2)
  {
    hide RootProduct, Woven, Row, Odd, Weight;
    var (q, r) := (e / 255, e % 255);
    GeneratorWoven(q, r);
    WovenWeight(Row(q), RootProduct(r));
    if r < 254 {
      MulOrder(q + 1, Weight(Row(q)), r + 1);
      BlocksSmall(q, r);
    } else {
      NotAllOdd(q);
      var i :| 0 <= i <= q && !Odd(q, i);
      RowOdd(q, i);
      WeightGap(Row(q), i);
      MulOrder(q, Weight(Row(q)), 255);
    }
  }

  lemma BlocksSmall(q: nat, r: nat)
    requires q > 0 && r < 254
    ensures (q + 1) * (r + 1) <= 2 * ((255 * q + r) / 2)
  {
    NotNegative(q - 1, 253 - r);
    var product := q * r;
    assert (q - 1) * (253 - r) == 253 * q - product - 253 + r;
    assert (q + 1) * (r + 1) == product + q + r + 1;
  }

  lemma NotAllOdd(q: nat)
    requires !WholeCycles(255 * q + 255)
    ensures exists i :: 0 <= i <= q && !Odd(q, i)
  {
    hide Odd;
    AllOddExactly(q);
    assert !IsPower(q + 1) by {
      forall m: nat ensures q + 1 != Power2(m) {
        assert 255 * q + 255 != 255 * Power2(m);
      }
    }
  }

  /** In that case it has none. */
  lemma GeneratorDense(e: nat, k: nat)
    requires WholeCycles(e + 1) && k <= e
    ensures RootProduct(e)[k] != 0
  {
    hide RootProduct, Row, Odd, Woven;
    var m: nat :| e + 1 == 255 * Power2(m);
    var q := Power2(m) - 1;
    AllOddExactly(q);
    assert IsPower(q + 1) by { assert q + 1 == Power2(m); }
    GeneratorWoven(q, 254);
    forall i | 0 <= i <= q ensures Row(q)[i] != 0 {
      RowOdd(q, i);
      assert Odd(q, i);
    }
    forall i | 0 <= i < 255 ensures RootProduct(254)[i] != 0 {
      CycleDense(i);
    }
    WovenDense(Row(q), RootProduct(254), k);
  }

  /** With one root more it is x^(e+1) + 1. */
  lemma NextSparse(e: nat)
    requires WholeCycles(e + 1)
    ensures Weight(RootProduct(e + 1)) <= 2
  {
    hide RootProduct, Woven, Row, Odd, Weight;
    var m: nat :| e + 1 == 255 * Power2(m);
    var q := Power2(m);
    GeneratorWoven(q, 0);
    WovenWeight(Row(q), RootProduct(0));
    AllOddExactly(q - 1);
    assert IsPower(q - 1 + 1) by { assert q - 1 + 1 == Power2(m); }
    forall i | 0 < i < q ensures Row(q)[i] == 0 {
      RowOdd(q, i);
      assert Odd(q - 1, i) && Odd(q - 1, i - 1);
      OddStep(q, i);
    }
    EndsWeight(Row(q));
  }

  lemma OddStep(q: nat, i: int)
    requires q > 0
    ensures Odd(q, i) == (Odd(q - 1, i) != Odd(q - 1, i - 1))
  {}

  lemma EndsWeight(p: seq<bv8>)
    requires |p| >= 2 && forall i :: 0 < i < |p| - 1 ==> p[i] == 0
    ensures Weight(p) <= 2
  {
    var n := |p| - 2;
    assert p == [p[0]] + Zeros(n) + [p[n + 1]];
    WeightConcat([p[0]] + Zeros(n), [p[n + 1]]);
    WeightConcat([p[0]], Zeros(n));
    WeightZeros(n);
  }
}
