/** The Reed-Solomon encoder of section 7.5.2 of ISO/IEC 18004: lookup tables, the memoized
    generator polynomial and the shift-register division, with the code they define. */
module ReedSolomon {
  import opened GF256
  import opened Polynomial

  // ----- the generator polynomial -----

  /** One coefficient of (x + root) * (x^(d-1) + prev). */
  function NextCoefficient(prev: seq<bv8>, root: bv8, j: nat): bv8
    requires j <= |prev|
  {
    var v := if j == 0 then root else Times(prev[j - 1], root);
    if j < |prev| then Add(v, prev[j]) else v
  }

  function NextGenerator(prev: seq<bv8>, root: bv8): (next: seq<bv8>)
    ensures |next| == |prev| + 1
  {
    seq(|prev| + 1, j requires 0 <= j <= |prev| => NextCoefficient(prev, root, j))
  }

  /** The `d` lower coefficients of the monic generator of degree `d`. */
  function Generator(d: nat): (g: seq<bv8>)
    ensures |g| == d
  {
    if d == 0 then [] else NextGenerator(Generator(d - 1), Exp(d - 1))
  }

  /** The monic polynomial whose lower coefficients are `g`. */
  function Monic(g: seq<bv8>): (p: seq<bv8>)
    ensures |p| == |g| + 1
  {
    [1] + g
  }

  /** (x + alpha^0) (x + alpha^1) ... (x + alpha^(d-1)). */
  function RootProduct(d: nat): (p: seq<bv8>)
    ensures |p| == d + 1
  {
    if d == 0 then [1] else Product(RootProduct(d - 1), [1, Exp(d - 1)])
  }

  /** Multiplying by x + root adds the polynomial, moved up, to its multiple. */
  lemma {:induction false} ProductLinear(p: seq<bv8>, root: bv8)
    ensures Product(p, [1, root]) == Sum(p + [0], [0] + Scale(root, p))
  {
    hide Times, Add;
    AddZero(0);
    if p != [] {
      var n := |p| - 1;
      var (front, last) := (p[..n], p[n]);
      ProductLinear(front, root);
      TimesOne(last);
      TimesCommutes(root, last);
      AddZero(last);
      AddZero(Times(last, root));
      var (low, high) := (Product(front, [1, root]) + [0], Zeros(n) + Scale(last, [1, root]));
      var (up, multiple) := (p + [0], [0] + Scale(root, p));
      forall k | 0 <= k < n + 2 ensures Add(low[k], high[k]) == Add(up[k], multiple[k]) {
        if k < n {
          AddZero(low[k]);
        } else if k == n {
          AddZero(multiple[k]);
          AddCommutes(multiple[k], last);
        }
      }
    }
  }

  lemma NextGeneratorIsProduct(prev: seq<bv8>, root: bv8)
    ensures Monic(NextGenerator(prev, root)) == Product(Monic(prev), [1, root])
  {
    hide Times, Add;
    var (p, next) := (Monic(prev), Monic(NextGenerator(prev, root)));
    ProductLinear(p, root);
    forall k | 0 <= k < |next| ensures next[k] == Sum(p + [0], [0] + Scale(root, p))[k] {
      NextCoefficientIsSum(prev, root, k);
    }
  }

  lemma NextCoefficientIsSum(prev: seq<bv8>, root: bv8, k: nat)
    requires k <= |prev| + 1
    ensures Monic(NextGenerator(prev, root))[k]
            == Add((Monic(prev) + [0])[k], ([0] + Scale(root, Monic(prev)))[k])
  {
    hide Times, Add;
    var p := Monic(prev);
    if k == 0 {
      AddZero(1);
    } else {
      TimesOne(root);
      AddZero(Times(p[k - 1], root));
      if k <= |prev| {
        AddCommutes(prev[k - 1], Times(p[k - 1], root));
      }
    }
  }

  /** The coefficients are those of the product, for every degree. */
  lemma {:induction false} GeneratorIsRootProduct(d: nat)
    ensures Monic(Generator(d)) == RootProduct(d)
  {
    hide Monic, NextGenerator;
    if d == 0 {
      assert Monic([]) == [1] by { NoLowerCoefficients(); }
    } else {
      GeneratorIsRootProduct(d - 1);
      NextGeneratorIsProduct(Generator(d - 1), Exp(d - 1));
    }
  }

  lemma NoLowerCoefficients()
    ensures Monic([]) == [1]
  {}

  /** The generator vanishes at alpha^0 .. alpha^(d-1) and nowhere else. */
  lemma GeneratorRoots(d: nat, x: bv8)
    ensures Eval(Monic(Generator(d)), x) == 0 <==> exists i: nat :: i < d && x == Exp(i)
  {
    hide Times, Add, Exp;
    GeneratorIsRootProduct(d);
    RootProductRoots(d, x);
  }

  lemma EvalLinear(root: bv8, x: bv8)
    ensures Eval([1, root], x) == Add(x, root)
  {
    hide Times, Add;
    EvalConstant(1, x);
    EvalLast([1], root, x);
    TimesOne(x);
  }

  lemma {:induction false} RootProductRoots(d: nat, x: bv8)
    ensures Eval(RootProduct(d), x) == 0 <==> exists i: nat :: i < d && x == Exp(i)
  {
    hide Times, Add, Exp, Eval;
    if d == 0 {
      EvalConstant(1, x);
    } else {
      RootProductRoots(d - 1, x);
      EvalProduct(RootProduct(d - 1), [1, Exp(d - 1)], x);
      EvalLinear(Exp(d - 1), x);
      NoZeroDivisors(Eval(RootProduct(d - 1), x), Add(x, Exp(d - 1)));
      AddCancel(x, Exp(d - 1));
      if x == Exp(d - 1) {
        assert exists i: nat :: i < d && x == Exp(i);
      } else if i: nat :| i < d && x == Exp(i) {
        assert i < d - 1;
      }
    }
  }

  // ----- division by the generator -----

  /** One step of the shift register: feed in `b`, shift left, subtract factor * gen. */
  function Step(rem: seq<bv8>, gen: seq<bv8>, b: bv8): (next: seq<bv8>)
    requires |rem| == |gen| > 0
    ensures |next| == |gen|
  {
    Sum(rem[1..] + [0], Scale(Add(b, rem[0]), gen))
  }

  function Remainder(data: seq<bv8>, gen: seq<bv8>): (rem: seq<bv8>)
    requires |gen| > 0
    ensures |rem| == |gen|
  {
    if data == [] then Zeros(|gen|)
    else Step(Remainder(data[..|data| - 1], gen), gen, data[|data| - 1])
  }

  /** The factors that the division feeds back, highest degree first. */
  function Quotient(data: seq<bv8>, gen: seq<bv8>): (q: seq<bv8>)
    requires |gen| > 0
    ensures |q| == |data|
  {
    if data == [] then []
    else
      var front := data[..|data| - 1];
      Quotient(front, gen) + [Add(data[|data| - 1], Remainder(front, gen)[0])]
  }

  /** Division: data * x^e + remainder = quotient * generator, coefficient by coefficient. */
  lemma {:induction false} DivisionIdentity(data: seq<bv8>, gen: seq<bv8>)
    requires |gen| > 0
    ensures data + Remainder(data, gen) == Product(Quotient(data, gen), Monic(gen))
  {
    hide Times, Add, Step, Monic, Product;
    if data == [] {
      ProductEmpty(Monic(gen));
      assert data + Remainder(data, gen) == Zeros(|gen|);
    } else {
      var (front, b) := (data[..|data| - 1], data[|data| - 1]);
      var rem := Remainder(front, gen);
      DivisionIdentity(front, gen);
      ProductLast(Quotient(front, gen), Add(b, rem[0]), Monic(gen));
      DivisionStep(front, b, rem, gen);
      assert data == front + [b];
    }
  }

  lemma ProductEmpty(q: seq<bv8>)
    requires |q| > 0
    ensures Product([], q) == Zeros(|q| - 1)
  {}

  lemma DivisionStep(front: seq<bv8>, b: bv8, rem: seq<bv8>, gen: seq<bv8>)
    requires |rem| == |gen| > 0
    ensures front + [b] + Step(rem, gen, b)
            == Sum(front + rem + [0], Zeros(|front|) + Scale(Add(b, rem[0]), Monic(gen)))
  {
    hide Times, Add;
    var (n, f) := (|front|, Add(b, rem[0]));
    var (up, multiple) := (front + rem + [0], Zeros(n) + Scale(f, Monic(gen)));
    TimesOne(f);
    AddCommutes(rem[0], f);
    AddCancel(b, rem[0]);
    forall k | 0 <= k <= n + |gen| ensures Add(up[k], multiple[k]) == (front + [b] + Step(rem, gen, b))[k] {
      if k < n {
        AddZero(up[k]);
      } else if k > n {
        assert up[k] == (rem[1..] + [0])[k - n - 1];
        assert multiple[k] == Scale(f, gen)[k - n - 1];
      }
    }
  }

  // ----- the code -----

  function Encoded(data: seq<bv8>, e: nat): (parity: seq<bv8>)
    ensures |parity| == e
  {
    if e == 0 then [] else Remainder(data, Generator(e))
  }

  function Codeword(data: seq<bv8>, e: nat): (c: seq<bv8>)
    ensures |c| == |data| + e
  {
    data + Encoded(data, e)
  }

  /** All `e` syndromes of a word are zero. */
  ghost predicate InCode(word: seq<bv8>, e: nat) {
    forall i: nat :: i < e ==> Eval(word, Exp(i)) == 0
  }

  /** Every codeword, read as a polynomial, vanishes at alpha^0 .. alpha^(e-1). */
  lemma CodewordVanishes(data: seq<bv8>, e: nat)
    ensures InCode(Codeword(data, e), e)
  {
    hide Times, Exp;
    forall i: nat | i < e ensures Eval(Codeword(data, e), Exp(i)) == 0 {
      DivisionIdentity(data, Generator(e));
      EvalProduct(Quotient(data, Generator(e)), Monic(Generator(e)), Exp(i));
      GeneratorRoots(e, Exp(i));
      TimesZero(Eval(Quotient(data, Generator(e)), Exp(i)));
    }
  }

  /** The powers of alpha that the positions of a word of length `n` stand for. */
  function Locators(n: nat): (r: seq<bv8>)
    ensures |r| == n
  {
    if n == 0 then [] else [Exp(n - 1)] + Locators(n - 1)
  }

  lemma {:induction false} LocatorsAt(n: nat, p: nat)
    requires p < n
    ensures Locators(n)[p] == Exp(n - 1 - p)
  {
    hide Exp;
    if p > 0 {
      LocatorsAt(n - 1, p - 1);
    }
  }

  lemma LocatorsDistinct(n: nat)
    requires n <= 255
    ensures Distinct(Locators(n))
  {
    hide Exp;
    forall p, q | 0 <= p < q < n ensures Locators(n)[p] != Locators(n)[q] {
      LocatorsAt(n, p);
      LocatorsAt(n, q);
      if Exp(n - 1 - p) == Exp(n - 1 - q) {
        ExpInjective(n - 1 - p, n - 1 - q);
      }
    }
  }

  lemma {:induction false} SyndromeIsPowerSum(word: seq<bv8>, i: nat)
    ensures Eval(word, Exp(i)) == PowerSum(word, Locators(|word|), i)
  {
    hide Times, Add, Exp;
    if word != [] {
      var n := |word|;
      SyndromeIsPowerSum(word[1..], i);
      assert word == [word[0]] + word[1..];
      EvalConcat([word[0]], word[1..], Exp(i));
      EvalConstant(word[0], Exp(i));
      PowerExp(i, n - 1);
      PowerExp(n - 1, i);
      assert i * (n - 1) == (n - 1) * i;
      assert Locators(n)[1..] == Locators(n - 1);
    }
  }

  /** Distinct words of the code differ in more than `e` positions: the code is maximum distance
      separable as long as a codeword is not longer than the order of alpha. */
  lemma MinimumDistance(a: seq<bv8>, b: seq<bv8>, e: nat)
    requires |a| == |b| <= 255
    requires InCode(a, e) && InCode(b, e)
    ensures a == b || Distance(a, b) > e
  {
    hide Times, Add, Exp;
    var diff := Sum(a, b);
    DistanceIsWeight(a, b);
    DistanceTriangle(a, b, b);
    if Distance(a, b) <= e {
      forall i: nat | i < e ensures PowerSum(diff, Locators(|diff|), i) == 0 {
        EvalSum(a, b, Exp(i));
        AddZero(0);
        SyndromeIsPowerSum(diff, i);
      }
      LocatorsDistinct(|diff|);
      LightSolutionIsZero(diff, Locators(|diff|), e);
    }
  }

  /** x^255 + 1, with leading zeros up to length `n`. */
  function WrapWord(n: nat): (w: seq<bv8>)
    requires n > 255
    ensures |w| == n
  {
    Zeros(n - 256) + ([1] + Zeros(254) + [1])
  }

  /** alpha^255 = 1, so x^255 + 1 vanishes at every power of alpha. */
  lemma WrapWordInCode(n: nat, e: nat)
    requires n > 255
    ensures InCode(WrapWord(n), e) && InCode(Zeros(n), e)
  {
    hide Times, Add, Exp;
    forall i: nat | i < e ensures Eval(WrapWord(n), Exp(i)) == 0 && Eval(Zeros(n), Exp(i)) == 0 {
      var x := Exp(i);
      var middle := [1] + Zeros(254);
      EvalZeros(n, x);
      EvalZeros(n - 256, x);
      EvalConcat(Zeros(n - 256), middle + [1], x);
      TimesZero(Power(x, 256));
      AddZero(Eval(middle + [1], x));
      EvalConcat(middle, [1], x);
      EvalConcat([1], Zeros(254), x);
      EvalZeros(254, x);
      EvalConstant(1, x);
      TimesOne(Power(x, 254));
      AddZero(Power(x, 254));
      assert Power(x, 1) == Times(Power(x, 0), x);
      TimesOne(x);
      PowerExp(i, 255);
      PowerOfOne255(i);
      AddZero(1);
    }
  }

  lemma PowerOfOne255(i: nat)
    ensures Exp(i * 255) == 1
  {
    hide Exp;
    Powers();
    PowerOfOne(255, i);
    assert i * 255 == 255 * i;
  }

  lemma {:induction false} ZerosWeight(n: nat, tail: seq<bv8>)
    ensures Distance(Zeros(n) + tail, Zeros(n + |tail|)) == Weight(tail)
  {
    if n > 0 {
      ZerosWeight(n - 1, tail);
      assert (Zeros(n) + tail)[1..] == Zeros(n - 1) + tail;
      assert Zeros(n + |tail|)[1..] == Zeros(n - 1 + |tail|);
    } else {
      assert Zeros(0) + tail == tail;
      TailWeight(tail);
    }
  }

  lemma {:induction false} TailWeight(tail: seq<bv8>)
    ensures Distance(tail, Zeros(|tail|)) == Weight(tail)
  {
    if tail != [] {
      TailWeight(tail[1..]);
      assert Zeros(|tail|)[1..] == Zeros(|tail| - 1);
    }
  }

  lemma {:induction false} WrapWeight(n: nat)
    ensures Weight(Zeros(n) + [1]) == 1
  {
    if n > 0 {
      WrapWeight(n - 1);
      assert (Zeros(n) + [1])[1..] == Zeros(n - 1) + [1];
    } else {
      assert Zeros(0) + [1] == [1];
      assert [1 as bv8][1..] == [];
    }
  }

  lemma {:induction false} SingleErrorSum(values: seq<bv8>, locators: seq<bv8>)
    requires |values| == |locators| && Weight(values) == 1
    ensures PowerSum(values, locators, 0) != 0
  {
    hide Times, Add;
    var (vs, xs) := (values[1..], locators[1..]);
    TimesCommutes(values[0], 1);
    TimesOne(values[0]);
    AddZero(PowerSum(vs, xs, 0));
    AddZero(values[0]);
    if values[0] == 0 {
      SingleErrorSum(vs, xs);
    } else {
      WeightZeroSum(vs, xs, 0);
    }
  }

  /** Every pair of distinct words of length `n` in the code differs in more than `e` positions. */
  ghost predicate Separated(n: nat, e: nat) {
    forall a: seq<bv8>, b: seq<bv8> ::
      |a| == n && |b| == n && InCode(a, e) && InCode(b, e) && a != b ==> Distance(a, b) > e
  }

  /** The encoder accepts data of any length, but the distance that error correction needs is there
      exactly up to 255 bytes in all (or when there is at most one parity byte). */
  lemma SeparatedExactly(n: nat, e: nat)
    ensures Separated(n, e) <==> n <= 255 || e <= 1
  {
    hide Times, Add, Exp;
    if n <= 255 || e <= 1 {
      forall a: seq<bv8>, b: seq<bv8> | |a| == n && |b| == n && InCode(a, e) && InCode(b, e) && a != b
        ensures Distance(a, b) > e
      {
        if n <= 255 {
          MinimumDistance(a, b, e);
        } else {
          DistanceTriangle(a, b, b);
          if e == 1 && Distance(a, b) == 1 {
            var diff := Sum(a, b);
            DistanceIsWeight(a, b);
            SingleErrorSum(diff, Locators(n));
            SyndromeIsPowerSum(diff, 0);
            EvalSum(a, b, Exp(0));
            AddZero(0);
          }
        }
      }
    } else {
      var (a, b) := (WrapWord(n), Zeros(n));
      WrapWordInCode(n, e);
      var tail := [1] + Zeros(254) + [1];
      ZerosWeight(n - 256, tail);
      assert tail[1..] == Zeros(254) + [1];
      WrapWeight(254);
      assert a[n - 1] != b[n - 1];
      assert Distance(a, b) == 2;
    }
  }

  /** The parity bytes are the only ones that complete the data to a word of the code, however long
      the data is. */
  lemma ParityUnique(data: seq<bv8>, parity: seq<bv8>)
    requires |parity| <= 255
    ensures InCode(data + parity, |parity|) <==> parity == Encoded(data, |parity|)
  {
    hide Times, Add, Exp;
    var e := |parity|;
    var q := Encoded(data, e);
    CodewordVanishes(data, e);
    if InCode(data + parity, e) {
      // the data drop out of the difference of the two words
      var diff := Sum(parity, q);
      forall i: nat | i < e ensures Eval(diff, Exp(i)) == 0 && Eval(Zeros(e), Exp(i)) == 0 {
        var x := Exp(i);
        var high := Times(Eval(data, x), Power(x, e));
        EvalConcat(data, parity, x);
        EvalConcat(data, q, x);
        assert Eval(data + parity, x) == 0 == Eval(data + q, x);
        AddCancel(high, Eval(parity, x));
        AddCancel(high, Eval(q, x));
        EvalSum(parity, q, x);
        AddCancel(Eval(parity, x), Eval(q, x));
        EvalZeros(e, x);
      }
      MinimumDistance(diff, Zeros(e), e);
      DistanceBound(diff, Zeros(e));
      forall k | 0 <= k < e ensures parity[k] == q[k] {
        assert diff[k] == 0;
        AddCancel(parity[k], q[k]);
      }
    }
  }

  /** For every data exactly the computed parity completes it to a word of the code. */
  ghost predicate UniquelyCompleted(e: nat) {
    forall data: seq<bv8>, parity: seq<bv8> ::
      |parity| == e ==> (InCode(data + parity, e) <==> parity == Encoded(data, e))
  }

  /** From 256 parity bytes on, x^255 + 1 is a second completion of the empty data. */
  lemma ParityUniqueExactly(e: nat)
    ensures UniquelyCompleted(e) <==> e <= 255
  {
    hide Encoded, InCode;
    if e <= 255 {
      forall data: seq<bv8>, parity: seq<bv8> | |parity| == e
        ensures InCode(data + parity, e) <==> parity == Encoded(data, e)
      {
        ParityUnique(data, parity);
      }
    } else {
      var (a, b) := (WrapWord(e), Zeros(e));
      WrapWordInCode(e, e);
      assert [] + a == a && [] + b == b;
      assert a[e - 1] != b[e - 1];
    }
  }

  lemma {:induction false} DistanceBound(a: seq<bv8>, b: seq<bv8>)
    requires |a| == |b|
    ensures Distance(a, b) <= |a|
  {
    if a != [] {
      DistanceBound(a[1..], b[1..]);
    }
  }

  /** Up to e/2 wrong bytes leave the data determined: no other message of the same length has a
      codeword as close to the received word. */
  lemma ErrorsCorrectable(data: seq<bv8>, other: seq<bv8>, e: nat, received: seq<bv8>, errors: nat)
    requires |data| == |other| && |data| + e <= 255 && |received| == |data| + e
    requires 2 * errors <= e
    requires Distance(Codeword(data, e), received) <= errors
    requires Distance(Codeword(other, e), received) <= errors
    ensures data == other
  {
    hide Times, Exp;
    var (c, d) := (Codeword(data, e), Codeword(other, e));
    CodewordVanishes(data, e);
    CodewordVanishes(other, e);
    DistanceTriangle(c, received, d);
    DistanceTriangle(received, d, d);
    MinimumDistance(c, d, e);
    assert c[..|data|] == data && d[..|data|] == other;
  }

  // ----- the encoder as it runs -----

  /** C's remainder, which takes the sign of the dividend. */
  function TruncatedMod(k: int, m: int): int
    requires m > 0
  {
    if k >= 0 then k % m else -((-k) % m)
  }

  lemma {:induction false} ExpModulo(i: nat)
    ensures Exp(i) == Exp(i % 255)
  {
    hide Exp;
    if i >= 255 {
      ExpPeriodic(i);
      ExpModulo(i - 255);
      assert (i - 255) % 255 == i % 255;
    }
  }

  lemma LogExp(i: nat)
    requires i < 255
    ensures Exp(i) != 0 && Log(Exp(i)) == i
  {
    hide Exp;
    ExpNonZero(i);
    ExpInjective(i, Log(Exp(i)));
  }

  /** The static tables and the memo of generators that all calls share. */
  class Encoder {
    const expTable: array<bv8>
    const logTable: array<int>
    var cache: seq<seq<bv8>>

    ghost predicate Valid()
      reads this, expTable, logTable
    {
      && expTable.Length == 256 && logTable.Length == 256
      && (forall i :: 0 <= i < 256 ==> expTable[i] == Exp(i))
      && (forall b: bv8 :: b != 0 ==> logTable[b as int] == Log(b))
      && (forall d :: 0 <= d < |cache| ==> cache[d] == Generator(d))
    }

    constructor ()
      ensures Valid() && cache == []
    {
      var e := BuildExpTable();
      var l := BuildLogTable(e);
      expTable := e;
      logTable := l;
      cache := [];
    }

    /** Powers of alpha by repeated doubling, reduced by 0x11D. */
    static method BuildExpTable() returns (t: array<bv8>)
      ensures fresh(t) && t.Length == 256
      ensures forall i :: 0 <= i < 256 ==> t[i] == Exp(i)
    {
      t := new bv8[256];
      var x: bv16 := 1;
      for i := 0 to 255
        invariant x < 0x100 && x as bv8 == Exp(i)
        invariant forall k :: 0 <= k < i ==> t[k] == Exp(k)
      {
        t[i] := x as bv8;
        DoubleReduce(x);
        x := x << 1;
        if x & 0x100 != 0 {
          x := x ^ 0x11D;
        }
      }
      t[255] := t[0];
      Powers();
      ExpSmall();
    }

    static lemma DoubleReduce(x: bv16)
      requires x < 0x100
      ensures (x << 1) & 0x100 != 0 ==> (x << 1) ^ 0x11D < 0x100 && ((x << 1) ^ 0x11D) as bv8 == Xtime(x as bv8)
      ensures (x << 1) & 0x100 == 0 ==> x << 1 < 0x100 && (x << 1) as bv8 == Xtime(x as bv8)
    {}

    /** The inverse table: entry b holds the exponent of b; entry 0 stays at its initial 0. */
    static method BuildLogTable(e: array<bv8>) returns (t: array<int>)
      requires e.Length == 256 && forall i :: 0 <= i < 256 ==> e[i] == Exp(i)
      ensures fresh(t) && t.Length == 256
      ensures forall b: bv8 :: b != 0 ==> t[b as int] == Log(b)
    {
      hide Exp;
      t := new int[256](_ => 0);
      for i := 0 to 255
        invariant t.Length == 256
        invariant forall k :: 0 <= k < 256 ==> e[k] == Exp(k)
        invariant forall b: bv8 :: b != 0 && Log(b) < i ==> t[b as int] == Log(b)
      {
        ghost var before := t[..];
        t[e[i] as int] := i;
        ExpNonZero(i);
        LogExp(i);
        forall b: bv8 | b != 0 && Log(b) < i + 1 ensures t[b as int] == Log(b) {
          SameByte(b, Exp(i));
          if b != Exp(i) {
            assert t[b as int] == before[b as int];
          }
        }
      }
    }

    method Mul(a: bv8, b: bv8) returns (r: bv8)
      requires Valid()
      ensures r == Times(a, b)
    {
      hide Exp, Times;
      TimesZero(a);
      TimesZero(b);
      if a == 0 || b == 0 {
        return 0;
      }
      var sum := logTable[a as int] + logTable[b as int];
      TimesExp(Log(a), Log(b));
      if sum >= 255 {
        ExpPeriodic(sum);
        sum := sum - 255;
      }
      r := expTable[sum];
    }

    /** alpha^k for every integer k; a negative power is the inverse of the positive one. */
    method PowAlpha(k: int) returns (r: bv8)
      requires Valid()
      ensures k >= 0 ==> r == Exp(k)
      ensures k < 0 ==> Times(r, Exp(-k)) == 1
    {
      hide Exp, Times;
      var m := TruncatedMod(k, 255);
      if m < 0 {
        m := m + 255;
      }
      r := expTable[m];
      if k >= 0 {
        ExpModulo(k);
      } else {
        TimesExp(m, -k);
        ExpModulo(m - k);
        NegativeExponent(k);
        ExpSmall();
      }
    }

    static lemma NegativeExponent(k: int)
      requires k < 0
      ensures var m := TruncatedMod(k, 255); ((if m < 0 then m + 255 else m) - k) % 255 == 0
    {
      var m := TruncatedMod(k, 255);
      var q := (-k) / 255;
      assert -k == 255 * q + (-k) % 255;
      assert m - k == 255 * q;
    }

    /** (x + root) times the previous generator, coefficient by coefficient. */
    method BuildNext(prev: seq<bv8>, root: bv8) returns (next: array<bv8>)
      requires Valid()
      ensures fresh(next) && next[..] == NextGenerator(prev, root)
    {
      hide Times, Add;
      var d := |prev| + 1;
      next := new bv8[d](_ => 0);
      for j := 0 to d
        invariant forall i :: 0 <= i < j ==> next[i] == NextCoefficient(prev, root, i)
      {
        var v: bv8;
        if j == 0 {
          v := root;
        } else {
          v := Mul(prev[j - 1], root);
        }
        if j + 1 < d {
          v := Add(v, prev[j]);
        }
        next[j] := v;
      }
    }

    /** The memo is extended one degree at a time until it holds the requested one. */
    method GeneratorOf(degree: nat) returns (g: seq<bv8>)
      requires Valid()
      modifies this`cache
      ensures Valid() && g == Generator(degree)
      ensures old(cache) <= cache
      ensures |cache| == if |old(cache)| > degree then |old(cache)| else degree + 1
    {
      hide Exp, Times, Add;
      if cache == [] {
        cache := [[]];
      }
      while |cache| <= degree
        invariant Valid() && 0 < |cache|
        invariant old(cache) <= cache
        invariant |cache| <= degree + 1 || cache == old(cache)
        decreases degree - |cache|
      {
        var d := |cache|;
        var prev := cache[d - 1];
        var root := PowAlpha(d - 1);
        var next := BuildNext(prev, root);
        cache := cache + [next[..]];
      }
      g := cache[degree];
    }

    static method ShiftLeft(rem: array<bv8>)
      requires rem.Length > 0
      modifies rem
      ensures rem[..] == old(rem[1..]) + [0]
    {
      for j := 0 to rem.Length - 1
        invariant forall k :: 0 <= k < j ==> rem[k] == old(rem[k + 1])
        invariant forall k :: j <= k < rem.Length ==> rem[k] == old(rem[k])
      {
        rem[j] := rem[j + 1];
      }
      rem[rem.Length - 1] := 0;
    }

    /** rem += factor * gen; nothing to do for the factor 0. */
    method AddMultiple(rem: array<bv8>, gen: seq<bv8>, factor: bv8)
      requires Valid() && rem.Length == |gen|
      requires rem as object != expTable && rem as object != logTable
      modifies rem
      ensures rem[..] == Sum(old(rem[..]), Scale(factor, gen))
    {
      hide Times, Add;
      if factor != 0 {
        for j := 0 to |gen|
          invariant Valid()
          invariant forall k :: 0 <= k < j ==> rem[k] == Add(old(rem[k]), Times(gen[k], factor))
          invariant forall k :: j <= k < |gen| ==> rem[k] == old(rem[k])
        {
          var product := Mul(gen[j], factor);
          rem[j] := Add(rem[j], product);
        }
      } else {
        forall k | 0 <= k < |gen| ensures rem[k] == Add(old(rem[k]), Times(gen[k], factor)) {
          TimesZero(gen[k]);
          AddZero(rem[k]);
        }
      }
    }

    /** The shift-register division; `gen` must not be empty, as the first cell is read. */
    method ComputeRemainder(data: seq<bv8>, gen: seq<bv8>) returns (rem: array<bv8>)
      requires Valid() && |gen| > 0
      ensures fresh(rem) && rem[..] == Remainder(data, gen)
    {
      hide Times, Add;
      rem := new bv8[|gen|](_ => 0);
      for i := 0 to |data|
        invariant rem[..] == Remainder(data[..i], gen)
      {
        var factor := Add(data[i], rem[0]);
        ShiftLeft(rem);
        AddMultiple(rem, gen, factor);
        assert data[..i + 1][..i] == data[..i];
      }
      assert data[..|data|] == data;
    }

    method Encode(data: seq<bv8>, ecCount: nat) returns (out: seq<bv8>)
      requires Valid()
      modifies this`cache
      ensures Valid() && old(cache) <= cache
      ensures out == Encoded(data, ecCount) && InCode(data + out, ecCount)
    {
      hide Times, Add, Exp, Remainder;
      CodewordVanishes(data, ecCount);
      if ecCount == 0 {
        return [];
      }
      var gen := GeneratorOf(ecCount);
      var rem := ComputeRemainder(data, gen);
      out := rem[..];
    }
  }
}
