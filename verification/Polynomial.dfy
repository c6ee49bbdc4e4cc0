/** Polynomials over GF(2^8) as coefficient sequences, highest degree first. */
module Polynomial {
  import opened GF256

  function Power(x: bv8, n: nat): bv8 {
    if n == 0 then 1 else Times(Power(x, n - 1), x)
  }

  /** Horner's rule. */
  function Eval(p: seq<bv8>, x: bv8): bv8 {
    if p == [] then 0
    else Add(Times(Eval(p[..|p| - 1], x), x), p[|p| - 1])
  }

  function Sum(a: seq<bv8>, b: seq<bv8>): (r: seq<bv8>)
    requires |a| == |b|
    ensures |r| == |a|
  {
    seq(|a|, i requires 0 <= i < |a| => Add(a[i], b[i]))
  }

  function Scale(c: bv8, p: seq<bv8>): (r: seq<bv8>)
    ensures |r| == |p|
  {
    seq(|p|, i requires 0 <= i < |p| => Times(p[i], c))
  }

  lemma {:induction false} PowerExp(i: nat, n: nat)
    ensures Power(Exp(i), n) == Exp(i * n)
  {
    hide Times, Exp;
    if n > 0 {
      PowerExp(i, n - 1);
      TimesExp(i * (n - 1), i);
      assert i * (n - 1) + i == i * n;
    } else {
      assert i * n == 0;
      ExpSmall();
    }
  }

  lemma {:induction false} EvalConcat(a: seq<bv8>, b: seq<bv8>, x: bv8)
    ensures Eval(a + b, x) == Add(Times(Eval(a, x), Power(x, |b|)), Eval(b, x))
  {
    hide Times, Add;
    if b == [] {
      assert a + b == a;
      TimesCommutes(Eval(a, x), 1);
      TimesOne(Eval(a, x));
      AddZero(Eval(a, x));
    } else {
      var (front, last) := (b[..|b| - 1], b[|b| - 1]);
      var (u, v) := (Times(Eval(a, x), Power(x, |front|)), Eval(front, x));
      EvalConcat(a, front, x);
      assert (a + b)[..|a + b| - 1] == a + front;
      TimesDistributesRight(u, v, x);
      TimesAssociates(Eval(a, x), Power(x, |front|), x);
      AddAssociates(Times(u, x), Times(v, x), last);
    }
  }

  lemma {:induction false} EvalSum(a: seq<bv8>, b: seq<bv8>, x: bv8)
    requires |a| == |b|
    ensures Eval(Sum(a, b), x) == Add(Eval(a, x), Eval(b, x))
  {
    hide Times, Add;
    if a == [] {
      AddZero(0);
    } else {
      var n := |a| - 1;
      EvalSum(a[..n], b[..n], x);
      assert Sum(a, b)[..n] == Sum(a[..n], b[..n]);
      TimesDistributesRight(Eval(a[..n], x), Eval(b[..n], x), x);
      AddSwap(Times(Eval(a[..n], x), x), Times(Eval(b[..n], x), x), a[n], b[n]);
    }
  }

  lemma {:induction false} EvalScale(c: bv8, p: seq<bv8>, x: bv8)
    ensures Eval(Scale(c, p), x) == Times(Eval(p, x), c)
  {
    hide Times, Add;
    if p == [] {
      TimesZero(c);
    } else {
      var n := |p| - 1;
      var v := Eval(p[..n], x);
      EvalScale(c, p[..n], x);
      assert Scale(c, p)[..n] == Scale(c, p[..n]);
      TimesDistributesRight(Times(v, x), p[n], c);
      TimesAssociates(v, x, c);
      TimesAssociates(v, c, x);
      TimesCommutes(x, c);
    }
  }

  function Zeros(n: nat): seq<bv8> {
    seq(n, i => 0)
  }

  lemma {:induction false} EvalZeros(n: nat, x: bv8)
    ensures Eval(Zeros(n), x) == 0
  {
    hide Times, Add;
    if n > 0 {
      EvalZeros(n - 1, x);
      assert Zeros(n)[..n - 1] == Zeros(n - 1);
      TimesZero(x);
      AddZero(0);
    }
  }

  lemma EvalConstant(c: bv8, x: bv8)
    ensures Eval([c], x) == c
  {
    assert [c][..0] == [];
    TimesZero(x);
    AddZero(c);
  }

  lemma EvalLast(front: seq<bv8>, b: bv8, x: bv8)
    ensures Eval(front + [b], x) == Add(Times(Eval(front, x), x), b)
  {
    assert (front + [b])[..|front|] == front;
  }

  /** The product of two polynomials, coefficient by coefficient. */
  function Product(p: seq<bv8>, q: seq<bv8>): (r: seq<bv8>)
    requires |q| > 0
    ensures |r| == |p| + |q| - 1
  {
    if p == [] then Zeros(|q| - 1)
    else
      var (front, last) := (p[..|p| - 1], p[|p| - 1]);
      Sum(Product(front, q) + [0], Zeros(|front|) + Scale(last, q))
  }

  lemma ProductLast(front: seq<bv8>, last: bv8, q: seq<bv8>)
    requires |q| > 0
    ensures Product(front + [last], q) == Sum(Product(front, q) + [0], Zeros(|front|) + Scale(last, q))
  {
    assert (front + [last])[..|front|] == front;
  }

  /** Its values are the products of the values. */
  lemma {:induction false} EvalProduct(p: seq<bv8>, q: seq<bv8>, x: bv8)
    requires |q| > 0
    ensures Eval(Product(p, q), x) == Times(Eval(p, x), Eval(q, x))
  {
    hide Times, Add, Sum, Scale;
    if p == [] {
      EvalZeros(|q| - 1, x);
      TimesZero(Eval(q, x));
    } else {
      var (front, last) := (p[..|p| - 1], p[|p| - 1]);
      var (u, v) := (Eval(front, x), Eval(q, x));
      EvalProduct(front, q, x);
      EvalSum(Product(front, q) + [0], Zeros(|front|) + Scale(last, q), x);
      EvalLast(Product(front, q), 0, x);
      AddZero(Times(Times(u, v), x));
      EvalConcat(Zeros(|front|), Scale(last, q), x);
      EvalZeros(|front|, x);
      TimesZero(Power(x, |q|));
      AddZero(Eval(Scale(last, q), x));
      EvalScale(last, q, x);
      // (u v) x + v last == (u x + last) v
      TimesAssociates(u, v, x);
      TimesCommutes(v, x);
      TimesAssociates(u, x, v);
      TimesCommutes(v, last);
      TimesDistributesRight(Times(u, x), last, v);
    }
  }

  // ----- words with few non-zero coefficients -----

  function Weight(p: seq<bv8>): (w: nat)
    ensures w <= |p|
  {
    if p == [] then 0 else (if p[0] == 0 then 0 else 1) + Weight(p[1..])
  }

  /** The number of positions in which two words differ. */
  function Distance(a: seq<bv8>, b: seq<bv8>): nat
    requires |a| == |b|
  {
    if a == [] then 0 else (if a[0] == b[0] then 0 else 1) + Distance(a[1..], b[1..])
  }

  lemma {:induction false} DistanceIsWeight(a: seq<bv8>, b: seq<bv8>)
    requires |a| == |b|
    ensures Distance(a, b) == Weight(Sum(a, b))
  {
    hide Add;
    if a != [] {
      DistanceIsWeight(a[1..], b[1..]);
      assert Sum(a, b)[1..] == Sum(a[1..], b[1..]);
      AddCancel(a[0], b[0]);
    }
  }

  lemma {:induction false} DistanceTriangle(a: seq<bv8>, b: seq<bv8>, c: seq<bv8>)
    requires |a| == |b| == |c|
    ensures Distance(a, c) <= Distance(a, b) + Distance(b, c)
    ensures Distance(a, b) == Distance(b, a)
    ensures Distance(a, b) == 0 <==> a == b
  {
    if a != [] {
      DistanceTriangle(a[1..], b[1..], c[1..]);
      assert a == [a[0]] + a[1..] && b == [b[0]] + b[1..];
    }
  }

  /** The i-th power sum of the values at their locators. */
  function PowerSum(values: seq<bv8>, locators: seq<bv8>, i: nat): bv8
    requires |values| == |locators|
  {
    if values == [] then 0
    else Add(Times(values[0], Power(locators[0], i)), PowerSum(values[1..], locators[1..], i))
  }

  /** Eliminate a locator `z`: multiply each value by the distance of its locator from `z`. */
  function Eliminated(values: seq<bv8>, locators: seq<bv8>, z: bv8): (r: seq<bv8>)
    requires |values| == |locators|
    ensures |r| == |values|
  {
    seq(|values|, j requires 0 <= j < |values| => Times(values[j], Add(locators[j], z)))
  }

  lemma {:induction false} EliminatedSum(values: seq<bv8>, locators: seq<bv8>, z: bv8, i: nat)
    requires |values| == |locators|
    ensures PowerSum(Eliminated(values, locators, z), locators, i)
            == Add(PowerSum(values, locators, i + 1), Times(z, PowerSum(values, locators, i)))
  {
    hide Times, Add;
    if values == [] {
      TimesZero(z);
      AddZero(0);
    } else {
      var (v, x) := (values[0], locators[0]);
      var (vs, xs) := (values[1..], locators[1..]);
      var p := Power(x, i);
      EliminatedSum(vs, xs, z, i);
      assert Eliminated(values, locators, z)[1..] == Eliminated(vs, xs, z);
      // v (x + z) x^i == v x^(i+1) + z v x^i
      TimesDistributes(v, x, z);
      TimesDistributesRight(Times(v, x), Times(v, z), p);
      TimesAssociates(v, x, p);
      TimesCommutes(x, p);
      TimesCommutes(v, z);
      TimesAssociates(z, v, p);
      TimesDistributes(z, Times(v, p), PowerSum(vs, xs, i));
      AddSwap(Times(v, Times(p, x)), Times(z, Times(v, p)), PowerSum(vs, xs, i + 1), Times(z, PowerSum(vs, xs, i)));
    }
  }

  lemma {:induction false} EliminatedWeight(values: seq<bv8>, locators: seq<bv8>, z: bv8)
    requires |values| == |locators| && z !in locators
    ensures Weight(Eliminated(values, locators, z)) == Weight(values)
  {
    hide Times, Add;
    if values != [] {
      EliminatedWeight(values[1..], locators[1..], z);
      assert Eliminated(values, locators, z)[1..] == Eliminated(values[1..], locators[1..], z);
      assert locators[0] in locators;
      AddCancel(locators[0], z);
      NoZeroDivisors(values[0], Add(locators[0], z));
    }
  }

  lemma {:induction false} WeightZeroSum(values: seq<bv8>, locators: seq<bv8>, i: nat)
    requires |values| == |locators| && Weight(values) == 0
    ensures PowerSum(values, locators, i) == 0
  {
    hide Times, Add;
    if values != [] {
      WeightZeroSum(values[1..], locators[1..], i);
      TimesZero(Power(locators[0], i));
      AddZero(0);
    }
  }

  ghost predicate Distinct(s: seq<bv8>) {
    forall i, j :: 0 <= i < j < |s| ==> s[i] != s[j]
  }

  /** A Vandermonde system of `e` equations at distinct locators has no non-zero solution with at
      most `e` non-zero values. */
  lemma {:induction false} LightSolutionIsZero(values: seq<bv8>, locators: seq<bv8>, e: nat)
    requires |values| == |locators| && Distinct(locators)
    requires Weight(values) <= e
    requires forall i: nat :: i < e ==> PowerSum(values, locators, i) == 0
    ensures Weight(values) == 0
    decreases |values|
  {
    hide Times, Add;
    if values != [] {
      var (v, z) := (values[0], locators[0]);
      var (vs, xs) := (values[1..], locators[1..]);
      if v == 0 {
        forall i: nat | i < e ensures PowerSum(vs, xs, i) == 0 {
          TimesZero(Power(z, i));
          AddZero(PowerSum(vs, xs, i));
          assert PowerSum(values, locators, i) == 0;
        }
        LightSolutionIsZero(vs, xs, e);
      } else {
        var ws := Eliminated(vs, xs, z);
        forall i: nat | i < e - 1 ensures PowerSum(ws, xs, i) == 0 {
          EliminatedHeadSum(values, locators, i);
        }
        EliminatedWeight(vs, xs, z);
        LightSolutionIsZero(ws, xs, e - 1);
        WeightZeroSum(vs, xs, 0);
        assert PowerSum(values, locators, 0) == 0;
        NoZeroDivisors(v, Power(z, 0));
        AddZero(Times(v, Power(z, 0)));
      }
    }
  }

  lemma EliminatedHeadSum(values: seq<bv8>, locators: seq<bv8>, i: nat)
    requires |values| == |locators| > 0
    requires PowerSum(values, locators, i) == 0 && PowerSum(values, locators, i + 1) == 0
    ensures PowerSum(Eliminated(values[1..], locators[1..], locators[0]), locators[1..], i) == 0
  {
    hide Times, Add;
    var (v, z) := (values[0], locators[0]);
    var (vs, xs) := (values[1..], locators[1..]);
    EliminatedSum(vs, xs, z, i);
    AddCancel(Times(v, Power(z, i)), PowerSum(vs, xs, i));
    AddCancel(Times(v, Power(z, i + 1)), PowerSum(vs, xs, i + 1));
    TimesAssociates(v, Power(z, i), z);
    TimesCommutes(Times(v, Power(z, i)), z);
    AddZero(Times(v, Power(z, i + 1)));
  }
}
