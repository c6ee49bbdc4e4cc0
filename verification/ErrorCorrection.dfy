/** The promise that up to e/2 wrong bytes are survived: for which numbers of data and parity bytes
    it is kept. */
module ErrorCorrection {
  import opened CycleStructure
  import opened GF256
  import opened Polynomial
  import opened ReedSolomon

  // ----- the promise -----

  /** Two messages whose codewords are both within e/2 bytes of what was received. */
  ghost predicate BothNear(data: seq<bv8>, other: seq<bv8>, e: nat, received: seq<bv8>)
    requires |received| == |data| + e == |other| + e
  {
    2 * Distance(Codeword(data, e), received) <= e && 2 * Distance(Codeword(other, e), received) <= e
  }

  /** What was received determines a message of `k` bytes, if at most e/2 bytes are wrong. */
  ghost predicate Correctable(k: nat, e: nat) {
    forall data: seq<bv8>, other: seq<bv8>, received: seq<bv8> ::
      |data| == k && |other| == k && |received| == k + e && BothNear(data, other, e, received) ==> data == other
  }

  lemma NearDistance(data: seq<bv8>, other: seq<bv8>, e: nat, received: seq<bv8>)
    requires |received| == |data| + e == |other| + e && BothNear(data, other, e, received)
    ensures Distance(Codeword(data, e), Codeword(other, e)) <= e
  {
    hide Codeword, Distance;
    var (c, d) := (Codeword(data, e), Codeword(other, e));
    DistanceTriangle(c, received, d);
    DistanceTriangle(received, d, d);
  }

  // ----- a light codeword breaks it -----

  /** The first `h` non-zero coefficients. */
  function Half(w: seq<bv8>, h: nat): (v: seq<bv8>)
    ensures |v| == |w|
  {
    if w == [] then []
    else if w[0] != 0 && h > 0 then [w[0]] + Half(w[1..], h - 1)
    else [0] + Half(w[1..], h)
  }

  lemma {:induction false} HalfWay(w: seq<bv8>, h: nat)
    ensures Distance(Zeros(|w|), Half(w, h)) <= h
    ensures Distance(w, Half(w, h)) == if Weight(w) > h then Weight(w) - h else 0
  {
    if w != [] {
      var rest := if w[0] != 0 && h > 0 then h - 1 else h;
      HalfWay(w[1..], rest);
      assert Zeros(|w|)[1..] == Zeros(|w[1..]|);
      assert Half(w, h)[1..] == Half(w[1..], rest);
    }
  }

  lemma {:induction false} RemainderZeros(j: nat, gen: seq<bv8>)
    requires |gen| > 0
    ensures Remainder(Zeros(j), gen) == Zeros(|gen|)
  {
    hide Times, Add;
    if j > 0 {
      RemainderZeros(j - 1, gen);
      assert Zeros(j)[..j - 1] == Zeros(j - 1);
      AddZero(0);
      var rem := Zeros(|gen|);
      forall i | 0 <= i < |gen| ensures Step(rem, gen, 0)[i] == 0 {
        TimesCommutes(gen[i], 0);
        TimesZero(gen[i]);
      }
    }
  }

  /** Leading zeros of the data change nothing. */
  lemma {:induction false} RemainderLeading(j: nat, data: seq<bv8>, gen: seq<bv8>)
    requires |gen| > 0
    ensures Remainder(Zeros(j) + data, gen) == Remainder(data, gen)
    decreases |data|
  {
    hide Step;
    if data == [] {
      assert Zeros(j) + data == Zeros(j);
      RemainderZeros(j, gen);
    } else {
      RemainderLeading(j, data[..|data| - 1], gen);
      assert (Zeros(j) + data)[..j + |data| - 1] == Zeros(j) + data[..|data| - 1];
    }
  }

  lemma CodewordLeading(j: nat, data: seq<bv8>, e: nat)
    ensures Codeword(Zeros(j) + data, e) == Zeros(j) + Codeword(data, e)
  {
    hide Remainder;
    if e > 0 { RemainderLeading(j, data, Generator(e)); }
  }

  lemma CodewordZeros(k: nat, e: nat)
    ensures Codeword(Zeros(k), e) == Zeros(k + e)
  {
    hide Remainder;
    if e > 0 { RemainderZeros(k, Generator(e)); }
  }

  /** A message, not all zeros, whose codeword is that light: half-way between it and the zero
      codeword nothing tells them apart. */
  lemma LightBreaks(data: seq<bv8>, e: nat)
    requires data != Zeros(|data|) && Weight(Codeword(data, e)) <= 2 * (e / 2)
    ensures !Correctable(|data|, e)
  {
    hide Codeword, Distance, Weight, Half;
    var (c, k) := (Codeword(data, e), |data|);
    var received := Half(c, e / 2);
    HalfWay(c, e / 2);
    CodewordZeros(k, e);
    assert BothNear(data, Zeros(k), e, received);
  }

  /** The same with zeros before the data. */
  lemma LightBreaksLonger(data: seq<bv8>, e: nat, k: nat)
    requires |data| <= k && data != Zeros(|data|) && Weight(Codeword(data, e)) <= 2 * (e / 2)
    ensures !Correctable(k, e)
  {
    hide Codeword, Correctable, Weight;
    var j := k - |data|;
    var longer := Zeros(j) + data;
    CodewordLeading(j, data, e);
    WeightConcat(Zeros(j), Codeword(data, e));
    WeightZeros(j);
    assert longer[j..] == data && Zeros(k)[j..] == Zeros(|data|);
    LightBreaks(longer, e);
  }

  // ----- codewords of more than 255 bytes -----

  /** Beyond 255 bytes x^255 + 1 is a codeword. */
  lemma LongBreaks(k: nat, e: nat)
    requires k > 0 && 2 <= e <= 255 && k + e > 255
    ensures !Correctable(k, e)
  {
    hide Codeword, Correctable, Weight, InCode, Times, Exp;
    var n := k + e;
    var w := WrapWord(n);
    var (data, parity) := (w[..k], w[k..]);
    assert data + parity == w;
    WrapWordInCode(n, e);
    ParityUnique(data, parity);
    assert Codeword(data, e) == w by { CodewordOf(data, e); }
    WeightConcat(Zeros(n - 256), Cycle());
    WeightZeros(n - 256);
    EndsWeight(Cycle());
    assert w[n - 256] == 1 && data[n - 256] == 1;
    LightBreaks(data, e);
  }

  lemma CodewordOf(data: seq<bv8>, e: nat)
    ensures Codeword(data, e) == data + Encoded(data, e)
  {}

  // ----- more than 255 parity bytes -----

  lemma CodewordProduct(data: seq<bv8>, e: nat)
    requires e > 0
    ensures Codeword(data, e) == Product(Quotient(data, Generator(e)), RootProduct(e))
  {
    hide Remainder, Quotient, Product;
    DivisionIdentity(data, Generator(e));
    GeneratorIsRootProduct(e);
  }

  lemma ProductConstant(c: bv8, q: seq<bv8>)
    requires |q| > 0
    ensures Product([c], q) == Scale(c, q)
  {
    hide Add, Scale, Product;
    var s := Scale(c, q);
    assert [] + [c] == [c];
    ProductLast([], c, q);
    ProductEmpty(q);
    forall k | 0 <= k < |q| ensures Add((Zeros(|q| - 1) + [0])[k], (Zeros(0) + s)[k]) == s[k] {
      AddZero(s[k]);
    }
  }

  /** One byte is encoded as that multiple of the generator. */
  lemma CodewordByte(b: bv8, e: nat)
    requires e > 0
    ensures Codeword([b], e) == Scale(b, RootProduct(e))
  {
    hide Times, Add, Product, Scale;
    CodewordProduct([b], e);
    assert [b][..0] == [];
    var gen := Generator(e);
    assert Remainder([], gen)[0] == 0;
    AddZero(b);
    assert Quotient([b], gen) == [b];
    ProductConstant(b, RootProduct(e));
  }

  /** And some two bytes as the generator with one root more. */
  lemma CodewordPair(e: nat) returns (data: seq<bv8>)
    requires e > 0
    ensures |data| == 2 && data[0] == 1 && Codeword(data, e) == RootProduct(e + 1)
  {
    hide Times, Add, Product, Exp, Scale;
    var gen := Generator(e);
    var r0 := Remainder([1], gen)[0];
    data := [1, Add(Exp(e), r0)];
    assert data[..1] == [1] && [1 as bv8][..0] == [];
    assert Remainder([], gen)[0] == 0;
    AddZero(1);
    AddCancel(Exp(e), r0);
    assert Quotient([1], gen) == [1];
    assert Quotient(data, gen) == [1, Exp(e)];
    CodewordProduct(data, e);
    ProductSwap(Exp(e), RootProduct(e));
    assert RootProduct(e + 1) == Product(RootProduct(e), [1, Exp(e)]);
  }

  lemma ProductSwap(root: bv8, q: seq<bv8>)
    requires |q| > 0
    ensures Product([1, root], q) == Product(q, [1, root])
  {
    hide Sum, Scale, Product;
    assert [1] + [root] == [1, root];
    ProductLast([1], root, q);
    ProductConstant(1, q);
    ScaleOne(q);
    assert Zeros(1) == [0];
    ProductLinear(q, root);
  }

  lemma ScaleOne(p: seq<bv8>)
    ensures Scale(1, p) == p
  {
    hide Times;
    forall k | 0 <= k < |p| ensures Times(p[k], 1) == p[k] {
      TimesCommutes(p[k], 1);
      TimesOne(p[k]);
    }
  }

  lemma HighBreaks(k: nat, e: nat)
    requires k > 0 && e > 255 && !(k == 1 && WholeCycles(e + 1))
    ensures !Correctable(k, e)
  {
    hide Codeword, Correctable, Weight, RootProduct;
    if WholeCycles(e + 1) {
      var data := CodewordPair(e);
      NextSparse(e);
      assert data != Zeros(2);
      LightBreaksLonger(data, e, k);
    } else {
      GeneratorSparse(e);
      CodewordByte(1, e);
      ScaleOne(RootProduct(e));
      assert [1 as bv8][0] != Zeros(1)[0];
      LightBreaksLonger([1], e, k);
    }
  }

  /** A dense generator keeps all multiples of it apart. */
  lemma {:induction false} MultiplesApart(a: bv8, b: bv8, p: seq<bv8>)
    requires a != b && forall i :: 0 <= i < |p| ==> p[i] != 0
    ensures Distance(Scale(a, p), Scale(b, p)) == |p|
  {
    hide Times, Add;
    if p != [] {
      var rest := p[1..];
      MultiplesApart(a, b, rest);
      assert Scale(a, p)[1..] == Scale(a, rest) && Scale(b, p)[1..] == Scale(b, rest);
      TimesDistributes(p[0], a, b);
      NoZeroDivisors(p[0], Add(a, b));
      AddCancel(a, b);
      AddCancel(Times(p[0], a), Times(p[0], b));
    }
  }

  lemma ByteSurvives(e: nat)
    requires WholeCycles(e + 1) && e > 0
    ensures Correctable(1, e)
  {
    hide Codeword, RootProduct, BothNear, Distance, WholeCycles;
    forall data: seq<bv8>, other: seq<bv8>, received: seq<bv8>
      | |data| == 1 && |other| == 1 && |received| == 1 + e && BothNear(data, other, e, received)
      ensures data == other
    {
      NearDistance(data, other, e, received);
      assert data == [data[0]] && other == [other[0]];
      CodewordByte(data[0], e);
      CodewordByte(other[0], e);
      if data[0] != other[0] {
        forall i | 0 <= i < |RootProduct(e)| ensures RootProduct(e)[i] != 0 {
          GeneratorDense(e, i);
        }
        MultiplesApart(data[0], other[0], RootProduct(e));
      }
    }
  }

  lemma ShortSurvives(k: nat, e: nat)
    requires k == 0 || e <= 1 || k + e <= 255
    ensures Correctable(k, e)
  {
    hide Codeword, BothNear, Distance;
    forall data: seq<bv8>, other: seq<bv8>, received: seq<bv8>
      | |data| == k && |other| == k && |received| == k + e && BothNear(data, other, e, received)
      ensures data == other
    {
      NearDistance(data, other, e, received);
      var (c, d) := (Codeword(data, e), Codeword(other, e));
      CodewordOf(data, e);
      CodewordOf(other, e);
      assert c[..k] == data && d[..k] == other;
      if k + e <= 255 {
        CodewordVanishes(data, e);
        CodewordVanishes(other, e);
        MinimumDistance(c, d, e);
      } else if e == 1 {
        NearSame(data, other, received);
      } else {
        DistanceTriangle(c, d, d);
      }
    }
  }

  lemma NearSame(data: seq<bv8>, other: seq<bv8>, received: seq<bv8>)
    requires |received| == |data| + 1 == |other| + 1 && BothNear(data, other, 1, received)
    ensures Codeword(data, 1) == Codeword(other, 1)
  {
    hide Codeword, Distance;
    DistanceTriangle(Codeword(data, 1), received, received);
    DistanceTriangle(Codeword(other, 1), received, received);
  }

  /** Up to e/2 wrong bytes are survived by k bytes of data exactly if nothing is to be decided, or
      the codeword has at most 255 bytes, or it is a single byte whose parity completes 1, 2, 4, ...
      whole cycles of the powers of alpha. */
  lemma CorrectableExactly(k: nat, e: nat)
    ensures Correctable(k, e) <==> k == 0 || e <= 1 || k + e <= 255 || (k == 1 && WholeCycles(e + 1))
  {
    hide Correctable, WholeCycles;
    if k == 0 || e <= 1 || k + e <= 255 {
      ShortSurvives(k, e);
    } else if k == 1 && WholeCycles(e + 1) {
      ByteSurvives(e);
    } else if e <= 255 {
      LongBreaks(k, e);
    } else {
      HighBreaks(k, e);
    }
  }
}
