/** The choice of prime implicants in terms of what they cover. */
module GreedyCover {
  import opened Cubes
  import opened PrimeCover
  import QuineMcCluskey

  /** The minterms under none of these cubes. */
  ghost function Uncovered(cubes: seq<Cube>, on: set<bv8>): set<bv8> {
    set m | m in on && forall c :: c in cubes ==> !Covers(c, m)
  }

  /** The only prime implicant over `m`. */
  ghost predicate OnlyPrimeOver(p: Cube, on: set<bv8>, m: bv8) {
    m in on && Prime(p, on) && Covers(p, m) && forall q :: Prime(q, on) && Covers(q, m) ==> q == p
  }

  ghost predicate EssentialPrime(p: Cube, on: set<bv8>) {
    exists m :: OnlyPrimeOver(p, on, m)
  }

  /** No prime implicant covers more of what is left than `p`, which covers something. */
  ghost predicate BestPrime(p: Cube, on: set<bv8>, left: set<bv8>) {
    Prime(p, on) && Gain(p, left) != {} && forall q :: Prime(q, on) ==> |Gain(q, left)| <= |Gain(p, left)|
  }

  /** First exactly the essential prime implicants, then in every step one that covers the most of
      what is left, until nothing is. */
  ghost predicate GreedyChoice(order: seq<Cube>, e: nat, on: set<bv8>) {
    && e <= |order|
    && (forall a, b :: 0 <= a < b < |order| ==> order[a] != order[b])
    && (forall p :: p in order[..e] <==> EssentialPrime(p, on))
    && (forall k :: e <= k < |order| ==> BestPrime(order[k], on, Uncovered(order[..k], on)))
    && Uncovered(order, on) == {}
  }

  ghost function CubesOf(primes: seq<Cube>, order: seq<nat>): (cubes: seq<Cube>)
    requires forall k :: 0 <= k < |order| ==> order[k] < |primes|
    ensures |cubes| == |order|
  {
    seq(|order|, k requires 0 <= k < |order| => primes[order[k]])
  }

  lemma {:induction false} IndicesAscend(primes: seq<Cube>, m: bv8, n: nat)
    requires n <= |primes|
    ensures forall a, b :: 0 <= a < b < |Indices(primes, m, n)| ==> Indices(primes, m, n)[a] < Indices(primes, m, n)[b]
  {
    hide Covers;
    if n > 0 {
      IndicesAscend(primes, m, n - 1);
      var s := Indices(primes, m, n - 1);
      forall a | 0 <= a < |s| ensures s[a] < n - 1 {
        assert s[a] in s;
      }
    }
  }

  /** One index only, exactly if it is the only one that covers. */
  lemma OneIndex(primes: seq<Cube>, m: bv8, i: nat)
    ensures Essential(primes, m, i)
            <==> i < |primes| && Covers(primes[i], m) && forall j :: 0 <= j < |primes| && Covers(primes[j], m) ==> j == i
  {
    hide Covers;
    var s := Indices(primes, m, |primes|);
    if Essential(primes, m, i) {
      assert i in s;
      forall j | 0 <= j < |primes| && Covers(primes[j], m) ensures j == i {
        assert j in s;
      }
    }
    if i < |primes| && Covers(primes[i], m) && forall j :: 0 <= j < |primes| && Covers(primes[j], m) ==> j == i {
      assert i in s;
      IndicesAscend(primes, m, |primes|);
      if |s| > 1 {
        assert s[0] in s && s[1] in s;
      }
    }
  }

  lemma EssentialSame(primes: seq<Cube>, minterms: seq<bv8>, on: set<bv8>, m: bv8, i: nat)
    requires on == (set m | m in minterms) && (forall c :: c in primes <==> Prime(c, on)) && QuineMcCluskey.Different(primes)
    requires i < |primes|
    ensures m in minterms && Essential(primes, m, i) <==> OnlyPrimeOver(primes[i], on, m)
  {
    hide Covers, Prime, Essential;
    OneIndex(primes, m, i);
    assert primes[i] in primes;
    if OnlyPrimeOver(primes[i], on, m) {
      forall j | 0 <= j < |primes| && Covers(primes[j], m) ensures j == i {
        assert primes[j] in primes;
      }
    }
    if m in minterms && Essential(primes, m, i) {
      forall q | Prime(q, on) && Covers(q, m) ensures q == primes[i] {
        var j :| 0 <= j < |primes| && primes[j] == q;
      }
    }
  }

  lemma EssentialsSame(primes: seq<Cube>, minterms: seq<bv8>, on: set<bv8>, i: nat)
    requires on == (set m | m in minterms) && (forall c :: c in primes <==> Prime(c, on)) && QuineMcCluskey.Different(primes)
    requires i < |primes|
    ensures EssentialFor(primes, minterms, i) <==> EssentialPrime(primes[i], on)
  {
    hide Essential, OnlyPrimeOver, Prime;
    forall m ensures m in minterms && Essential(primes, m, i) <==> OnlyPrimeOver(primes[i], on, m) {
      EssentialSame(primes, minterms, on, m, i);
    }
  }

  lemma LeftSame(primes: seq<Cube>, minterms: seq<bv8>, on: set<bv8>, order: seq<nat>)
    requires on == set m | m in minterms
    requires forall k :: 0 <= k < |order| ==> order[k] < |primes|
    ensures LeftBy(primes, minterms, order) == Uncovered(CubesOf(primes, order), on)
  {
    hide Covers;
    var cubes := CubesOf(primes, order);
    forall m ensures m in LeftBy(primes, minterms, order) <==> m in Uncovered(cubes, on) {
      if m in LeftBy(primes, minterms, order) {
        forall c | c in cubes ensures !Covers(c, m) {
          var k :| 0 <= k < |cubes| && cubes[k] == c;
          assert order[k] in order;
        }
      }
      if m in Uncovered(cubes, on) {
        forall i | i in order && i < |primes| ensures !Covers(primes[i], m) {
          var k :| 0 <= k < |order| && order[k] == i;
          assert cubes[k] in cubes;
        }
      }
    }
  }

  lemma BestSame(primes: seq<Cube>, minterms: seq<bv8>, on: set<bv8>, order: seq<nat>, k: nat)
    requires on == (set m | m in minterms) && forall c :: c in primes <==> Prime(c, on)
    requires (forall k :: 0 <= k < |order| ==> order[k] < |primes|) && k < |order| && BestAt(primes, minterms, order, k)
    ensures BestPrime(CubesOf(primes, order)[k], on, Uncovered(CubesOf(primes, order)[..k], on))
  {
    hide Covers, Prime, Gain, LeftBy, Uncovered;
    LeftSame(primes, minterms, on, order[..k]);
    assert CubesOf(primes, order[..k]) == CubesOf(primes, order)[..k];
    var left := LeftBy(primes, minterms, order[..k]);
    assert primes[order[k]] in primes;
    forall q | Prime(q, on) ensures |Gain(q, left)| <= |Gain(primes[order[k]], left)| {
      var i :| 0 <= i < |primes| && primes[i] == q;
    }
  }

  /** What the method chooses by index is that choice. */
  lemma ChoiceIsGreedy(primes: seq<Cube>, minterms: seq<bv8>, on: set<bv8>, chosen: set<nat>, order: seq<nat>, e: nat)
    requires on == (set m | m in minterms) && (forall c :: c in primes <==> Prime(c, on)) && QuineMcCluskey.Different(primes)
    requires Lists(order, chosen) && GreedyOrder(primes, minterms, order, e) && forall i :: i in chosen ==> i < |primes|
    requires forall m :: m in minterms ==> CoveredBy(primes, chosen, m)
    ensures (forall k :: 0 <= k < |order| ==> order[k] < |primes|) && GreedyChoice(CubesOf(primes, order), e, on)
  {
    hide Covers, Prime, EssentialFor, EssentialPrime, BestAt, BestPrime, Uncovered;
    forall k | 0 <= k < |order| ensures order[k] < |primes| {
      assert order[k] in order;
    }
    var cubes := CubesOf(primes, order);
    forall a, b | 0 <= a < b < |cubes| ensures cubes[a] != cubes[b] {
      var (i, j) := (order[a], order[b]);
      assert i < j || j < i;
    }
    forall p ensures p in cubes[..e] <==> EssentialPrime(p, on) {
      if p in cubes[..e] {
        var k :| 0 <= k < e && cubes[k] == p;
        assert order[k] in order[..e];
        EssentialsSame(primes, minterms, on, order[k]);
      }
      if EssentialPrime(p, on) {
        PrimeOfEssential(p, on);
        var i :| 0 <= i < |primes| && primes[i] == p;
        EssentialsSame(primes, minterms, on, i);
        var k :| 0 <= k < e && order[..e][k] == i;
        assert cubes[..e][k] == p;
      }
    }
    forall k | e <= k < |order| ensures BestPrime(cubes[k], on, Uncovered(cubes[..k], on)) {
      BestSame(primes, minterms, on, order, k);
    }
    NothingLeft(primes, minterms, on, chosen, order);
  }

  lemma PrimeOfEssential(p: Cube, on: set<bv8>)
    requires EssentialPrime(p, on)
    ensures Prime(p, on)
  {}

  lemma NothingLeft(primes: seq<Cube>, minterms: seq<bv8>, on: set<bv8>, chosen: set<nat>, order: seq<nat>)
    requires on == (set m | m in minterms) && Lists(order, chosen) && forall k :: 0 <= k < |order| ==> order[k] < |primes|
    requires forall m :: m in minterms ==> CoveredBy(primes, chosen, m)
    ensures Uncovered(CubesOf(primes, order), on) == {}
  {
    hide Covers;
    LeftSame(primes, minterms, on, order);
    forall m | m in minterms ensures m !in LeftBy(primes, minterms, order) {
      var i :| i in chosen && i < |primes| && Covers(primes[i], m);
      assert i in order;
    }
  }
}
