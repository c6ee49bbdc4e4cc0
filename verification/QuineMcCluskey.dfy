/** Prime implicants by repeated merging of adjacent terms, and a greedy cover with them. */
module QuineMcCluskey {
  import opened Cubes

  datatype Term = Term(cube: Cube, used: bool)

  ghost predicate Has(table: seq<Term>, c: Cube) {
    exists i :: 0 <= i < |table| && table[i].cube == c
  }

  /** The terms at `a` and `b` combine. */
  predicate Pair(table: seq<Term>, a: nat, b: nat)
    requires a < |table| && b < |table|
  {
    table[a].cube.mask == table[b].cube.mask && Adjacent(table[a].cube.value, table[b].cube.value)
  }

  /** `c` is what the terms at `a` and `b` combine to. */
  ghost predicate Yields(table: seq<Term>, a: nat, b: nat, c: Cube) {
    a < |table| && b < |table|
    && c == Merge(table[a].cube.mask, table[a].cube.value, table[b].cube.value)
  }

  /** (a, b) is a combining pair that comes before (i, j) in the order of the nested loops. */
  ghost predicate Seen(table: seq<Term>, a: nat, b: nat, i: nat, j: nat) {
    a < b < |table| && (a < i || (a == i && b < j)) && Pair(table, a, b)
  }

  /** A term is marked if it has been in a pair. */
  ghost predicate MarkedUpTo(table: seq<Term>, marked: seq<Term>, i: nat, j: nat) {
    && |marked| == |table|
    && forall k :: 0 <= k < |table| ==>
         && marked[k].cube == table[k].cube
         && (marked[k].used <==> exists a: nat, b: nat :: Seen(table, a, b, i, j) && (k == a || k == b))
  }

  /** `c` is what some pair before (i, j) combines to. */
  ghost predicate MergedBefore(table: seq<Term>, c: Cube, i: nat, j: nat) {
    exists a: nat, b: nat :: Seen(table, a, b, i, j) && Yields(table, a, b, c)
  }

  /** `next` holds merges of the pairs only, ... */
  ghost predicate OnlyMerges(table: seq<Term>, next: seq<Term>, i: nat, j: nat) {
    forall k :: 0 <= k < |next| ==> !next[k].used && MergedBefore(table, next[k].cube, i, j)
  }

  /** ... and all of them. */
  ghost predicate AllMerges(table: seq<Term>, next: seq<Term>, i: nat, j: nat) {
    forall a: nat, b: nat, c :: Seen(table, a, b, i, j) && Yields(table, a, b, c) ==> Has(next, c)
  }

  ghost predicate Progress(table: seq<Term>, marked: seq<Term>, next: seq<Term>, i: nat, j: nat) {
    MarkedUpTo(table, marked, i, j) && OnlyMerges(table, next, i, j) && AllMerges(table, next, i, j)
  }

  lemma SameMarked(table: seq<Term>, marked: seq<Term>, i: nat, j: nat, i': nat, j': nat)
    requires forall a: nat, b: nat :: Seen(table, a, b, i, j) == Seen(table, a, b, i', j')
    requires MarkedUpTo(table, marked, i, j)
    ensures MarkedUpTo(table, marked, i', j')
  {
    hide Seen;
    forall k | 0 <= k < |table|
      ensures marked[k].cube == table[k].cube
      ensures marked[k].used <==> exists a: nat, b: nat :: Seen(table, a, b, i', j') && (k == a || k == b)
    {
      if marked[k].used {
        var a: nat, b: nat :| Seen(table, a, b, i, j) && (k == a || k == b);
        assert Seen(table, a, b, i', j');
      }
    }
  }

  lemma SameMerged(table: seq<Term>, c: Cube, i: nat, j: nat, i': nat, j': nat)
    requires forall a: nat, b: nat :: Seen(table, a, b, i, j) == Seen(table, a, b, i', j')
    requires MergedBefore(table, c, i, j)
    ensures MergedBefore(table, c, i', j')
  {
    hide Seen, Yields;
    var a: nat, b: nat :| Seen(table, a, b, i, j) && Yields(table, a, b, c);
    assert Seen(table, a, b, i', j');
  }

  lemma SameOnly(table: seq<Term>, next: seq<Term>, i: nat, j: nat, i': nat, j': nat)
    requires forall a: nat, b: nat :: Seen(table, a, b, i, j) == Seen(table, a, b, i', j')
    requires OnlyMerges(table, next, i, j)
    ensures OnlyMerges(table, next, i', j')
  {
    hide Seen, MergedBefore;
    forall k | 0 <= k < |next| ensures !next[k].used && MergedBefore(table, next[k].cube, i', j') {
      SameMerged(table, next[k].cube, i, j, i', j');
    }
  }

  lemma SameAll(table: seq<Term>, next: seq<Term>, i: nat, j: nat, i': nat, j': nat)
    requires forall a: nat, b: nat :: Seen(table, a, b, i, j) == Seen(table, a, b, i', j')
    requires AllMerges(table, next, i, j)
    ensures AllMerges(table, next, i', j')
  {
    hide Seen, Yields, Has;
    forall a: nat, b: nat, c | Seen(table, a, b, i', j') && Yields(table, a, b, c) ensures Has(next, c) {
      assert Seen(table, a, b, i, j);
    }
  }

  /** Positions of the loops before which the same pairs come. */
  lemma SameSeen(table: seq<Term>, marked: seq<Term>, next: seq<Term>, i: nat, j: nat, i': nat, j': nat)
    requires forall a: nat, b: nat :: Seen(table, a, b, i, j) == Seen(table, a, b, i', j')
    requires Progress(table, marked, next, i, j)
    ensures Progress(table, marked, next, i', j')
  {
    hide Seen, MarkedUpTo, OnlyMerges, AllMerges;
    SameMarked(table, marked, i, j, i', j');
    SameOnly(table, next, i, j, i', j');
    SameAll(table, next, i, j, i', j');
  }

  lemma FirstRow(table: seq<Term>)
    requires forall k :: 0 <= k < |table| ==> !table[k].used
    ensures Progress(table, table, [], 0, 1)
  {
    hide Pair;
    assert forall a: nat, b: nat :: !Seen(table, a, b, 0, 1);
  }

  lemma NextRow(table: seq<Term>, marked: seq<Term>, next: seq<Term>, i: nat)
    requires i < |table|
    requires Progress(table, marked, next, i, |table|)
    ensures Progress(table, marked, next, i + 1, i + 2)
  {
    hide Pair, Progress;
    SameSeen(table, marked, next, i, |table|, i + 1, i + 2);
  }

  lemma LastRow(table: seq<Term>, marked: seq<Term>, next: seq<Term>)
    requires Progress(table, marked, next, |table|, |table| + 1)
    ensures Progress(table, marked, next, |table|, |table|)
  {
    hide Pair, Progress;
    SameSeen(table, marked, next, |table|, |table| + 1, |table|, |table|);
  }

  lemma NoPair(table: seq<Term>, marked: seq<Term>, next: seq<Term>, i: nat, j: nat)
    requires i < j < |table| && !Pair(table, i, j)
    requires Progress(table, marked, next, i, j)
    ensures Progress(table, marked, next, i, j + 1)
  {
    hide Pair, Progress;
    SameSeen(table, marked, next, i, j, i, j + 1);
  }

  lemma PairMarked(table: seq<Term>, marked: seq<Term>, marked': seq<Term>, i: nat, j: nat, j': nat)
    requires i < j < |table| && j' == j + 1 && Pair(table, i, j) && MarkedUpTo(table, marked, i, j)
    requires marked' == marked[i := Term(table[i].cube, true)][j := Term(table[j].cube, true)]
    ensures MarkedUpTo(table, marked', i, j')
  {
    SeenStep(table, i, j, j');
    hide Pair, Seen;
    forall k | 0 <= k < |table|
      ensures marked'[k].used <==> exists a: nat, b: nat :: Seen(table, a, b, i, j') && (k == a || k == b)
    {
      if k == i || k == j {
        assert Seen(table, i, j, i, j');
      } else if marked[k].used {
        var a: nat, b: nat :| Seen(table, a, b, i, j) && (k == a || k == b);
        assert Seen(table, a, b, i, j');
      }
    }
  }

  lemma SeenStep(table: seq<Term>, i: nat, j: nat, j': nat)
    requires i < j < |table| && j' == j + 1 && Pair(table, i, j)
    ensures forall a: nat, b: nat :: Seen(table, a, b, i, j') == (Seen(table, a, b, i, j) || (a == i && b == j))
  {
    hide Pair;
  }

  lemma PairOnlyMerges(table: seq<Term>, next: seq<Term>, next': seq<Term>, i: nat, j: nat, j': nat, merged: Cube)
    requires i < j < |table| && j' == j + 1 && Pair(table, i, j) && OnlyMerges(table, next, i, j)
    requires Yields(table, i, j, merged)
    requires next' == next || next' == next + [Term(merged, false)]
    ensures OnlyMerges(table, next', i, j')
  {
    SeenStep(table, i, j, j');
    hide Pair, Seen, Yields;
    assert Seen(table, i, j, i, j');
    assert MergedBefore(table, merged, i, j');
    forall k | 0 <= k < |next'| ensures !next'[k].used && MergedBefore(table, next'[k].cube, i, j') {
      if k < |next| {
        var a: nat, b: nat :| Seen(table, a, b, i, j) && Yields(table, a, b, next[k].cube);
        assert Seen(table, a, b, i, j');
      }
    }
  }

  lemma PairAllMerges(table: seq<Term>, next: seq<Term>, next': seq<Term>, i: nat, j: nat, j': nat, merged: Cube)
    requires i < j < |table| && j' == j + 1 && Pair(table, i, j) && AllMerges(table, next, i, j)
    requires Yields(table, i, j, merged)
    requires forall c :: Has(next', c) <==> Has(next, c) || c == merged
    ensures AllMerges(table, next', i, j')
  {
    SeenStep(table, i, j, j');
    hide Pair, Seen, Has;
    forall a: nat, b: nat, c | Seen(table, a, b, i, j') && Yields(table, a, b, c) ensures Has(next', c) {
      if !(a == i && b == j) {
        assert Seen(table, a, b, i, j);
      }
    }
  }

  lemma HasAppend(next: seq<Term>, t: Term)
    ensures forall c :: Has(next + [t], c) <==> Has(next, c) || c == t.cube
  {
    var all := next + [t];
    forall c ensures Has(all, c) <==> Has(next, c) || c == t.cube {
      if Has(next, c) {
        var i :| 0 <= i < |next| && next[i].cube == c;
        assert all[i].cube == c;
      }
      assert all[|next|] == t;
    }
  }

  /** No cube is listed twice. */
  ghost predicate Distinct(table: seq<Term>) {
    forall a, b :: 0 <= a < b < |table| ==> table[a].cube != table[b].cube
  }

  /** One generation: combine every pair of adjacent terms. */
  method MergeGeneration(table: seq<Term>) returns (marked: seq<Term>, next: seq<Term>, changed: bool)
    requires forall k :: 0 <= k < |table| ==> !table[k].used
    ensures Progress(table, marked, next, |table|, |table|)
    ensures changed <==> next != []
    ensures Distinct(next)
  {
    hide Adjacent, Merge;
    hide Progress;
    marked, next, changed := table, [], false;
    FirstRow(table);
    for i := 0 to |table|
      invariant Progress(table, marked, next, i, i + 1)
      invariant changed <==> next != []
      invariant Distinct(next)
    {
      for j := i + 1 to |table|
        invariant Progress(table, marked, next, i, j)
        invariant changed <==> next != []
        invariant Distinct(next)
      {
        marked, next, changed := Combine(table, marked, next, changed, i, j);
      }
      NextRow(table, marked, next, i);
    }
    LastRow(table, marked, next);
  }

  /** The body of the inner loop. */
  method Combine(table: seq<Term>, marked: seq<Term>, next: seq<Term>, changed: bool, i: nat, j: nat)
    returns (marked': seq<Term>, next': seq<Term>, changed': bool)
    requires i < j < |table|
    requires Progress(table, marked, next, i, j)
    requires changed <==> next != []
    requires Distinct(next)
    ensures Progress(table, marked', next', i, j + 1)
    ensures changed' <==> next' != []
    ensures Distinct(next')
  {
    hide Adjacent, Merge, Seen, OnlyMerges, AllMerges;
    marked', next', changed' := marked, next, changed;
    var (term1, term2) := (marked[i], marked[j]);
    if term1.cube.mask == term2.cube.mask && Adjacent(term1.cube.value, term2.cube.value) {
      var merged := Merge(term1.cube.mask, term1.cube.value, term2.cube.value);
      marked' := marked[i := term1.(used := true)][j := term2.(used := true)];
      changed' := true;
      if forall k :: 0 <= k < |next| ==> next[k].cube != merged {
        next' := next + [Term(merged, false)];
      }
      hide MarkedUpTo;
      PairMarked(table, marked, marked', i, j, j + 1);
      HasAppend(next, Term(merged, false));
      PairOnlyMerges(table, next, next', i, j, j + 1, merged);
      PairAllMerges(table, next, next', i, j, j + 1, merged);
    } else {
      NoPair(table, marked, next, i, j);
    }
  }

  // ----- what the generations are -----

  /** The table lists exactly the implicants that fix `n` bits. */
  ghost predicate Level(table: seq<Term>, on: set<bv8>, n: int) {
    && (forall k :: 0 <= k < |table| ==> !table[k].used)
    && forall c :: Has(table, c) <==> Implicant(c, on) && Ones(c.mask) == n
  }

  lemma PairInLevel(table: seq<Term>, on: set<bv8>, n: int, a: nat, b: nat, c: Cube)
    requires Level(table, on, n) && a < |table| && b < |table| && Pair(table, a, b) && Yields(table, a, b, c)
    ensures Implicant(c, on) && Ones(c.mask) == n - 1
    ensures !Prime(table[a].cube, on) && !Prime(table[b].cube, on)
  {
    hide Adjacent, Merge, Ones, Free, Flip, SingleBit, Within, Toggle, Prime, Implicant;
    var (x, y) := (table[a].cube, table[b].cube);
    assert Has(table, x) && Has(table, y);
    ImplicantNormal(x, on);
    ImplicantNormal(y, on);
    MergeIsFree(x, y.value);
    var d := Toggle(x.value, y.value);
    FreeImplicant(x, d, on);
    OnesFree(x, d);
    PrimeByNeighbours(x, on);
    FlipAdjacent(x, d);
    WithinMask(x, y, d);
    PrimeByNeighbours(y, on);
  }

  lemma ImplicantNormal(c: Cube, on: set<bv8>)
    requires Implicant(c, on)
    ensures Normal(c)
  {}

  lemma WithinMask(x: Cube, y: Cube, d: bv8)
    requires y == Flip(x, d)
    ensures Within(d, x.mask) <==> Within(d, y.mask)
  {}

  /** An implicant and its neighbour are a pair of the table, in one order or the other. */
  lemma NeighboursPair(table: seq<Term>, on: set<bv8>, n: int, i: nat, c: Cube, d: bv8) returns (a: nat, b: nat)
    requires Level(table, on, n) && Ones(c.mask) == n && i < |table| && table[i].cube == c
    requires Implicant(c, on) && Implicant(Flip(c, d), on) && SingleBit(d) && Within(d, c.mask)
    ensures a < b < |table| && Pair(table, a, b) && Yields(table, a, b, Free(c, d))
    ensures i == a || i == b
  {
    hide Adjacent, Merge, Ones, SingleBit, Within, Toggle, Implicant, Clear;
    var e := Flip(c, d);
    ImplicantNormal(c, on);
    ImplicantNormal(e, on);
    FlipAdjacent(c, d);
    FlipAdjacent(e, d);
    ClearToggle(c.value, d);
    assert Has(table, e);
    var j :| 0 <= j < |table| && table[j].cube == e;
    if i < j {
      a, b := i, j;
    } else {
      a, b := j, i;
    }
  }

  lemma NextLevel(table: seq<Term>, next: seq<Term>, on: set<bv8>, n: int)
    requires Level(table, on, n) && n <= 8
    requires OnlyMerges(table, next, |table|, |table|) && AllMerges(table, next, |table|, |table|)
    ensures Level(next, on, n - 1)
  {
    hide Adjacent, Merge, Ones, Implicant, Pair, Yields, Level, Meet;
    forall c ensures Has(next, c) <==> Implicant(c, on) && Ones(c.mask) == n - 1 {
      if Has(next, c) {
        var k :| 0 <= k < |next| && next[k].cube == c;
        var a: nat, b: nat :| Seen(table, a, b, |table|, |table|) && Yields(table, a, b, c);
        PairInLevel(table, on, n, a, b, c);
      }
      if Implicant(c, on) && Ones(c.mask) == n - 1 {
        OnesAll(c.mask);
        var d := FreeBit(c.mask);
        HalfImplicant(c, d, on);
        OnesFree(ZeroHalf(c, d), d);
        LevelHas(table, on, n, ZeroHalf(c, d));
        var i :| 0 <= i < |table| && table[i].cube == ZeroHalf(c, d);
        var a, b := NeighboursPair(table, on, n, i, ZeroHalf(c, d), d);
        assert Seen(table, a, b, |table|, |table|);
      }
    }
    LevelFrom(next, on, n - 1);
  }

  lemma LevelHas(table: seq<Term>, on: set<bv8>, n: int, c: Cube)
    requires Level(table, on, n) && Implicant(c, on) && Ones(c.mask) == n
    ensures Has(table, c)
  {}

  lemma LevelFrom(table: seq<Term>, on: set<bv8>, n: int)
    requires forall k :: 0 <= k < |table| ==> !table[k].used
    requires forall c :: Has(table, c) <==> Implicant(c, on) && Ones(c.mask) == n
    ensures Level(table, on, n)
  {}

  /** The unmarked terms of a generation are its prime implicants. */
  lemma UnusedArePrime(table: seq<Term>, marked: seq<Term>, on: set<bv8>, n: int, k: nat)
    requires Level(table, on, n) && k < |table|
    requires MarkedUpTo(table, marked, |table|, |table|)
    ensures !marked[k].used <==> Prime(table[k].cube, on)
  {
    hide Adjacent, Merge, Ones, Implicant, Pair, Prime, Flip, SingleBit, Within;
    var c := table[k].cube;
    assert Has(table, c);
    PrimeByNeighbours(c, on);
    if marked[k].used {
      var a: nat, b: nat :| Seen(table, a, b, |table|, |table|) && (k == a || k == b);
      PairInLevel(table, on, n, a, b, Merge(table[a].cube.mask, table[a].cube.value, table[b].cube.value));
    } else if !Prime(c, on) {
      var d :| SingleBit(d) && Within(d, c.mask) && Implicant(Flip(c, d), on);
      var a, b := NeighboursPair(table, on, n, k, c, d);
      SeenMarked(table, marked, a, b, k);
    }
  }

  lemma SeenMarked(table: seq<Term>, marked: seq<Term>, a: nat, b: nat, k: nat)
    requires MarkedUpTo(table, marked, |table|, |table|)
    requires a < b < |table| && Pair(table, a, b) && (k == a || k == b)
    ensures marked[k].used
  {
    hide Pair;
    assert Seen(table, a, b, |table|, |table|);
  }

  // ----- all prime implicants -----

  /** The list holds exactly the prime implicants that fix more than `n` bits. */
  ghost predicate PrimesAbove(primes: seq<Cube>, on: set<bv8>, n: int) {
    forall c :: c in primes <==> Prime(c, on) && Ones(c.mask) > n
  }

  /** Runs the generations until nothing is left to combine. */
  method PrimeImplicants(start: seq<Term>, ghost on: set<bv8>) returns (primes: seq<Cube>)
    requires Level(start, on, 8) && Distinct(start)
    ensures forall c :: c in primes <==> Prime(c, on)
    ensures Different(primes)
  {
    hide Level, PrimesAbove, Different, Distinct, MarkedUpTo;
    NoneDifferent();
    var table := start;
    primes := [];
    ghost var n: int := 8;
    NoneAboveEight(on);
    while table != []
      invariant -1 <= n <= 8
      invariant Level(table, on, n) && PrimesAbove(primes, on, n)
      invariant Distinct(table) && Different(primes)
      decreases n
    {
      LevelBits(table, on, n);
      var marked, next, changed := MergeGeneration(table);
      NextLevel(table, next, on, n);
      ghost var before := primes;
      for k := 0 to |marked|
        invariant primes == before + Unused(marked[..k])
      {
        if !marked[k].used {
          primes := primes + [marked[k].cube];
        }
        assert marked[..k + 1][..k] == marked[..k];
      }
      assert marked[..|marked|] == marked;
      CollectLevel(table, marked, before, on, n);
      CollectDifferent(table, marked, before, on, n);
      table := next;
      n := n - 1;
      if !changed {
        break;
      }
    }
    EmptyLevel(primes, on, n);
  }

  /** The cubes of the unmarked terms, in order. */
  function Unused(marked: seq<Term>): seq<Cube> {
    if marked == [] then []
    else
      var rest := Unused(marked[..|marked| - 1]);
      var last := marked[|marked| - 1];
      if last.used then rest else rest + [last.cube]
  }

  lemma {:induction false} UnusedHas(marked: seq<Term>, c: Cube)
    ensures c in Unused(marked) <==> exists k :: 0 <= k < |marked| && !marked[k].used && marked[k].cube == c
  {
    if marked != [] {
      var n := |marked| - 1;
      UnusedHas(marked[..n], c);
      if c in Unused(marked[..n]) {
        var k :| 0 <= k < n && !marked[..n][k].used && marked[..n][k].cube == c;
        assert marked[k].cube == c;
      }
      if k :| 0 <= k < |marked| && !marked[k].used && marked[k].cube == c {
        if k < n {
          assert marked[..n][k] == marked[k];
        }
      }
    }
  }

  /** No prime implicant is listed twice. */
  ghost predicate Different(primes: seq<Cube>) {
    forall a, b :: 0 <= a < b < |primes| ==> primes[a] != primes[b]
  }

  lemma NoneDifferent()
    ensures Different([])
  {}

  lemma {:induction false} UnusedDifferent(marked: seq<Term>)
    requires Distinct(marked)
    ensures Different(Unused(marked))
  {
    if marked != [] {
      var n := |marked| - 1;
      UnusedDifferent(marked[..n]);
      var (rest, all) := (Unused(marked[..n]), Unused(marked));
      forall a | 0 <= a < |rest| ensures rest[a] != marked[n].cube {
        UnusedHas(marked[..n], rest[a]);
      }
      assert all == rest || all == rest + [marked[n].cube];
    }
  }

  /** The generations fix different numbers of bits. */
  lemma CollectDifferent(table: seq<Term>, marked: seq<Term>, primes: seq<Cube>, on: set<bv8>, n: int)
    requires Level(table, on, n) && PrimesAbove(primes, on, n) && MarkedUpTo(table, marked, |table|, |table|)
    requires Distinct(table) && Different(primes)
    ensures Different(primes + Unused(marked))
  {
    hide Ones, Seen, Unused, Implicant, Prime;
    UnusedDifferent(marked);
    forall c | c in Unused(marked) ensures c !in primes {
      UnusedHas(marked, c);
      var k :| 0 <= k < |marked| && !marked[k].used && marked[k].cube == c;
      assert Has(table, c) by { assert table[k].cube == c; }
    }
    var all := primes + Unused(marked);
    forall a, b | 0 <= a < b < |all| ensures all[a] != all[b] {
      if a < |primes| <= b {
        assert all[b] in Unused(marked) && all[a] in primes;
      }
    }
  }

  lemma NoneAboveEight(on: set<bv8>)
    ensures PrimesAbove([], on, 8)
  {
    hide Ones;
    forall c: Cube ensures Ones(c.mask) <= 8 {
      OnesAll(c.mask);
    }
  }

  lemma LevelBits(table: seq<Term>, on: set<bv8>, n: int)
    requires Level(table, on, n)
    ensures forall k :: 0 <= k < |table| ==> !table[k].used
    ensures table != [] ==> 0 <= n
  {
    hide Ones;
    if table != [] {
      assert Has(table, table[0].cube);
    }
  }

  lemma CollectLevel(table: seq<Term>, marked: seq<Term>, primes: seq<Cube>, on: set<bv8>, n: int)
    requires Level(table, on, n) && PrimesAbove(primes, on, n)
    requires MarkedUpTo(table, marked, |table|, |table|)
    ensures PrimesAbove(primes + Unused(marked), on, n - 1)
  {
    hide Ones, Seen, Unused;
    forall c ensures c in primes + Unused(marked) <==> Prime(c, on) && Ones(c.mask) > n - 1 {
      UnusedHas(marked, c);
      if c in Unused(marked) {
        var k: nat :| 0 <= k < |marked| && !marked[k].used && marked[k].cube == c;
        UnusedArePrime(table, marked, on, n, k);
        assert Has(table, c);
      }
      if Prime(c, on) && Ones(c.mask) == n {
        assert Has(table, c);
        var k: nat :| k < |table| && table[k].cube == c;
        UnusedArePrime(table, marked, on, n, k);
        assert !marked[k].used && marked[k].cube == c;
      }
    }
  }

  /** After an empty generation no implicant is left. */
  lemma EmptyLevel(primes: seq<Cube>, on: set<bv8>, n: int)
    requires Level([], on, n) && PrimesAbove(primes, on, n) && n <= 8
    ensures forall c :: c in primes <==> Prime(c, on)
  {
    hide Ones, Implicant;
    forall c ensures c in primes <==> Prime(c, on) {
      assert !Has([], c);
      PrimeImplicant(c, on);
      if Implicant(c, on) && Ones(c.mask) < n {
        forall x ensures Implicant(x, on) ==> Ones(x.mask) != n {
          assert !Has([], x);
        }
        NoneBelow(c, on, n);
      }
    }
  }

  lemma PrimeImplicant(c: Cube, on: set<bv8>)
    ensures Prime(c, on) ==> Implicant(c, on)
  {}
}
