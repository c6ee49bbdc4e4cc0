/** The choice of prime implicants: the essential ones, then greedily the largest remaining gain. */
module PrimeCover {
  import opened Cubes

  datatype Choice = Chosen(indices: set<nat>) | NoPrimeImplicant

  /** The indices below `n` of the cubes that cover `m`, ascending. */
  function Indices(primes: seq<Cube>, m: bv8, n: nat): (s: seq<nat>)
    requires n <= |primes|
    ensures forall i :: i in s <==> 0 <= i < n && Covers(primes[i], m)
  {
    if n == 0 then []
    else if Covers(primes[n - 1], m) then Indices(primes, m, n - 1) + [n - 1]
    else Indices(primes, m, n - 1)
  }

  /** One row of the cover chart. */
  datatype Row = Row(minterm: bv8, indices: seq<nat>)

  /** The chart lists, in order, the minterms that some cube covers, with the cubes that do. */
  function Chart(primes: seq<Cube>, minterms: seq<bv8>): seq<Row> {
    if minterms == [] then []
    else
      var (rest, mt) := (Chart(primes, minterms[..|minterms| - 1]), minterms[|minterms| - 1]);
      var indices := Indices(primes, mt, |primes|);
      if indices == [] then rest else rest + [Row(mt, indices)]
  }

  method BuildChart(primes: seq<Cube>, minterms: seq<bv8>) returns (chart: seq<Row>)
    ensures chart == Chart(primes, minterms)
  {
    hide Covers;
    chart := [];
    for k := 0 to |minterms|
      invariant chart == Chart(primes, minterms[..k])
    {
      var row: seq<nat> := [];
      for i := 0 to |primes|
        invariant row == Indices(primes, minterms[k], i)
      {
        if Covers(primes[i], minterms[k]) {
          row := row + [i];
        }
      }
      if row != [] {
        chart := chart + [Row(minterms[k], row)];
      }
      assert minterms[..k + 1][..k] == minterms[..k];
    }
    assert minterms[..|minterms|] == minterms;
  }

  lemma {:induction false} ChartRows(primes: seq<Cube>, minterms: seq<bv8>, r: Row)
    ensures r in Chart(primes, minterms)
            <==> r.minterm in minterms && r.indices == Indices(primes, r.minterm, |primes|) != []
  {
    hide Indices;
    if minterms != [] {
      var n := |minterms| - 1;
      ChartRows(primes, minterms[..n], r);
      assert minterms == minterms[..n] + [minterms[n]];
    }
  }

  ghost predicate CoveredBy(primes: seq<Cube>, chosen: set<nat>, m: bv8) {
    exists i :: i in chosen && i < |primes| && Covers(primes[i], m)
  }

  /** `remaining` is what the chosen cubes leave uncovered. */
  ghost predicate Remains(primes: seq<Cube>, minterms: seq<bv8>, chosen: set<nat>, remaining: set<bv8>) {
    && (forall i :: i in chosen ==> i < |primes|)
    && forall m :: m in remaining <==> m in minterms && !CoveredBy(primes, chosen, m)
  }

  /** The only prime implicant over some minterm. */
  ghost predicate Essential(primes: seq<Cube>, m: bv8, i: nat) {
    Indices(primes, m, |primes|) == [i]
  }

  lemma ChooseOne(primes: seq<Cube>, minterms: seq<bv8>, chosen: set<nat>, remaining: set<bv8>, i: nat, remaining': set<bv8>)
    requires Remains(primes, minterms, chosen, remaining) && i < |primes|
    requires forall m :: m in remaining' <==> m in remaining && !Covers(primes[i], m)
    ensures Remains(primes, minterms, chosen + {i}, remaining')
  {
    hide Covers;
    forall m ensures CoveredBy(primes, chosen + {i}, m) <==> CoveredBy(primes, chosen, m) || Covers(primes[i], m) {
      if Covers(primes[i], m) {
        assert i in chosen + {i};
      }
      if CoveredBy(primes, chosen, m) {
        var j :| j in chosen && j < |primes| && Covers(primes[j], m);
        assert j in chosen + {i};
      }
    }
  }

  // ----- the order of the choices -----

  /** `order` lists the elements of `chosen`, each once. */
  ghost predicate Lists(order: seq<nat>, chosen: set<nat>) {
    (forall i :: i in order <==> i in chosen) && forall a, b :: 0 <= a < b < |order| ==> order[a] != order[b]
  }

  /** The minterms under none of these cubes. */
  ghost function LeftBy(primes: seq<Cube>, minterms: seq<bv8>, order: seq<nat>): set<bv8> {
    set m | m in minterms && forall i :: i in order && i < |primes| ==> !Covers(primes[i], m)
  }

  /** The k-th choice covers something new, no cube covers more of what is left, and none before it
      in the list as much. */
  ghost predicate BestAt(primes: seq<Cube>, minterms: seq<bv8>, order: seq<nat>, k: nat)
    requires k < |order|
  {
    var left := LeftBy(primes, minterms, order[..k]);
    && order[k] < |primes| && Gain(primes[order[k]], left) != {}
    && (forall i :: 0 <= i < |primes| ==> |Gain(primes[i], left)| <= |Gain(primes[order[k]], left)|)
    && (forall i :: 0 <= i < order[k] ==> |Gain(primes[i], left)| < |Gain(primes[order[k]], left)|)
  }

  ghost predicate EssentialFor(primes: seq<Cube>, minterms: seq<bv8>, i: nat) {
    exists m :: m in minterms && Essential(primes, m, i)
  }

  /** First exactly the essential implicants, `e` of them, then in each step the best one. */
  ghost predicate GreedyOrder(primes: seq<Cube>, minterms: seq<bv8>, order: seq<nat>, e: nat) {
    && e <= |order|
    && (forall i: nat :: i in order[..e] <==> EssentialFor(primes, minterms, i))
    && forall k :: e <= k < |order| ==> BestAt(primes, minterms, order, k)
  }

  lemma RemainsLeft(primes: seq<Cube>, minterms: seq<bv8>, chosen: set<nat>, remaining: set<bv8>, order: seq<nat>)
    requires Remains(primes, minterms, chosen, remaining) && Lists(order, chosen)
    ensures remaining == LeftBy(primes, minterms, order)
  {
    hide Covers;
    forall m ensures m in remaining <==> m in LeftBy(primes, minterms, order) {
      if m in minterms && CoveredBy(primes, chosen, m) {
        var i :| i in chosen && i < |primes| && Covers(primes[i], m);
        assert i in order;
      }
    }
  }

  lemma NextChoice(primes: seq<Cube>, minterms: seq<bv8>, order: seq<nat>, e: nat, i: nat)
    requires GreedyOrder(primes, minterms, order, e) && BestAt(primes, minterms, order + [i], |order|)
    ensures GreedyOrder(primes, minterms, order + [i], e)
  {
    hide EssentialFor;
    var longer := order + [i];
    assert longer[..e] == order[..e];
    forall k | e <= k < |longer| ensures BestAt(primes, minterms, longer, k) {
      if k < |order| {
        assert longer[..k] == order[..k] && BestAt(primes, minterms, order, k);
      }
    }
  }

  lemma BestNext(primes: seq<Cube>, minterms: seq<bv8>, chosen: set<nat>, remaining: set<bv8>, order: seq<nat>, i: nat)
    requires Remains(primes, minterms, chosen, remaining) && Lists(order, chosen)
    requires i < |primes| && Gain(primes[i], remaining) != {}
    requires forall k :: 0 <= k < |primes| ==> |Gain(primes[k], remaining)| <= |Gain(primes[i], remaining)|
    requires forall k :: 0 <= k < i ==> |Gain(primes[k], remaining)| < |Gain(primes[i], remaining)|
    ensures BestAt(primes, minterms, order + [i], |order|)
  {
    hide Covers, Gain, LeftBy;
    RemainsLeft(primes, minterms, chosen, remaining, order);
    assert (order + [i])[..|order|] == order;
  }

  /** Essential implicants first, then greedily the one with the largest gain; every choice covers
      something new, so no more cubes are chosen than there are minterms. */
  method SelectCover(primes: seq<Cube>, minterms: seq<bv8>) returns (c: Choice, ghost order: seq<nat>, ghost e: nat)
    ensures c.Chosen? ==> Lists(order, c.indices) && GreedyOrder(primes, minterms, order, e)
    ensures c.Chosen? <==> forall m :: m in minterms ==> Indices(primes, m, |primes|) != []
    ensures c.Chosen? ==> forall i :: i in c.indices ==> i < |primes|
    ensures c.Chosen? ==> forall m :: m in minterms ==> CoveredBy(primes, c.indices, m)
    ensures c.Chosen? ==> forall m, i :: m in minterms && Essential(primes, m, i) ==> i in c.indices
    ensures c.Chosen? ==> |c.indices| <= |set m | m in minterms|
  {
    hide Covers, GreedyOrder, Indices;
    var chart := BuildChart(primes, minterms);
    var chosen, remaining;
    chosen, remaining, order := ChooseEssential(primes, minterms, chart);
    e := |order|;
    AllEssential(primes, minterms, order);
    ghost var essential := chosen;
    ghost var total := |set m | m in minterms|;
    while remaining != {}
      invariant Remains(primes, minterms, chosen, remaining)
      invariant essential <= chosen && |chosen| + |remaining| <= total
      invariant Lists(order, chosen) && GreedyOrder(primes, minterms, order, e)
      decreases |remaining|
    {
      var found, bestPi, left := ChooseBest(primes, minterms, remaining, chosen, order, e);
      if !found {
        return NoPrimeImplicant, order, e;
      }
      order := order + [bestPi];
      chosen := chosen + {bestPi};
      remaining := left;
    }
    AllCovered(primes, minterms, chosen);
    c := Chosen(chosen);
  }

  /** One turn of the greedy loop. */
  method ChooseBest(primes: seq<Cube>, minterms: seq<bv8>, remaining: set<bv8>, ghost chosen: set<nat>, ghost order: seq<nat>, ghost e: nat)
    returns (found: bool, bestPi: nat, left: set<bv8>)
    requires Remains(primes, minterms, chosen, remaining) && remaining != {}
    requires Lists(order, chosen) && GreedyOrder(primes, minterms, order, e)
    ensures !found ==> exists m :: m in minterms && Indices(primes, m, |primes|) == []
    ensures found ==> Remains(primes, minterms, chosen + {bestPi}, left) && bestPi !in chosen && |left| < |remaining|
    ensures found ==> Lists(order + [bestPi], chosen + {bestPi}) && GreedyOrder(primes, minterms, order + [bestPi], e)
  {
    hide Covers, Gain, GreedyOrder, BestAt, Indices;
    var maxCover;
    bestPi, maxCover := BestGain(primes, remaining);
    found, left := maxCover > 0, {};
    if !found {
      ghost var m :| m in remaining;
      if Indices(primes, m, |primes|) != [] {
        SomeGain(primes, remaining, m);
      }
      return;
    }
    ChosenGainsNothing(primes, minterms, chosen, remaining, bestPi);
    left := set m | m in remaining && !Covers(primes[bestPi], m);
    ChooseOne(primes, minterms, chosen, remaining, bestPi, left);
    GainLeaves(primes[bestPi], remaining, left);
    BestNext(primes, minterms, chosen, remaining, order, bestPi);
    NextChoice(primes, minterms, order, e, bestPi);
  }

  lemma GainLeaves(p: Cube, remaining: set<bv8>, left: set<bv8>)
    requires left == (set m | m in remaining && !Covers(p, m)) && Gain(p, remaining) != {}
    ensures |left| < |remaining|
  {
    hide Covers;
    Shrinks(left, remaining, Gain(p, remaining));
  }

  /** The cubes that alone cover some row of the chart. */
  method ChooseEssential(primes: seq<Cube>, minterms: seq<bv8>, chart: seq<Row>)
    returns (chosen: set<nat>, remaining: set<bv8>, ghost order: seq<nat>)
    requires chart == Chart(primes, minterms)
    ensures Remains(primes, minterms, chosen, remaining)
    ensures forall m, i :: m in minterms && Essential(primes, m, i) ==> i in chosen
    ensures |chosen| + |remaining| <= |set m | m in minterms|
    ensures Lists(order, chosen) && forall i :: i in order ==> EssentialFor(primes, minterms, i)
  {
    hide Covers, Chart, Gain, EssentialFor;
    chosen, order := {}, [];
    remaining := set m | m in minterms;
    ghost var total := |remaining|;
    for k := 0 to |chart|
      invariant Remains(primes, minterms, chosen, remaining)
      invariant |chosen| + |remaining| <= total
      invariant forall r: Row, i: nat :: r in chart[..k] && r.indices == [i] ==> i in chosen
      invariant Lists(order, chosen) && forall i :: i in order ==> EssentialFor(primes, minterms, i)
    {
      ChartRows(primes, minterms, chart[k]);
      if |chart[k].indices| == 1 {
        var idx := chart[k].indices[0];
        assert idx in chart[k].indices;
        EssentialIsNew(primes, minterms, chosen, remaining, chart[k].minterm, idx);
        ghost var before := remaining;
        remaining := EraseCovered(primes[idx], minterms, remaining, primes, chosen, idx);
        assert CoveredBy(primes, chosen + {idx}, chart[k].minterm);
        if idx !in chosen { LosesOne(remaining, before, chart[k].minterm); } else { NotMore(remaining, before); }
        IsEssential(primes, minterms, chart[k].minterm, idx);
        order := if idx in chosen then order else order + [idx];
        chosen := chosen + {idx};
      }
      assert chart[..k + 1] == chart[..k] + [chart[k]];
    }
    forall m, i | m in minterms && Essential(primes, m, i) ensures i in chosen {
      ChartRows(primes, minterms, Row(m, [i]));
      assert chart[..|chart|] == chart;
    }
  }

  lemma IsEssential(primes: seq<Cube>, minterms: seq<bv8>, m: bv8, i: nat)
    requires m in minterms && Essential(primes, m, i)
    ensures EssentialFor(primes, minterms, i)
  {}

  lemma AllEssential(primes: seq<Cube>, minterms: seq<bv8>, order: seq<nat>)
    requires forall i :: i in order ==> EssentialFor(primes, minterms, i)
    requires forall m, i :: m in minterms && Essential(primes, m, i) ==> i in order
    ensures GreedyOrder(primes, minterms, order, |order|)
  {
    assert order[..|order|] == order;
  }

  lemma NotMore(left: set<bv8>, remaining: set<bv8>)
    requires left <= remaining
    ensures |left| <= |remaining|
  {
    assert |remaining| == |left| + |remaining - left|;
  }

  lemma LosesOne(left: set<bv8>, remaining: set<bv8>, m: bv8)
    requires left <= remaining && m in remaining && m !in left
    ensures |left| < |remaining|
  {
    assert m in remaining - left;
    assert |remaining| == |left| + |remaining - left|;
  }

  /** An essential implicant that is not yet chosen has something left to cover. */
  lemma EssentialIsNew(primes: seq<Cube>, minterms: seq<bv8>, chosen: set<nat>, remaining: set<bv8>, m: bv8, i: nat)
    requires Remains(primes, minterms, chosen, remaining) && m in minterms && Essential(primes, m, i)
    ensures i < |primes| && Covers(primes[i], m) && (i !in chosen ==> m in remaining)
    ensures i in chosen ==> chosen + {i} == chosen
  {
    hide Covers;
    assert i in Indices(primes, m, |primes|);
    if CoveredBy(primes, chosen, m) {
      var j :| j in chosen && j < |primes| && Covers(primes[j], m);
      assert j in Indices(primes, m, |primes|);
    }
  }

  lemma ChosenGainsNothing(primes: seq<Cube>, minterms: seq<bv8>, chosen: set<nat>, remaining: set<bv8>, i: nat)
    requires Remains(primes, minterms, chosen, remaining) && i < |primes|
    ensures i in chosen ==> Gain(primes[i], remaining) == {}
  {
    hide Covers;
    if i in chosen {
      forall m | m in remaining ensures !Covers(primes[i], m) {
        assert !CoveredBy(primes, chosen, m);
      }
    }
  }

  function Gain(p: Cube, remaining: set<bv8>): set<bv8> {
    set m | m in remaining && Covers(p, m)
  }

  lemma Shrinks(left: set<bv8>, remaining: set<bv8>, gain: set<bv8>)
    requires left == remaining - gain && gain <= remaining && gain != {}
    ensures |left| < |remaining|
  {
    assert |remaining| == |left| + |gain|;
  }

  lemma SomeGain(primes: seq<Cube>, remaining: set<bv8>, m: bv8)
    requires m in remaining && Indices(primes, m, |primes|) != []
    ensures exists i :: 0 <= i < |primes| && Gain(primes[i], remaining) != {}
  {
    hide Covers;
    var i := Indices(primes, m, |primes|)[0];
    assert i in Indices(primes, m, |primes|);
    assert m in Gain(primes[i], remaining);
  }

  lemma AllCovered(primes: seq<Cube>, minterms: seq<bv8>, chosen: set<nat>)
    requires Remains(primes, minterms, chosen, {})
    ensures forall m :: m in minterms ==> CoveredBy(primes, chosen, m) && Indices(primes, m, |primes|) != []
  {
    hide Covers;
    forall m | m in minterms ensures CoveredBy(primes, chosen, m) && Indices(primes, m, |primes|) != [] {
      assert CoveredBy(primes, chosen, m);
      var i :| i in chosen && i < |primes| && Covers(primes[i], m);
      assert i in Indices(primes, m, |primes|);
    }
  }

  /** The first cube with the largest gain. */
  method BestGain(primes: seq<Cube>, remaining: set<bv8>) returns (bestPi: nat, maxCover: nat)
    ensures maxCover == 0 ==> forall i :: 0 <= i < |primes| ==> Gain(primes[i], remaining) == {}
    ensures maxCover > 0 ==> bestPi < |primes| && |Gain(primes[bestPi], remaining)| == maxCover
    ensures forall i :: 0 <= i < |primes| ==> |Gain(primes[i], remaining)| <= maxCover
    ensures maxCover > 0 ==> forall i :: 0 <= i < bestPi ==> |Gain(primes[i], remaining)| < maxCover
  {
    hide Covers, Gain;
    bestPi, maxCover := 0, 0;
    for i := 0 to |primes|
      invariant maxCover > 0 ==> bestPi < i && |Gain(primes[bestPi], remaining)| == maxCover
      invariant forall k :: 0 <= k < i ==> |Gain(primes[k], remaining)| <= maxCover
      invariant maxCover > 0 ==> forall k :: 0 <= k < bestPi ==> |Gain(primes[k], remaining)| < maxCover
    {
      var count := |Gain(primes[i], remaining)|;
      if count > maxCover {
        maxCover := count;
        bestPi := i;
      }
    }
  }

  /** Takes the minterms under the cube at `idx` out of the remaining ones. */
  method EraseCovered(p: Cube, minterms: seq<bv8>, remaining: set<bv8>, ghost primes: seq<Cube>, ghost chosen: set<nat>, ghost idx: nat)
    returns (left: set<bv8>)
    requires Remains(primes, minterms, chosen, remaining) && idx < |primes| && primes[idx] == p
    ensures Remains(primes, minterms, chosen + {idx}, left)
    ensures left <= remaining
  {
    hide Covers;
    left := remaining;
    for k := 0 to |minterms|
      invariant left <= remaining
      invariant forall m :: m in left <==> m in remaining && !(m in minterms[..k] && Covers(p, m))
    {
      if Covers(p, minterms[k]) {
        left := left - {minterms[k]};
      }
      assert minterms[..k + 1] == minterms[..k] + [minterms[k]];
    }
    assert minterms[..|minterms|] == minterms;
    assert forall m :: m in remaining ==> m in minterms;
    ChooseOne(primes, minterms, chosen, remaining, idx, left);
  }
}
