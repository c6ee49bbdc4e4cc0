/** The minimizer: truth table, prime implicants, cover, and the sum of products built from it. */
module Minimizer {
  import opened Logical
  import opened Condition
  import opened StringOrder
  import opened Cubes
  import opened QuineMcCluskey
  import opened PrimeCover
  import opened GreedyCover

  datatype Error = TooManyFunctions | CannotEvaluate | NoCover
  datatype Result<T> = Success(value: T) | Failure(error: Error)

  // ----- variables -----

  /** The function ids of a tree from left to right, with duplicates. */
  function CollectIds(t: Node): (ids: seq<string>)
    ensures forall id :: id in ids <==> id in t.Functions()
  {
    match t
    case Func(id) => [id]
    case Unary(c) => CollectIds(c)
    case Binary(_, l, r) => CollectIds(l) + CollectIds(r)
    case _ => []
  }

  /** The distinct function ids in ascending order. */
  method GetFunctions(t: Node) returns (ids: seq<string>)
    ensures Sorted(ids) && forall id :: id in ids <==> id in t.Functions()
  {
    var all := CollectIds(t);
    ids := [];
    for k := 0 to |all|
      invariant Sorted(ids)
      invariant forall id :: id in ids <==> id in all[..k]
    {
      InsertSorted(ids, all[k]);
      ids := Insert(ids, all[k]);
      assert all[..k + 1] == all[..k] + [all[k]];
    }
    assert all[..|all|] == all;
  }

  function BitMask(i: nat): (b: bv8)
    requires i < 8
    ensures SingleBit(b)
  {
    match i
    case 0 => 1
    case 1 => 2
    case 2 => 4
    case 3 => 8
    case 4 => 16
    case 5 => 32
    case 6 => 64
    case _ => 128
  }

  predicate Bit(v: bv8, i: nat)
    requires i < 8
  {
    Within(BitMask(i), v)
  }

  /** No bit at position `n` or above is set. */
  predicate Below(v: bv8, n: nat)
    requires n <= 8
  {
    n == 8 || v < BitMask(n)
  }

  /** The environment in which variable i has the value of bit i. */
  function EnvOf(v: bv8, ids: seq<string>): Env
    requires |ids| <= 8
  {
    (id: string) => exists i :: 0 <= i < |ids| && ids[i] == id && Bit(v, i)
  }

  // ----- the truth table -----

  /** The next combination: flip bits from the lowest up until one of them becomes true. */
  method Advance(values: bv8) returns (v: bv8)
    ensures v == values + 1
  {
    v := values;
    var bit: bv8 := 1;
    for j := 0 to 8
      invariant bit == if j < 8 then BitMask(j) else 0
      invariant values & (bit - 1) == bit - 1 && v == values & !(bit - 1)
    {
      v := v ^ bit;
      if v & bit != 0 {
        return;
      }
      bit := bit << 1;
    }
  }

  function Combinations(n: nat): nat {
    if n == 0 then 1 else 2 * Combinations(n - 1)
  }

  /** `v` is one of the assignments under which the tree is true. */
  predicate Minterm(expr: Node, ids: seq<string>, v: bv8)
    requires expr.Evaluable() && |ids| <= 8
  {
    Below(v, |ids|) && Eval(expr, EnvOf(v, ids))
  }

  lemma Increment(v: bv8, i: nat)
    requires v as int == i % 256 && i < 256
    ensures (v + 1) as int == (i + 1) % 256
  {}

  lemma BelowInt(v: bv8, n: nat)
    requires n <= 8
    ensures Below(v, n) <==> v as int < Combinations(n)
    ensures Combinations(n) <= 256
  {
    assert Combinations(0) == 1 && Combinations(1) == 2 && Combinations(2) == 4;
    assert Combinations(3) == 8 && Combinations(4) == 16 && Combinations(5) == 32;
    assert Combinations(6) == 64 && Combinations(7) == 128 && Combinations(8) == 256;
  }

  lemma SameInt(v: bv8, w: bv8)
    ensures v as int == w as int <==> v == w
    ensures v as int < 256
  {}

  /** The terms of the table, grouped by their number of true variables. */
  type Groups = map<nat, seq<Term>>

  function AddToGroup(groups: Groups, n: nat, t: Term): Groups {
    groups[n := (if n in groups then groups[n] else []) + [t]]
  }

  ghost predicate InGroups(groups: Groups, c: Cube) {
    exists n :: n in groups && Has(groups[n], c)
  }

  /** The groups hold one unused term, with every bit relevant, for each minterm. */
  ghost predicate GroupsOf(groups: Groups, minterms: seq<bv8>) {
    && (forall n, k :: n in groups && 0 <= k < |groups[n]| ==> !groups[n][k].used)
    && (forall n :: n in groups ==> n <= 8)
    && forall c :: InGroups(groups, c) <==> c.mask == 0xFF && c.value in minterms
  }

  lemma AddMinterm(groups: Groups, minterms: seq<bv8>, n: nat, v: bv8)
    requires GroupsOf(groups, minterms) && n <= 8
    ensures GroupsOf(AddToGroup(groups, n, Term(Cube(0xFF, v), false)), minterms + [v])
  {
    var t := Term(Cube(0xFF, v), false);
    var more := AddToGroup(groups, n, t);
    var group := if n in groups then groups[n] else [];
    HasAppend(group, t);
    hide Has;
    HasNone(t.cube);
    forall c ensures InGroups(more, c) <==> InGroups(groups, c) || c == t.cube {
      if InGroups(more, c) {
        var k :| k in more && Has(more[k], c);
        if k != n { assert Has(groups[k], c); }
      }
      if InGroups(groups, c) {
        var k :| k in groups && Has(groups[k], c);
        assert Has(more[k], c);
      }
      if c == t.cube {
        assert Has(more[n], c);
      }
    }
    forall c: Cube ensures c.value in minterms + [v] <==> c.value in minterms || c.value == v {
    }
  }

  /** Each group has the terms with its number of true variables, none of them twice. */
  ghost predicate GroupsApart(groups: Groups) {
    forall n :: n in groups ==>
      Distinct(groups[n]) && forall k :: 0 <= k < |groups[n]| ==> Ones(groups[n][k].cube.value) == n
  }

  lemma AddApart(groups: Groups, minterms: seq<bv8>, v: bv8)
    requires GroupsOf(groups, minterms) && GroupsApart(groups) && v !in minterms
    ensures GroupsApart(AddToGroup(groups, Ones(v), Term(Cube(0xFF, v), false)))
  {
    hide Ones;
    var n := Ones(v);
    if n in groups {
      forall k | 0 <= k < |groups[n]| ensures groups[n][k].cube != Cube(0xFF, v) {
        var c := groups[n][k].cube;
        assert Has(groups[n], c);
        assert InGroups(groups, c);
      }
    }
  }

  lemma HasNone(c: Cube)
    ensures forall x :: !Has([], x)
  {}

  /** The combinations before the i-th under which the tree is true. */
  ghost predicate ListsBelow(minterms: seq<bv8>, expr: Node, ids: seq<string>, i: nat)
    requires expr.Evaluable() && |ids| <= 8
  {
    forall v :: v in minterms <==> v as int < i && Eval(expr, EnvOf(v, ids))
  }

  lemma NoneListed(expr: Node, ids: seq<string>)
    requires expr.Evaluable() && |ids| <= 8
    ensures ListsBelow([], expr, ids, 0)
  {}

  lemma ListStep(before: seq<bv8>, minterms: seq<bv8>, expr: Node, ids: seq<string>, i: nat, values: bv8)
    requires expr.Evaluable() && |ids| <= 8 && i < 256 && values as int == i % 256
    requires ListsBelow(before, expr, ids, i)
    requires minterms == before + if Eval(expr, EnvOf(values, ids)) then [values] else []
    ensures ListsBelow(minterms, expr, ids, i + 1)
  {
    hide Eval, EnvOf;
    forall v ensures v in minterms <==> v as int < i + 1 && Eval(expr, EnvOf(v, ids)) {
      UpToNext(v, values, i);
      Appended(before, values, v);
    }
  }

  lemma UpToNext(v: bv8, values: bv8, i: nat)
    requires i < 256 && values as int == i % 256
    ensures v as int < i + 1 <==> v as int < i || v == values
    ensures v == values ==> !(v as int < i)
  {
    SameInt(v, values);
    NextInt(v as int, values as int, i, v == values);
  }

  lemma NextInt(a: int, b: int, i: int, same: bool)
    requires 0 <= i < 256 && b == i % 256 && (same <==> a == b)
    ensures a < i + 1 <==> a < i || same
    ensures same ==> !(a < i)
  {}

  lemma Appended(before: seq<bv8>, values: bv8, v: bv8)
    ensures v in before + [values] <==> v in before || v == values
    ensures v in before + [] <==> v in before
  {}

  lemma AllListed(minterms: seq<bv8>, expr: Node, ids: seq<string>)
    requires expr.Evaluable() && |ids| <= 8
    requires ListsBelow(minterms, expr, ids, Combinations(|ids|))
    ensures forall v :: v in minterms <==> Minterm(expr, ids, v)
  {
    hide Eval, EnvOf, Below;
    forall v ensures v in minterms <==> Minterm(expr, ids, v) {
      BelowInt(v, |ids|);
    }
  }

  method GenerateTable(expr: Node, ids: seq<string>) returns (r: Result<(Groups, seq<bv8>)>)
    ensures |ids| > 8 ==> r == Failure(TooManyFunctions)
    ensures |ids| <= 8 && !expr.Evaluable() ==> r == Failure(CannotEvaluate)
    ensures |ids| <= 8 && expr.Evaluable() ==> r.Success? && GroupsOf(r.value.0, r.value.1) && GroupsApart(r.value.0)
    ensures r.Success? ==> forall v :: v in r.value.1 <==> |ids| <= 8 && expr.Evaluable() && Minterm(expr, ids, v)
  {
    hide Below, Eval, EnvOf, GroupsOf, GroupsApart, ListsBelow, AddToGroup, Ones;
    var n := |ids|;
    if n > 8 {
      return Failure(TooManyFunctions);
    }
    if !expr.Evaluable() {
      return Failure(CannotEvaluate);  // the first evaluation throws
    }
    var groups: Groups := map[];
    var minterms: seq<bv8> := [];
    var values: bv8 := 0;
    NoGroups();
    NoneListed(expr, ids);
    BelowInt(0, n);
    for i := 0 to Combinations(n)
      invariant values as int == i % 256
      invariant GroupsOf(groups, minterms) && GroupsApart(groups)
      invariant ListsBelow(minterms, expr, ids, i)
    {
      ghost var before := minterms;
      if Eval(expr, EnvOf(values, ids)) {
        OnesAll(values);
        NotListed(minterms, expr, ids, i, values);
        AddApart(groups, minterms, values);
        AddMinterm(groups, minterms, Ones(values), values);
        groups := AddToGroup(groups, Ones(values), Term(Cube(0xFF, values), false));
        minterms := minterms + [values];
      }
      ListStep(before, minterms, expr, ids, i, values);
      Increment(values, i);
      values := Advance(values);
    }
    AllListed(minterms, expr, ids);
    r := Success((groups, minterms));
  }

  lemma NoGroups()
    ensures GroupsOf(map[], []) && GroupsApart(map[])
  {}

  lemma NotListed(minterms: seq<bv8>, expr: Node, ids: seq<string>, i: nat, values: bv8)
    requires expr.Evaluable() && |ids| <= 8 && i < 256 && values as int == i % 256
    requires ListsBelow(minterms, expr, ids, i)
    ensures values !in minterms
  {
    hide Eval, EnvOf;
    UpToNext(values, values, i);
  }

  /** The groups one after the other. */
  method MakePlain(groups: Groups, ghost minterms: seq<bv8>) returns (table: seq<Term>)
    requires GroupsOf(groups, minterms) && GroupsApart(groups)
    ensures Level(table, set m | m in minterms, 8) && Distinct(table)
  {
    hide GroupsOf, Ones;
    GroupsBounds(groups, minterms);
    table := [];
    for n := 0 to 9
      invariant forall k :: 0 <= k < |table| ==> !table[k].used
      invariant forall c :: Has(table, c) <==> exists m: nat :: m < n && m in groups && Has(groups[m], c)
      invariant Distinct(table) && forall k :: 0 <= k < |table| ==> Ones(table[k].cube.value) < n
    {
      if n in groups {
        HasConcat(table, groups[n]);
        table := table + groups[n];
      }
    }
    PlainLevel(table, groups, minterms);
  }

  lemma GroupsBounds(groups: Groups, minterms: seq<bv8>)
    requires GroupsOf(groups, minterms)
    ensures forall n, k :: n in groups && 0 <= k < |groups[n]| ==> !groups[n][k].used
    ensures forall n :: n in groups ==> n <= 8
  {}

  lemma HasConcat(a: seq<Term>, b: seq<Term>)
    ensures forall c :: Has(a + b, c) <==> Has(a, c) || Has(b, c)
  {
    forall c ensures Has(a + b, c) <==> Has(a, c) || Has(b, c) {
      if Has(a, c) {
        var i :| 0 <= i < |a| && a[i].cube == c;
        assert (a + b)[i].cube == c;
      }
      if Has(b, c) {
        var i :| 0 <= i < |b| && b[i].cube == c;
        assert (a + b)[|a| + i].cube == c;
      }
    }
  }

  lemma PlainLevel(table: seq<Term>, groups: Groups, minterms: seq<bv8>)
    requires GroupsOf(groups, minterms)
    requires forall k :: 0 <= k < |table| ==> !table[k].used
    requires forall c :: Has(table, c) <==> exists m: nat :: m < 9 && m in groups && Has(groups[m], c)
    ensures Level(table, set m | m in minterms, 8)
  {
    hide Has, Ones;
    var on := set m | m in minterms;
    forall c ensures Has(table, c) <==> Implicant(c, on) && Ones(c.mask) == 8 {
      OnesAll(c.mask);
      if c.mask == 0xFF {
        FullCube(c.value, on);
      }
      assert Has(table, c) <==> InGroups(groups, c);
    }
  }

  /** A cube that fixes every bit covers its value only. */
  lemma FullCube(v: bv8, on: set<bv8>)
    ensures Implicant(Cube(0xFF, v), on) <==> v in on
  {
    forall m ensures Covers(Cube(0xFF, v), m) <==> m == v {
      MeetFull(m);
    }
    MeetFull(v);
  }

  lemma MeetFull(m: bv8)
    ensures Meet(m, 0xFF) == m
  {}

  // ----- assignments and cubes, bit by bit -----

  lemma JoinBit(v: bv8, k: nat, i: nat)
    requires k < 8 && i < 8
    ensures Bit(Join(v, BitMask(k)), i) <==> Bit(v, i) || i == k
  {}

  lemma BelowJoin(v: bv8, k: nat)
    requires k < 8 && Below(v, k)
    ensures Below(Join(v, BitMask(k)), k + 1) && Below(v, k + 1)
  {}

  lemma BelowBit(v: bv8, n: nat, i: nat)
    requires n <= i < 8 && Below(v, n)
    ensures !Bit(v, i)
  {}

  lemma MeetBit(v: bv8, k: bv8, i: nat)
    requires i < 8
    ensures Bit(Meet(v, k), i) <==> Bit(v, i) && Bit(k, i)
  {}

  lemma SameBits(a: bv8, b: bv8)
    requires forall i: nat :: i < 8 ==> Bit(a, i) == Bit(b, i)
    ensures a == b
  {
    assert Bit(a, 0) == Bit(b, 0) && Bit(a, 1) == Bit(b, 1) && Bit(a, 2) == Bit(b, 2) && Bit(a, 3) == Bit(b, 3);
    assert Bit(a, 4) == Bit(b, 4) && Bit(a, 5) == Bit(b, 5) && Bit(a, 6) == Bit(b, 6) && Bit(a, 7) == Bit(b, 7);
  }

  /** The byte that assigns to variable i what its function returns. */
  function Assignment(env: Env, ids: seq<string>, n: nat): bv8
    requires n <= |ids| && n <= 8
  {
    if n == 0 then 0
    else if env(ids[n - 1]) then Join(Assignment(env, ids, n - 1), BitMask(n - 1))
    else Assignment(env, ids, n - 1)
  }

  lemma {:induction false} AssignmentBits(env: Env, ids: seq<string>, n: nat, i: nat)
    requires n <= |ids| && n <= 8 && i < 8
    ensures Bit(Assignment(env, ids, n), i) <==> i < n && env(ids[i])
    ensures Below(Assignment(env, ids, n), n)
  {
    hide Below, Join, Bit;
    if n > 0 {
      AssignmentBits(env, ids, n - 1, i);
      JoinBit(Assignment(env, ids, n - 1), n - 1, i);
      BelowJoin(Assignment(env, ids, n - 1), n - 1);
    } else {
      ZeroBits(i);
    }
  }

  lemma ZeroBits(i: nat)
    requires i < 8
    ensures !Bit(0, i) && Below(0, 0)
  {}

  /** A cube covers an assignment if the variables in its mask have its values. */
  ghost predicate Matches(c: Cube, v: bv8, n: nat)
    requires n <= 8
  {
    forall i: nat :: i < n && Bit(c.mask, i) ==> Bit(v, i) == Bit(c.value, i)
  }

  lemma CoversBitwise(c: Cube, v: bv8, n: nat)
    requires n <= 8 && Normal(c) && Below(c.value, n) && Below(v, n)
    ensures Covers(c, v) <==> Matches(c, v, n)
  {
    hide Bit, Below, Meet;
    forall i: nat | i < 8
      ensures Bit(Meet(v, c.mask), i) <==> Bit(v, i) && Bit(c.mask, i)
      ensures Bit(c.value, i) ==> Bit(c.mask, i)
      ensures n <= i ==> !Bit(v, i) && !Bit(c.value, i)
    {
      MeetBit(v, c.mask, i);
      MeetBit(c.value, c.mask, i);
      if n <= i {
        BelowBit(v, n, i);
        BelowBit(c.value, n, i);
      }
    }
    if Matches(c, v, n) {
      SameBits(Meet(v, c.mask), c.value);
    }
  }

  // ----- the sum of products -----

  function Literal(id: string, positive: bool): Node {
    if positive then Func(id) else Unary(Func(id))
  }

  /** The literals of a cube over the first `n` variables. */
  function AndTerms(c: Cube, ids: seq<string>, n: nat): seq<Node>
    requires n <= |ids| && n <= 8
  {
    if n == 0 then []
    else if Bit(c.mask, n - 1) then AndTerms(c, ids, n - 1) + [Literal(ids[n - 1], Bit(c.value, n - 1))]
    else AndTerms(c, ids, n - 1)
  }

  /** Operands joined from left to right. */
  function Chain(op: BinaryOp, terms: seq<Node>): Node
    requires terms != []
  {
    if |terms| == 1 then terms[0]
    else Binary(op, Chain(op, terms[..|terms| - 1]), terms[|terms| - 1])
  }

  function Product(c: Cube, ids: seq<string>): Node
    requires |ids| <= 8
  {
    var terms := AndTerms(c, ids, |ids|);
    if terms == [] then Bool(true) else Chain(And, terms)
  }

  function SumOfProducts(cubes: seq<Cube>, ids: seq<string>): Node
    requires |ids| <= 8
  {
    if cubes == [] then Bool(false)
    else Chain(Or, Products(cubes, ids))
  }

  function Products(cubes: seq<Cube>, ids: seq<string>): (r: seq<Node>)
    requires |ids| <= 8
    ensures |r| == |cubes|
  {
    seq(|cubes|, k requires 0 <= k < |cubes| => Product(cubes[k], ids))
  }

  // ----- the size of a sum -----

  /** How often functions occur in a tree. */
  function Occurrences(t: Node): nat {
    match t
    case Func(_) => 1
    case Unary(c) => Occurrences(c)
    case Binary(_, l, r) => Occurrences(l) + Occurrences(r)
    case _ => 0
  }

  function OccurrencesIn(terms: seq<Node>): nat {
    if terms == [] then 0 else OccurrencesIn(terms[..|terms| - 1]) + Occurrences(terms[|terms| - 1])
  }

  lemma {:induction false} ChainOccurrences(op: BinaryOp, terms: seq<Node>)
    requires terms != []
    ensures Occurrences(Chain(op, terms)) == OccurrencesIn(terms)
  {
    if |terms| > 1 {
      ChainOccurrences(op, terms[..|terms| - 1]);
    } else {
      assert terms[..0] == [] && OccurrencesIn([]) == 0;
    }
  }

  /** The variables below `n` that a cube fixes. */
  function Fixed(c: Cube, n: nat): nat
    requires n <= 8
  {
    if n == 0 then 0 else Fixed(c, n - 1) + if Bit(c.mask, n - 1) then 1 else 0
  }

  lemma {:induction false} AndTermsOccurrences(c: Cube, ids: seq<string>, n: nat)
    requires n <= |ids| && n <= 8
    ensures OccurrencesIn(AndTerms(c, ids, n)) == Fixed(c, n)
  {
    hide Bit;
    if n > 0 {
      AndTermsOccurrences(c, ids, n - 1);
      var terms := AndTerms(c, ids, n - 1);
      if Bit(c.mask, n - 1) {
        var literal := Literal(ids[n - 1], Bit(c.value, n - 1));
        var more := terms + [literal];
        assert more[..|more| - 1] == terms && Occurrences(literal) == 1;
      }
    }
  }

  /** A product names every variable once that its cube fixes, and no other. */
  lemma ProductOccurrences(c: Cube, ids: seq<string>)
    requires |ids| <= 8
    ensures Occurrences(Product(c, ids)) == Fixed(c, |ids|)
  {
    hide Bit, Chain;
    AndTermsOccurrences(c, ids, |ids|);
    var terms := AndTerms(c, ids, |ids|);
    if terms != [] { ChainOccurrences(And, terms); }
  }

  function FixedIn(cubes: seq<Cube>, n: nat): nat
    requires n <= 8
  {
    if cubes == [] then 0 else FixedIn(cubes[..|cubes| - 1], n) + Fixed(cubes[|cubes| - 1], n)
  }

  lemma {:induction false} ProductsOccurrences(cubes: seq<Cube>, ids: seq<string>)
    requires |ids| <= 8
    ensures OccurrencesIn(Products(cubes, ids)) == FixedIn(cubes, |ids|)
  {
    hide Product, Fixed;
    if cubes != [] {
      var n := |cubes| - 1;
      ProductsOccurrences(cubes[..n], ids);
      ProductOccurrences(cubes[n], ids);
      assert Products(cubes, ids)[..n] == Products(cubes[..n], ids);
    }
  }

  /** The sum has as many literals as its cubes fix variables. */
  lemma SumOccurrences(cubes: seq<Cube>, ids: seq<string>)
    requires |ids| <= 8
    ensures Occurrences(SumOfProducts(cubes, ids)) == FixedIn(cubes, |ids|)
  {
    hide Product, Chain;
    ProductsOccurrences(cubes, ids);
    if cubes != [] { ChainOccurrences(Or, Products(cubes, ids)); }
  }

  /** The chosen cubes in ascending order of their index, below `n`. */
  function Selected(primes: seq<Cube>, chosen: set<nat>, n: nat): seq<Cube>
    requires n <= |primes|
  {
    if n == 0 then []
    else Selected(primes, chosen, n - 1) + if n - 1 in chosen then [primes[n - 1]] else []
  }

  ghost predicate AllEvaluable(terms: seq<Node>) {
    forall k :: 0 <= k < |terms| ==> terms[k].Evaluable()
  }

  lemma {:induction false} ChainMeans(op: BinaryOp, terms: seq<Node>, env: Env)
    requires terms != [] && AllEvaluable(terms) && (op == And || op == Or)
    ensures Chain(op, terms).Evaluable()
    ensures op == And ==> (Eval(Chain(op, terms), env) <==> forall k :: 0 <= k < |terms| ==> Eval(terms[k], env))
    ensures op == Or ==> (Eval(Chain(op, terms), env) <==> exists k :: 0 <= k < |terms| && Eval(terms[k], env))
  {
    var n := |terms| - 1;
    if n > 0 {
      var front := terms[..n];
      ChainMeans(op, front, env);
      assert forall k :: 0 <= k < n ==> front[k] == terms[k];
      if op == Or {
        if k :| 0 <= k < n && Eval(front[k], env) {
          assert Eval(terms[k], env);
        }
        if k :| 0 <= k < |terms| && Eval(terms[k], env) {
          assert k < n ==> Eval(front[k], env);
        }
      } else {
        assert (forall k :: 0 <= k < n ==> Eval(front[k], env)) <==> (forall k :: 0 <= k < n ==> Eval(terms[k], env));
      }
    }
  }

  lemma {:induction false} AndTermsMean(c: Cube, ids: seq<string>, n: nat, env: Env)
    requires n <= |ids| && n <= 8
    ensures AllEvaluable(AndTerms(c, ids, n))
    ensures (forall k :: 0 <= k < |AndTerms(c, ids, n)| ==> Eval(AndTerms(c, ids, n)[k], env))
            <==> forall i: nat :: i < n && Bit(c.mask, i) ==> env(ids[i]) == Bit(c.value, i)
  {
    hide Bit;
    if n > 0 {
      AndTermsMean(c, ids, n - 1, env);
      var (front, all) := (AndTerms(c, ids, n - 1), AndTerms(c, ids, n));
      if Bit(c.mask, n - 1) {
        assert all[|front|] == Literal(ids[n - 1], Bit(c.value, n - 1));
        assert Eval(all[|front|], env) <==> env(ids[n - 1]) == Bit(c.value, n - 1);
        forall k | 0 <= k < |all| ensures all[k].Evaluable() {
          if k < |front| {
            assert all[k] == front[k];
          }
        }
        assert forall k :: 0 <= k < |front| ==> all[k] == front[k];
      }
    }
  }

  /** The product of a cube is true exactly on the assignments that the cube covers. */
  lemma ProductMeans(c: Cube, ids: seq<string>, env: Env)
    requires |ids| <= 8 && Normal(c) && Below(c.value, |ids|)
    ensures Product(c, ids).Evaluable()
    ensures Eval(Product(c, ids), env) <==> Covers(c, Assignment(env, ids, |ids|))
  {
    hide Bit, Below, Covers, Chain, AndTerms, Eval, Assignment, Normal;
    var n := |ids|;
    var v := Assignment(env, ids, n);
    forall i: nat | i < 8 ensures Bit(v, i) <==> i < n && env(ids[i]) {
      AssignmentBits(env, ids, n, i);
    }
    AssignmentBits(env, ids, n, 0);
    CoversBitwise(c, v, n);
    AndTermsMean(c, ids, n, env);
    var terms := AndTerms(c, ids, n);
    if terms == [] {
      TrueMeans(env);
    } else {
      ChainMeans(And, terms, env);
    }
  }

  lemma TrueMeans(env: Env)
    ensures Bool(true).Evaluable() && Eval(Bool(true), env)
  {}

  lemma SumMeans(cubes: seq<Cube>, ids: seq<string>, env: Env)
    requires |ids| <= 8
    requires forall c :: c in cubes ==> Normal(c) && Below(c.value, |ids|)
    ensures SumOfProducts(cubes, ids).Evaluable()
    ensures Eval(SumOfProducts(cubes, ids), env)
            <==> exists c :: c in cubes && Covers(c, Assignment(env, ids, |ids|))
  {
    hide Below, Covers, Chain, Product, Eval, Assignment, Normal;
    var v := Assignment(env, ids, |ids|);
    var terms := Products(cubes, ids);
    forall k | 0 <= k < |cubes| ensures terms[k].Evaluable() && (Eval(terms[k], env) <==> Covers(cubes[k], v)) {
      ProductMeans(cubes[k], ids, env);
    }
    if cubes == [] {
      FalseMeans(env);
    } else {
      ChainMeans(Or, terms, env);
    }
  }

  lemma FalseMeans(env: Env)
    ensures Bool(false).Evaluable() && !Eval(Bool(false), env)
  {}

  /** Builds the products of the chosen cubes and joins them. */
  method ReconstructTree(chosen: set<nat>, primes: seq<Cube>, ids: seq<string>) returns (t: Node)
    requires |ids| <= 8 && forall i :: i in chosen ==> i < |primes|
    ensures t == SumOfProducts(Selected(primes, chosen, |primes|), ids)
  {
    hide Chain;
    if chosen == {} {
      NoneSelected(primes, chosen, |primes|);
      return Bool(false);
    }
    var orTerms: seq<Node> := [];
    for k := 0 to |primes|
      invariant orTerms == Products(Selected(primes, chosen, k), ids)
    {
      if k in chosen {
        var product := BuildProduct(primes[k], ids);
        orTerms := orTerms + [product];
      }
    }
    SomeSelected(primes, chosen, |primes|);
    t := JoinTerms(Or, orTerms);
  }

  method BuildProduct(c: Cube, ids: seq<string>) returns (t: Node)
    requires |ids| <= 8
    ensures t == Product(c, ids)
  {
    hide Bit, Chain;
    var andTerms: seq<Node> := [];
    for i := 0 to |ids|
      invariant andTerms == AndTerms(c, ids, i)
    {
      if Bit(c.mask, i) {
        var node := Func(ids[i]);
        if !Bit(c.value, i) {
          andTerms := andTerms + [Unary(node)];
        } else {
          andTerms := andTerms + [node];
        }
      }
    }
    if andTerms == [] {
      t := Bool(true);
    } else {
      t := JoinTerms(And, andTerms);
    }
  }

  method JoinTerms(op: BinaryOp, terms: seq<Node>) returns (t: Node)
    requires terms != []
    ensures t == Chain(op, terms)
  {
    t := terms[0];
    for k := 1 to |terms|
      invariant t == Chain(op, terms[..k])
    {
      t := Binary(op, t, terms[k]);
      assert terms[..k + 1][..k] == terms[..k];
    }
    assert terms[..|terms|] == terms;
  }

  lemma {:induction false} NoneSelected(primes: seq<Cube>, chosen: set<nat>, n: nat)
    requires n <= |primes| && chosen == {}
    ensures Selected(primes, chosen, n) == []
  {
    if n > 0 {
      NoneSelected(primes, chosen, n - 1);
    }
  }

  lemma {:induction false} SelectedHas(primes: seq<Cube>, chosen: set<nat>, n: nat, c: Cube)
    requires n <= |primes|
    ensures c in Selected(primes, chosen, n) <==> exists i :: i in chosen && i < n && primes[i] == c
  {
    if n > 0 {
      SelectedHas(primes, chosen, n - 1, c);
    }
  }

  lemma SomeSelected(primes: seq<Cube>, chosen: set<nat>, n: nat)
    requires n == |primes| && chosen != {} && forall i :: i in chosen ==> i < n
    ensures Selected(primes, chosen, n) != []
  {
    var i :| i in chosen;
    SelectedHas(primes, chosen, n, primes[i]);
  }

  // ----- the minimized tree -----

  /** The value of a tree depends on its own functions only. */
  lemma {:induction false} EvalAgree(t: Node, env: Env, env': Env)
    requires t.Evaluable() && forall id :: id in t.Functions() ==> env(id) == env'(id)
    ensures Eval(t, env) == Eval(t, env')
  {
    match t
    case Unary(c) => EvalAgree(c, env, env');
    case Binary(_, l, r) => EvalAgree(l, env, env'); EvalAgree(r, env, env');
    case _ =>
  }

  lemma AssignmentAgrees(expr: Node, ids: seq<string>, env: Env)
    requires expr.Evaluable() && |ids| <= 8
    requires Sorted(ids) && forall id :: id in ids <==> id in expr.Functions()
    ensures Minterm(expr, ids, Assignment(env, ids, |ids|)) <==> Eval(expr, env)
  {
    hide Bit, Below, Assignment, Eval;
    var v := Assignment(env, ids, |ids|);
    AssignmentBits(env, ids, |ids|, 0);
    SortedDistinct(ids);
    forall id | id in expr.Functions() ensures EnvOf(v, ids)(id) == env(id) {
      var i :| 0 <= i < |ids| && ids[i] == id;
      AssignmentBits(env, ids, |ids|, i);
    }
    EvalAgree(expr, EnvOf(v, ids), env);
  }

  /** What the chosen prime implicants have to do with the on-set. */
  lemma CoverMeans(cubes: seq<Cube>, on: set<bv8>, ids: seq<string>, env: Env)
    requires |ids| <= 8 && forall m :: m in on ==> Below(m, |ids|)
    requires forall c :: c in cubes ==> Prime(c, on)
    requires forall m :: m in on ==> exists c :: c in cubes && Covers(c, m)
    ensures SumOfProducts(cubes, ids).Evaluable()
    ensures Eval(SumOfProducts(cubes, ids), env) <==> Assignment(env, ids, |ids|) in on
  {
    hide Below, Covers, Assignment, SumOfProducts, Eval, Normal;
    forall c | c in cubes ensures Normal(c) && Below(c.value, |ids|) {
      PrimeValue(c, on);
    }
    SumMeans(cubes, ids, env);
    var v := Assignment(env, ids, |ids|);
    if c :| c in cubes && Covers(c, v) {
      assert Implicant(c, on);
    }
  }

  lemma PrimeValue(c: Cube, on: set<bv8>)
    requires Prime(c, on)
    ensures Normal(c) && c.value in on
  {
    CoversOwnValue(c);
  }

  lemma IdsCount(ids: seq<string>, functions: set<string>)
    requires Sorted(ids) && forall id :: id in ids <==> id in functions
    ensures |ids| == |functions|
  {
    SortedDistinct(ids);
    assert functions == set id | id in ids;
    DistinctCount(ids);
  }

  lemma {:induction false} DistinctCount(ids: seq<string>)
    requires forall i, j :: 0 <= i < j < |ids| ==> ids[i] != ids[j]
    ensures |set id | id in ids| == |ids|
  {
    if ids != [] {
      var (front, last) := (ids[..|ids| - 1], ids[|ids| - 1]);
      DistinctCount(front);
      assert (set id | id in ids) == (set id | id in front) + {last};
    }
  }

  /** Every minterm has a prime implicant over it. */
  lemma PrimesCover(primes: seq<Cube>, minterms: seq<bv8>, on: set<bv8>)
    requires on == set m | m in minterms
    requires forall c :: c in primes <==> Prime(c, on)
    ensures forall m :: m in minterms ==> Indices(primes, m, |primes|) != []
  {
    hide Covers, Prime, Indices, Implicant;
    forall m | m in minterms ensures Indices(primes, m, |primes|) != [] {
      FullCube(m, on);
      var p := PrimeAbove(Cube(0xFF, m), on);
      MeetFull(m);
      CoversFull(m);
      var i :| 0 <= i < |primes| && primes[i] == p;
      assert Covers(p, m);
      assert i in Indices(primes, m, |primes|);
    }
  }

  lemma CoversFull(m: bv8)
    ensures Covers(Cube(0xFF, m), m)
  {
    MeetFull(m);
  }

  lemma ChosenCover(primes: seq<Cube>, minterms: seq<bv8>, on: set<bv8>, chosen: set<nat>, cubes: seq<Cube>)
    requires on == set m | m in minterms
    requires forall c :: c in primes <==> Prime(c, on)
    requires forall m :: m in minterms ==> CoveredBy(primes, chosen, m)
    requires cubes == Selected(primes, chosen, |primes|)
    ensures forall c :: c in cubes ==> Prime(c, on)
    ensures forall m :: m in on ==> exists c :: c in cubes && Covers(c, m)
  {
    hide Covers, Prime, Selected;
    forall c | c in cubes ensures Prime(c, on) {
      SelectedHas(primes, chosen, |primes|, c);
    }
    forall m | m in on ensures exists c :: c in cubes && Covers(c, m) {
      var i :| i in chosen && i < |primes| && Covers(primes[i], m);
      SelectedHas(primes, chosen, |primes|, primes[i]);
    }
  }

  /** What the minimizer has found: `t` is a sum of prime implicants of the on-set `on` of `expr`
      over its variables `ids`. */
  ghost predicate PrimeSum(t: Node, expr: Node, ids: seq<string>, on: set<bv8>, cubes: seq<Cube>)
    requires expr.Evaluable()
  {
    && Sorted(ids) && (forall id :: id in ids <==> id in expr.Functions())
    && |ids| <= 8 && t == SumOfProducts(cubes, ids)
    && (forall m :: m in on <==> Minterm(expr, ids, m))
    && forall c :: c in cubes ==> Prime(c, on)
  }

  /** `cubes` are those of a greedy choice, in some order and each once. */
  ghost predicate Greedy(cubes: seq<Cube>, on: set<bv8>) {
    exists order: seq<Cube>, e: nat :: GreedyChoice(order, e, on) && SameCubes(order, cubes)
  }

  ghost predicate SameCubes(order: seq<Cube>, cubes: seq<Cube>) {
    |order| == |cubes| && forall c :: c in cubes <==> c in order
  }

  lemma {:induction false} SelectedSize(primes: seq<Cube>, chosen: set<nat>, n: nat)
    requires n <= |primes|
    ensures |Selected(primes, chosen, n)| == |set i | i in chosen && i < n|
  {
    if n > 0 {
      SelectedSize(primes, chosen, n - 1);
      var (before, all) := (set i | i in chosen && i < n - 1, set i | i in chosen && i < n);
      if n - 1 in chosen {
        assert all == before + {n - 1};
      } else {
        assert all == before;
      }
    } else {
      assert (set i | i in chosen && i < 0) == {};
    }
  }

  lemma {:induction false} ListedSize(order: seq<nat>, chosen: set<nat>)
    requires Lists(order, chosen)
    ensures |order| == |chosen|
  {
    if order != [] {
      var last := order[|order| - 1];
      assert forall i :: i in order[..|order| - 1] ==> i in order;
      forall i ensures i in order[..|order| - 1] <==> i in chosen - {last} {
        assert order == order[..|order| - 1] + [last];
      }
      ListedSize(order[..|order| - 1], chosen - {last});
      assert last in chosen;
    } else {
      assert chosen == {};
    }
  }

  lemma ChosenGreedy(primes: seq<Cube>, minterms: seq<bv8>, on: set<bv8>, chosen: set<nat>, order: seq<nat>, e: nat, cubes: seq<Cube>)
    requires on == (set m | m in minterms) && (forall c :: c in primes <==> Prime(c, on)) && Different(primes)
    requires Lists(order, chosen) && GreedyOrder(primes, minterms, order, e) && forall i :: i in chosen ==> i < |primes|
    requires forall m :: m in minterms ==> CoveredBy(primes, chosen, m)
    requires cubes == Selected(primes, chosen, |primes|)
    ensures Greedy(cubes, on)
  {
    hide Covers, Prime, Selected, GreedyChoice, GreedyOrder, CoveredBy, Different;
    ChoiceIsGreedy(primes, minterms, on, chosen, order, e);
    var ordered := CubesOf(primes, order);
    SelectedSize(primes, chosen, |primes|);
    ListedSize(order, chosen);
    assert (set i | i in chosen && i < |primes|) == chosen;
    forall c ensures c in cubes <==> c in ordered {
      SelectedHas(primes, chosen, |primes|, c);
      if c in cubes {
        var i :| i in chosen && i < |primes| && primes[i] == c;
        var k :| 0 <= k < |order| && order[k] == i;
        assert ordered[k] == c;
      }
      if c in ordered {
        var k :| 0 <= k < |ordered| && ordered[k] == c;
        assert order[k] in order;
      }
    }
    assert SameCubes(ordered, cubes);
  }

  /** The minimized tree means the same under every environment, and is the sum of a greedy choice of
      prime implicants. */
  method Simplify(expr: Node) returns (r: Result<Node>, ghost ids: seq<string>, ghost on: set<bv8>, ghost cubes: seq<Cube>)
    requires expr.Intact()
    ensures |expr.Functions()| > 8 ==> r == Failure(TooManyFunctions)
    ensures |expr.Functions()| <= 8 && !expr.Evaluable() ==> r == Failure(CannotEvaluate)
    ensures |expr.Functions()| <= 8 && expr.Evaluable() ==>
              r.Success? && r.value.Evaluable() && PrimeSum(r.value, expr, ids, on, cubes) && Greedy(cubes, on)
    ensures |expr.Functions()| <= 8 && expr.Evaluable() ==> forall env: Env :: Eval(r.value, env) == Eval(expr, env)
  {
    hide Level, GroupsOf, GroupsApart, Below, Covers, Prime, Eval, Assignment, SumOfProducts, Selected, Indices, Greedy, GreedyOrder,
      Lists, Different, Distinct;
    cubes, on := [], {};
    var variables := GetFunctions(expr);
    ids := variables;
    IdsCount(ids, expr.Functions());
    var table := GenerateTable(expr, variables);
    if table.Failure? {
      return Failure(table.error), ids, on, cubes;
    }
    var (groups, minterms) := table.value;
    on := set m | m in minterms;
    var plain := MakePlain(groups, minterms);
    var primes := PrimeImplicants(plain, on);
    PrimesCover(primes, minterms, on);
    ghost var order: seq<nat>, e: nat;
    var choice;
    choice, order, e := SelectCover(primes, minterms);
    if choice.NoPrimeImplicant? {
      return Failure(NoCover), ids, on, cubes;
    }
    var tree := ReconstructTree(choice.indices, primes, variables);
    cubes := Selected(primes, choice.indices, |primes|);
    ChosenCover(primes, minterms, on, choice.indices, cubes);
    ChosenGreedy(primes, minterms, on, choice.indices, order, e, cubes);
    assert forall m :: m in on ==> Minterm(expr, ids, m);
    forall env: Env ensures tree.Evaluable() && Eval(tree, env) == Eval(expr, env) {
      CoverMeans(cubes, on, ids, env);
      AssignmentAgrees(expr, ids, env);
    }
    assert tree.Evaluable() by {
      var env: Env := _ => false;
      CoverMeans(cubes, on, ids, env);
    }
    r := Success(tree);
  }
}
