/** CRC-32: the table-driven checksum, the shift register it stands for, and what it detects. */
module Crc32 {

  /** The generator polynomial with its coefficients reflected, x^31 in the lowest bit. */
  const POLYNOMIAL: bv32 := 0xEDB88320

  const ONES: bv32 := 0xFFFF_FFFF

  function Xor(a: bv32, b: bv32): bv32 {
    a ^ b
  }

  predicate Odd(c: bv32) {
    c & 1 == 1
  }

  function Half(c: bv32): bv32 {
    c >> 1
  }

  function Upper(c: bv32): bv32 {
    c >> 8
  }

  function Index(c: bv32): bv8 {
    (c & 0xFF) as bv8
  }

  function Wide(b: bv8): bv32 {
    b as bv32
  }

  function Unit(bit: bool): bv32 {
    if bit then 1 else 0
  }

  // ----- the shift register, one bit at a time -----

  /** One shift: the bit that leaves feeds the polynomial back. */
  function Step(c: bv32): bv32 {
    if Odd(c) then Xor(Half(c), POLYNOMIAL) else Half(c)
  }

  function Steps(c: bv32, n: nat): bv32 {
    if n == 0 then c else Step(Steps(c, n - 1))
  }

  /** Feeds one message bit into the low end of the register. */
  function Feed(c: bv32, bit: bool): bv32 {
    Step(Xor(c, Unit(bit)))
  }

  function FeedAll(c: bv32, bits: seq<bool>): bv32
    decreases |bits|
  {
    if bits == [] then c else FeedAll(Feed(c, bits[0]), bits[1..])
  }

  /** The lowest n bits of a word in the order in which they are sent, lowest first. */
  function LowBits(w: bv32, n: nat): (bits: seq<bool>)
    ensures |bits| == n
  {
    if n == 0 then [] else [Odd(w)] + LowBits(Half(w), n - 1)
  }

  function MessageBits(data: seq<bv8>): (bits: seq<bool>)
    ensures |bits| == 8 * |data|
  {
    if data == [] then [] else LowBits(Wide(data[0]), 8) + MessageBits(data[1..])
  }

  // ----- eight bits at once -----

  /** What the loop body does with one byte, with the table entry written out. */
  function Absorb(c: bv32, b: bv8): bv32 {
    Xor(Upper(c), Steps(Wide(Index(Xor(c, Wide(b)))), 8))
  }

  function AbsorbAll(c: bv32, data: seq<bv8>): bv32
    decreases |data|
  {
    if data == [] then c else AbsorbAll(Absorb(c, data[0]), data[1..])
  }

  lemma AbsorbNone(c: bv32)
    ensures AbsorbAll(c, []) == c
  {}

  // ----- bit-level facts -----

  lemma XorGroup(a: bv32, b: bv32, c: bv32)
    ensures Xor(Xor(a, b), c) == Xor(a, Xor(b, c)) && Xor(a, b) == Xor(b, a)
    ensures Xor(a, a) == 0 && Xor(a, 0) == a
  {}

  lemma OddXor(a: bv32, b: bv32)
    ensures Odd(Xor(a, b)) <==> Odd(a) != Odd(b)
  {}

  lemma HalfXor(a: bv32, b: bv32)
    ensures Half(Xor(a, b)) == Xor(Half(a), Half(b))
  {}

  lemma UpperXor(a: bv32, b: bv32)
    ensures Upper(Xor(a, b)) == Xor(Upper(a), Upper(b))
  {}

  lemma Exchange(a: bv32, b: bv32, c: bv32, d: bv32)
    ensures Xor(Xor(a, b), Xor(c, d)) == Xor(Xor(a, c), Xor(b, d))
  {
    hide Xor;
    XorGroup(a, b, Xor(c, d));
    XorGroup(b, c, d);
    XorGroup(c, b, d);
    XorGroup(a, c, Xor(b, d));
  }

  lemma UnitParts(w: bv32)
    ensures Xor(w, Unit(Odd(w))) == Xor(0, Xor(w, Unit(Odd(w)))) && !Odd(Xor(w, Unit(Odd(w))))
    ensures Half(Xor(w, Unit(Odd(w)))) == Half(w)
  {}

  lemma StepXor(a: bv32, b: bv32)
    ensures Step(Xor(a, b)) == Xor(Step(a), Step(b))
  {
    hide Xor, Odd, Half;
    OddXor(a, b);
    HalfXor(a, b);
    var p := POLYNOMIAL;
    if Odd(a) && Odd(b) {
      Exchange(Half(a), p, Half(b), p);
      XorGroup(p, p, 0);
      XorGroup(Xor(Half(a), Half(b)), 0, 0);
    } else if Odd(a) {
      XorGroup(Half(a), p, Half(b));
      XorGroup(p, Half(b), 0);
      XorGroup(Half(a), Half(b), p);
    } else {
      XorGroup(Half(a), Half(b), p);
    }
  }

  lemma {:induction false} StepsXor(a: bv32, b: bv32, n: nat)
    ensures Steps(Xor(a, b), n) == Xor(Steps(a, n), Steps(b, n))
  {
    hide Step, Xor;
    if n > 0 {
      StepsXor(a, b, n - 1);
      StepXor(Steps(a, n - 1), Steps(b, n - 1));
    }
  }

  lemma {:induction false} StepsFirst(c: bv32, n: nat)
    ensures Steps(c, n + 1) == Steps(Step(c), n)
  {
    hide Step;
    if n > 0 { StepsFirst(c, n - 1); }
  }

  // ----- the table step is eight shifts -----

  function Rest(w: bv32, n: nat): bv32 {
    if n == 0 then w else Rest(Half(w), n - 1)
  }

  /** Bits still above the low end wait unchanged while the register shifts. */
  lemma FeedLowBit(c: bv32, w: bv32)
    ensures Step(Xor(c, w)) == Xor(Feed(c, Odd(w)), Half(w))
  {
    hide Xor, Odd, Half;
    var u := Unit(Odd(w));
    UnitParts(w);
    StepXor(Xor(c, u), Xor(w, u));
    Exchange(c, u, w, u);
    XorGroup(u, u, 0);
    XorGroup(Xor(c, w), 0, 0);
  }

  lemma {:induction false} FeedLowBits(c: bv32, w: bv32, n: nat)
    ensures Steps(Xor(c, w), n) == Xor(FeedAll(c, LowBits(w, n)), Rest(w, n))
    decreases n
  {
    hide Xor, Odd, Half, Step, Feed;
    if n > 0 {
      StepsFirst(Xor(c, w), n - 1);
      FeedLowBit(c, w);
      FeedLowBits(Feed(c, Odd(w)), Half(w), n - 1);
      assert LowBits(w, n)[1..] == LowBits(Half(w), n - 1);
    }
  }

  lemma RestEight(w: bv32)
    ensures Rest(w, 8) == Upper(w)
  {
    hide Half, Upper;
    EightHalves(w);
    var a := Half(Half(w));
    var b := Half(Half(a));
    var c := Half(Half(b));
    assert Rest(w, 8) == Rest(Half(w), 7) == Rest(a, 6);
    assert Rest(a, 6) == Rest(Half(a), 5) == Rest(b, 4);
    assert Rest(b, 4) == Rest(Half(b), 3) == Rest(c, 2);
    assert Rest(c, 2) == Rest(Half(c), 1) == Half(Half(c));
  }

  lemma EightHalves(w: bv32)
    ensures Half(Half(Half(Half(Half(Half(Half(Half(w)))))))) == Upper(w)
  {}

  /** A byte leaves nothing behind; a register is its lowest byte and the rest. */
  lemma ByteParts(c: bv32, b: bv8)
    ensures Upper(Wide(b)) == 0
    ensures var low := Wide(Index(c)); Index(Xor(c, low)) == 0 && Upper(Xor(c, low)) == Upper(c)
  {}

  /** Shifting eight times moves the upper bytes down and replaces the lowest by its table entry. */
  lemma StepsEight(c: bv32)
    ensures Steps(c, 8) == Xor(Upper(c), Steps(Wide(Index(c)), 8))
  {
    hide Xor, Upper, Index, Wide, Steps;
    var low := Wide(Index(c));
    var high := Xor(c, low);
    ByteParts(c, Index(c));
    assert c == Xor(low, high) by {
      XorGroup(c, low, low);
      XorGroup(c, 0, 0);
      XorGroup(low, high, 0);
    }
    StepsXor(low, high, 8);
    StepsClear(high);
    XorGroup(Steps(low, 8), Upper(c), 0);
  }

  /** With the lowest byte clear nothing is fed back. */
  lemma StepsClear(c: bv32)
    requires Index(c) == 0
    ensures Steps(c, 8) == Upper(c)
  {
    hide Xor, Odd, Half, Upper, Index;
    RestEight(c);
    ClearShifts(c);
    var a := Half(Half(c));
    var b := Half(Half(a));
    var d := Half(Half(b));
    assert Steps(c, 1) == Half(c) && Steps(c, 2) == a;
    assert Steps(c, 3) == Half(a) && Steps(c, 4) == b;
    assert Steps(c, 5) == Half(b) && Steps(c, 6) == d;
    assert Steps(c, 7) == Half(d) && Steps(c, 8) == Half(Half(d));
    EightHalves(c);
  }

  lemma ClearShifts(c: bv32)
    requires Index(c) == 0
    ensures !Odd(c) && !Odd(Half(c)) && !Odd(Half(Half(c))) && !Odd(Half(Half(Half(c))))
    ensures var h := Half(Half(Half(Half(c))));
            !Odd(h) && !Odd(Half(h)) && !Odd(Half(Half(h))) && !Odd(Half(Half(Half(h))))
  {}

  /** One byte through the table is its eight bits through the register, lowest bit first. */
  lemma AbsorbShifts(c: bv32, b: bv8)
    ensures Absorb(c, b) == Steps(Xor(c, Wide(b)), 8) == FeedAll(c, LowBits(Wide(b), 8))
  {
    hide Xor, Upper, Index, Wide, Steps, FeedAll, LowBits;
    StepsEight(Xor(c, Wide(b)));
    ByteParts(c, b);
    UpperXor(c, Wide(b));
    XorGroup(Upper(c), 0, 0);
    FeedLowBits(c, Wide(b), 8);
    RestEight(Wide(b));
    XorGroup(FeedAll(c, LowBits(Wide(b), 8)), 0, 0);
  }

  lemma {:induction false} FeedAllConcat(c: bv32, a: seq<bool>, b: seq<bool>)
    ensures FeedAll(c, a + b) == FeedAll(FeedAll(c, a), b)
    decreases |a|
  {
    hide Feed;
    if a == [] {
      assert a + b == b;
    } else {
      assert (a + b)[0] == a[0] && (a + b)[1..] == a[1..] + b;
      FeedAllConcat(Feed(c, a[0]), a[1..], b);
    }
  }

  /** The table-driven loop is the shift register fed with the bits of the message. */
  lemma {:induction false} AbsorbAllShifts(c: bv32, data: seq<bv8>)
    ensures AbsorbAll(c, data) == FeedAll(c, MessageBits(data))
    decreases |data|
  {
    hide Absorb, FeedAll, LowBits;
    if data == [] {
      assert FeedAll(c, []) == c by { FeedNone(c); }
    } else {
      AbsorbShifts(c, data[0]);
      AbsorbAllShifts(Absorb(c, data[0]), data[1..]);
      FeedAllConcat(c, LowBits(Wide(data[0]), 8), MessageBits(data[1..]));
    }
  }

  lemma FeedNone(c: bv32)
    ensures FeedAll(c, []) == c
  {}

  lemma {:induction false} AbsorbAllConcat(c: bv32, a: seq<bv8>, b: seq<bv8>)
    ensures AbsorbAll(c, a + b) == AbsorbAll(AbsorbAll(c, a), b)
    decreases |a|
  {
    hide Absorb;
    if a == [] {
      assert a + b == b;
    } else {
      assert (a + b)[0] == a[0] && (a + b)[1..] == a[1..] + b;
      AbsorbAllConcat(Absorb(c, a[0]), a[1..], b);
    }
  }

  // ----- what the register detects -----

  lemma {:induction false} RestPlus(w: bv32, m: nat, n: nat)
    ensures Rest(w, m + n) == Rest(Rest(w, m), n)
    decreases m
  {
    hide Half;
    if m > 0 { RestPlus(Half(w), m - 1, n); }
  }

  lemma {:induction false} RestZero(n: nat)
    ensures Rest(0, n) == 0
  {
    if n > 0 { RestZero(n - 1); }
  }

  predicate TopBit(w: bv32) {
    w >= 0x8000_0000
  }

  lemma RestSeven(w: bv32)
    requires Rest(w, 7) == 0
    ensures w < 128
  {
    hide Half;
    var a := Half(Half(w));
    var b := Half(Half(a));
    var c := Half(Half(b));
    assert Rest(w, 7) == Rest(Half(w), 6) == Rest(a, 5);
    assert Rest(a, 5) == Rest(Half(a), 4) == Rest(b, 3);
    assert Rest(b, 3) == Rest(Half(b), 2) == Rest(c, 1) == Half(c);
    SevenHalves(w);
  }

  lemma SevenHalves(w: bv32)
    requires Half(Half(Half(Half(Half(Half(Half(w))))))) == 0
    ensures w < 128
  {}

  lemma TopByte(w: bv32)
    requires Upper(Upper(Upper(w))) < 128
    ensures !TopBit(w)
  {}

  /** A register that 31 shifts to the right clear has no top bit. */
  lemma ClearedBelowTop(w: bv32, n: nat)
    requires n <= 31 && Rest(w, n) == 0
    ensures !TopBit(w)
  {
    hide Rest, Upper, TopBit;
    RestPlus(w, n, 31 - n);
    RestZero(31 - n);
    RestPlus(w, 8, 23);
    RestPlus(Rest(w, 8), 8, 15);
    RestPlus(Rest(Rest(w, 8), 8), 8, 7);
    RestEight(w);
    RestEight(Upper(w));
    RestEight(Upper(Upper(w)));
    RestSeven(Upper(Upper(Upper(w))));
    TopByte(w);
  }

  lemma StepTop(c: bv32)
    ensures Odd(c) <==> TopBit(Step(c))
    ensures !Odd(c) ==> Step(c) == Half(c)
  {}

  lemma HalfUnit(c: bv32, bit: bool)
    ensures Half(Xor(c, Unit(bit))) == Half(c)
  {}

  /** What fewer than 32 further bits can bring to zero is shifted out by then. */
  lemma {:induction false} FeedReachesZero(d: bv32, bits: seq<bool>)
    requires |bits| <= 31 && FeedAll(d, bits) == 0
    ensures Rest(d, |bits|) == 0
    decreases |bits|
  {
    hide Xor, Odd, Half, Step, TopBit;
    if bits != [] {
      var c := Xor(d, Unit(bits[0]));
      FeedReachesZero(Feed(d, bits[0]), bits[1..]);
      ClearedBelowTop(Feed(d, bits[0]), |bits| - 1);
      StepTop(c);
      HalfUnit(d, bits[0]);
    }
  }

  lemma {:induction false} FeedZeros(d: bv32, n: nat)
    requires d != 0
    ensures FeedAll(d, seq(n, _ => false)) != 0
    decreases n
  {
    hide Step, Xor;
    if n > 0 {
      assert seq(n, _ => false)[1..] == seq(n - 1, _ => false);
      StepKeepsNonzero(d);
      FeedZeros(Feed(d, false), n - 1);
    }
  }

  lemma StepKeepsNonzero(d: bv32)
    requires d != 0
    ensures Feed(d, false) != 0
  {}

  lemma FeedZero()
    ensures Feed(0, false) == 0 && TopBit(Feed(0, true))
  {}

  /** A burst of errors within 32 bits leaves a trace in the register. */
  lemma {:induction false} BurstShows(bits: seq<bool>)
    requires |bits| <= 32 && true in bits
    ensures FeedAll(0, bits) != 0
    decreases |bits|
  {
    hide Feed, TopBit;
    FeedZero();
    if bits[0] {
      if FeedAll(Feed(0, true), bits[1..]) == 0 {
        FeedReachesZero(Feed(0, true), bits[1..]);
        ClearedBelowTop(Feed(0, true), |bits| - 1);
      }
    } else {
      BurstShows(bits[1..]);
    }
  }

  function Difference(a: seq<bool>, b: seq<bool>): (d: seq<bool>)
    requires |a| == |b|
    ensures |d| == |a|
  {
    seq(|a|, i requires 0 <= i < |a| => a[i] != b[i])
  }

  /** The registers after two messages differ by the register after their difference. */
  lemma {:induction false} FeedDifference(c: bv32, d: bv32, a: seq<bool>, b: seq<bool>)
    requires |a| == |b|
    ensures Xor(FeedAll(c, a), FeedAll(d, b)) == FeedAll(Xor(c, d), Difference(a, b))
    decreases |a|
  {
    hide Feed, Xor;
    if a != [] {
      FeedDifference(Feed(c, a[0]), Feed(d, b[0]), a[1..], b[1..]);
      FeedXor(c, d, a[0], b[0]);
      assert Difference(a, b)[1..] == Difference(a[1..], b[1..]);
    }
  }

  lemma FeedXor(c: bv32, d: bv32, a: bool, b: bool)
    ensures Xor(Feed(c, a), Feed(d, b)) == Feed(Xor(c, d), a != b)
  {
    hide Xor, Step;
    StepXor(Xor(c, Unit(a)), Xor(d, Unit(b)));
    Exchange(c, Unit(a), d, Unit(b));
    UnitXor(a, b);
  }

  lemma UnitXor(a: bool, b: bool)
    ensures Xor(Unit(a), Unit(b)) == Unit(a != b)
  {}

  lemma XorZero(a: bv32, b: bv32)
    ensures Xor(a, b) == 0 <==> a == b
  {}

  /** Two streams of equal length that differ, and only within 32 consecutive bits, leave the
      register in different states, whatever state it started in. */
  lemma BurstDetected(c: bv32, a: seq<bool>, b: seq<bool>, from: nat, to: nat)
    requires |a| == |b| && from <= to <= |a| && to - from <= 32
    requires a[..from] == b[..from] && a[to..] == b[to..] && a != b
    ensures FeedAll(c, a) != FeedAll(c, b)
  {
    hide Feed, Xor, FeedAll;
    var d := Difference(a, b);
    FeedDifference(c, c, a, b);
    XorZero(c, c);
    XorZero(FeedAll(c, a), FeedAll(c, b));
    var burst := d[from..to];
    assert d == seq(from, _ => false) + burst + seq(|a| - to, _ => false) by {
      forall i | 0 <= i < |a| && !(from <= i < to) ensures !d[i] {
        if i < from { assert a[..from][i] == b[..from][i]; } else { assert a[to..][i - to] == b[to..][i - to]; }
      }
    }
    assert true in burst by {
      var i :| 0 <= i < |a| && a[i] != b[i];
      assert d[i];
      assert from <= i < to && burst[i - from];
    }
    FeedAllConcat(0, seq(from, _ => false) + burst, seq(|a| - to, _ => false));
    FeedAllConcat(0, seq(from, _ => false), burst);
    FeedZeroZeros(from);
    BurstShows(burst);
    FeedZeros(FeedAll(0, burst), |a| - to);
  }

  lemma {:induction false} FeedZeroZeros(n: nat)
    ensures FeedAll(0, seq(n, _ => false)) == 0
  {
    hide Feed;
    FeedZero();
    if n > 0 {
      assert seq(n, _ => false)[1..] == seq(n - 1, _ => false);
      FeedZeroZeros(n - 1);
    }
  }

  /** 32 is the limit: the polynomial itself, a burst of 33 bits, goes unnoticed. */
  lemma PolynomialUndetected()
    ensures var burst := [true] + LowBits(POLYNOMIAL, 32);
            true in burst && |burst| == 33 && FeedAll(0, burst) == 0
  {
    hide Xor, Step, LowBits, Rest, Unit;
    var bits := LowBits(POLYNOMIAL, 32);
    var burst := [true] + bits;
    assert burst[0] && burst[1..] == bits;
    FirstError();
    FeedLowBits(POLYNOMIAL, POLYNOMIAL, 32);
    XorZero(POLYNOMIAL, POLYNOMIAL);
    StepsZero(32);
    WordGone(POLYNOMIAL);
    XorGroup(FeedAll(POLYNOMIAL, bits), 0, 0);
  }

  lemma FirstError()
    ensures Feed(0, true) == POLYNOMIAL
  {}

  lemma {:induction false} StepsZero(n: nat)
    ensures Steps(0, n) == 0
  {
    if n > 0 { StepsZero(n - 1); }
  }

  lemma WordGone(w: bv32)
    ensures Rest(w, 32) == 0
  {
    hide Rest, Upper;
    RestPlus(w, 8, 24);
    RestPlus(Rest(w, 8), 8, 16);
    RestPlus(Rest(Rest(w, 8), 8), 8, 8);
    RestEight(w);
    RestEight(Upper(w));
    RestEight(Upper(Upper(w)));
    RestEight(Upper(Upper(Upper(w))));
    FourUppers(w);
  }

  lemma FourUppers(w: bv32)
    ensures Upper(Upper(Upper(Upper(w)))) == 0
  {}

  // ----- messages of bytes -----

  lemma {:induction false} MessageBitsConcat(a: seq<bv8>, b: seq<bv8>)
    ensures MessageBits(a + b) == MessageBits(a) + MessageBits(b)
    decreases |a|
  {
    hide LowBits, Wide;
    if a == [] {
      assert a + b == b;
    } else {
      assert (a + b)[0] == a[0] && (a + b)[1..] == a[1..] + b;
      MessageBitsConcat(a[1..], b);
    }
  }

  lemma HalfOdd(w: bv32, v: bv32)
    requires Half(w) == Half(v) && Odd(w) == Odd(v)
    ensures w == v
  {}

  lemma {:induction false} LowBitsInjective(w: bv32, v: bv32, n: nat)
    requires LowBits(w, n) == LowBits(v, n) && Rest(w, n) == Rest(v, n)
    ensures w == v
    decreases n
  {
    hide Half, Odd;
    if n > 0 {
      assert LowBits(w, n)[0] == Odd(w) && LowBits(v, n)[0] == Odd(v);
      assert LowBits(w, n)[1..] == LowBits(Half(w), n - 1) && LowBits(v, n)[1..] == LowBits(Half(v), n - 1);
      LowBitsInjective(Half(w), Half(v), n - 1);
      HalfOdd(w, v);
    }
  }

  lemma WideInjective(a: bv8, b: bv8)
    requires Wide(a) == Wide(b)
    ensures a == b
  {}

  lemma {:induction false} MessageBitsInjective(a: seq<bv8>, b: seq<bv8>)
    requires |a| == |b| && MessageBits(a) == MessageBits(b)
    ensures a == b
    decreases |a|
  {
    hide LowBits, Wide, Rest;
    if a != [] {
      var (x, y) := (LowBits(Wide(a[0]), 8), LowBits(Wide(b[0]), 8));
      assert x == MessageBits(a)[..8] == MessageBits(b)[..8] == y;
      assert MessageBits(a[1..]) == MessageBits(a)[8..] == MessageBits(b)[8..] == MessageBits(b[1..]);
      MessageBitsInjective(a[1..], b[1..]);
      RestEight(Wide(a[0]));
      RestEight(Wide(b[0]));
      ByteParts(0, a[0]);
      ByteParts(0, b[0]);
      LowBitsInjective(Wide(a[0]), Wide(b[0]), 8);
      WideInjective(a[0], b[0]);
    }
  }

  // ----- the digest -----

  function Byte(w: bv32, shift: bv8): bv8
    requires shift <= 24
  {
    ((w >> shift) & 0xFF) as bv8
  }

  /** The register inverted, its highest byte first. */
  function Digest(c: bv32): (d: seq<bv8>)
    ensures |d| == 4
  {
    var w := Xor(c, ONES);
    [Byte(w, 24), Byte(w, 16), Byte(w, 8), Byte(w, 0)]
  }

  function Hash(data: seq<bv8>): (d: seq<bv8>)
    ensures |d| == 4
  {
    Digest(AbsorbAll(ONES, data))
  }

  lemma WordBytes(w: bv32, v: bv32)
    requires Byte(w, 24) == Byte(v, 24) && Byte(w, 16) == Byte(v, 16) && Byte(w, 8) == Byte(v, 8) && Byte(w, 0) == Byte(v, 0)
    ensures w == v
  {}

  lemma DigestInjective(c: bv32, d: bv32)
    requires Digest(c) == Digest(d)
    ensures c == d
  {
    hide Xor, Byte;
    var (w, v) := (Xor(c, ONES), Xor(d, ONES));
    assert Digest(c)[0] == Digest(d)[0] && Digest(c)[1] == Digest(d)[1];
    assert Digest(c)[2] == Digest(d)[2] && Digest(c)[3] == Digest(d)[3];
    WordBytes(w, v);
    XorCancel(c, d, ONES);
  }

  lemma XorCancel(a: bv32, b: bv32, c: bv32)
    requires Xor(a, c) == Xor(b, c)
    ensures a == b
  {
    hide Xor;
    XorGroup(a, c, c);
    XorGroup(b, c, c);
    XorGroup(c, c, 0);
    XorGroup(a, 0, 0);
    XorGroup(b, 0, 0);
  }

  /** Messages that differ, and only in a run of at most four bytes, have different digests. */
  lemma ByteBurstDetected(before: seq<bv8>, a: seq<bv8>, b: seq<bv8>, after: seq<bv8>)
    requires |a| == |b| <= 4 && a != b
    ensures Hash(before + a + after) != Hash(before + b + after)
  {
    hide MessageBits, FeedAll, AbsorbAll, Digest;
    var (x, y) := (MessageBits(before + a + after), MessageBits(before + b + after));
    MessageBitsConcat(before + a, after);
    MessageBitsConcat(before, a);
    MessageBitsConcat(before + b, after);
    MessageBitsConcat(before, b);
    var (from, to) := (8 * |before|, 8 * |before| + 8 * |a|);
    assert x[from..to] == MessageBits(a) && y[from..to] == MessageBits(b);
    if x == y { MessageBitsInjective(a, b); }
    BurstDetected(ONES, x, y, from, to);
    AbsorbAllShifts(ONES, before + a + after);
    AbsorbAllShifts(ONES, before + b + after);
    if Hash(before + a + after) == Hash(before + b + after) {
      DigestInjective(AbsorbAll(ONES, before + a + after), AbsorbAll(ONES, before + b + after));
    }
  }

  // ----- the digest appended to its message -----

  lemma IndexXor(c: bv32, w: bv32)
    ensures Index(Xor(c, Wide(Index(w)))) == Index(Xor(c, w))
  {}

  lemma AbsorbWordByte(c: bv32, w: bv32)
    ensures Steps(Xor(c, w), 8) == Xor(Absorb(c, Index(w)), Upper(w))
  {
    hide Xor, Upper, Index, Wide, Steps;
    StepsEight(Xor(c, w));
    IndexXor(c, w);
    UpperXor(c, w);
    var t := Steps(Wide(Index(Xor(c, w))), 8);
    XorGroup(Upper(c), Upper(w), t);
    XorGroup(Upper(w), t, 0);
    XorGroup(Upper(c), t, Upper(w));
  }

  lemma {:induction false} StepsPlus(c: bv32, m: nat, n: nat)
    ensures Steps(c, m + n) == Steps(Steps(c, m), n)
  {
    hide Step;
    if n > 0 { StepsPlus(c, m, n - 1); }
  }

  /** The bytes of a word, lowest first. */
  function LittleEndian(w: bv32): seq<bv8> {
    [Index(w), Index(Upper(w)), Index(Upper(Upper(w))), Index(Upper(Upper(Upper(w))))]
  }

  lemma AbsorbWord(c: bv32, w: bv32)
    ensures AbsorbAll(c, LittleEndian(w)) == Steps(Xor(c, w), 32)
  {
    hide Xor, Upper, Index, Wide, Steps, Absorb;
    var w1 := Upper(w); var w2 := Upper(w1); var w3 := Upper(w2);
    var c1 := Absorb(c, Index(w)); var c2 := Absorb(c1, Index(w1));
    var c3 := Absorb(c2, Index(w2)); var c4 := Absorb(c3, Index(w3));
    AbsorbWordByte(c, w); AbsorbWordByte(c1, w1); AbsorbWordByte(c2, w2); AbsorbWordByte(c3, w3);
    FourUppers(w);
    XorGroup(c4, 0, 0);
    StepsPlus(Xor(c, w), 8, 24); StepsPlus(Xor(c1, w1), 8, 16); StepsPlus(Xor(c2, w2), 8, 8);
    AbsorbFour(c, LittleEndian(w));
  }

  lemma AbsorbFour(c: bv32, d: seq<bv8>)
    requires |d| == 4
    ensures AbsorbAll(c, d) == Absorb(Absorb(Absorb(Absorb(c, d[0]), d[1]), d[2]), d[3])
  {
    hide Absorb;
    var c2 := Absorb(Absorb(c, d[0]), d[1]);
    assert d[1..][0] == d[1] && d[1..][1..] == d[2..] && d[2..][1..] == d[3..];
    assert AbsorbAll(c, d) == AbsorbAll(Absorb(c, d[0]), d[1..]) == AbsorbAll(c2, d[2..]);
    assert AbsorbAll(c2, d[2..]) == AbsorbAll(Absorb(c2, d[2]), d[3..]);
    assert d[3..] == [d[3]] && d[3..][1..] == [];
    assert AbsorbAll(Absorb(c2, d[2]), d[3..]) == Absorb(Absorb(c2, d[2]), d[3]);
  }

  function Reversed(d: seq<bv8>): seq<bv8>
    requires |d| == 4
  {
    [d[3], d[2], d[1], d[0]]
  }

  lemma DigestReversed(c: bv32)
    ensures Reversed(Digest(c)) == LittleEndian(Xor(c, ONES))
  {}

  /** Every message followed by its digest in reverse order has the same digest. */
  lemma Residue(data: seq<bv8>)
    ensures Hash(data + Reversed(Hash(data))) == Digest(0xDEBB20E3)
  {
    hide AbsorbAll, Digest, Xor, Steps, LittleEndian, Reversed;
    var c := AbsorbAll(ONES, data);
    AbsorbAllConcat(ONES, data, Reversed(Hash(data)));
    DigestReversed(c);
    AbsorbWord(c, Xor(c, ONES));
    XorGroup(c, c, ONES);
    XorGroup(0, ONES, 0);
    XorGroup(ONES, 0, 0);
    StepsOfOnes();
  }

  lemma StepsOfOnes()
    ensures Steps(ONES, 32) == 0xDEBB20E3
  {
    hide Step;
    StepsPlus(ONES, 8, 24);
    StepsPlus(0x2DFD1072, 8, 16);
    StepsPlus(0xBE26ED00, 8, 8);
    StepsOfOnes1();
    StepsOfOnes2();
    StepsOfOnes3();
    StepsOfOnes4();
  }

  lemma StepsOfOnes1()
    ensures Steps(ONES, 8) == 0x2DFD1072
  {}

  lemma StepsOfOnes2()
    ensures Steps(0x2DFD1072, 8) == 0xBE26ED00
  {}

  lemma StepsOfOnes3()
    ensures Steps(0xBE26ED00, 8) == 0xBE26ED
  {}

  lemma StepsOfOnes4()
    ensures Steps(0xBE26ED, 8) == 0xDEBB20E3
  {}

  /** The published digest of "abc". */
  lemma DigestOfAbc()
    ensures Hash([0x61, 0x62, 0x63]) == [0x35, 0x24, 0x41, 0xC2]
  {
    hide Absorb, Digest;
    var d: seq<bv8> := [0x61, 0x62, 0x63];
    AbsorbA();
    AbsorbB();
    AbsorbC();
    DigestC();
    assert d[1..] == [0x62, 0x63] && d[1..][1..] == [0x63] && d[1..][1..][1..] == [];
  }

  lemma AbsorbA()
    ensures Absorb(ONES, 0x61) == 0x174841BC
  {}

  lemma AbsorbB()
    ensures Absorb(0x174841BC, 0x62) == 0x617CB792
  {}

  lemma AbsorbC()
    ensures Absorb(0x617CB792, 0x63) == 0xCADBBE3D
  {}

  lemma DigestC()
    ensures Digest(0xCADBBE3D) == [0x35, 0x24, 0x41, 0xC2]
  {}

  // ----- the program -----

  /** Every entry is its index shifted eight times. */
  ghost predicate IsTable(t: seq<bv32>) {
    |t| == 256 && forall b: bv8 :: t[b as int] == Steps(Wide(b), 8)
  }

  lemma SameByte(b: bv8, i: bv32)
    requires b as int == i as int
    ensures Wide(b) == i
  {}

  lemma IntSuccessor(i: bv32)
    requires i < 256
    ensures (i + 1) as int == i as int + 1 <= 256
  {}

  lemma StepBranches(c: bv32)
    ensures Step(c) == if c & 1 == 1 then (c >> 1) ^ POLYNOMIAL else c >> 1
  {}

  method BuildTable() returns (t: array<bv32>)
    ensures fresh(t) && IsTable(t[..])
  {
    hide Step;
    t := new bv32[256];
    var i: bv32 := 0;
    while i < 256
      invariant i <= 256 && i as int <= 256
      invariant forall b: bv8 :: (b as int) < (i as int) ==> t[b as int] == Steps(Wide(b), 8)
      decreases 256 - i as int
    {
      hide Steps, Wide;
      IntSuccessor(i);
      t[i as int] := BuildEntry(i);
      forall b: bv8 | b as int == i as int ensures Wide(b) == i {
        SameByte(b, i);
      }
      i := i + 1;
    }
  }

  method BuildEntry(i: bv32) returns (c: bv32)
    ensures c == Steps(i, 8)
  {
    hide Step;
    c := i;
    var j := 0;
    while j < 8
      invariant j <= 8 && c == Steps(i, j)
    {
      StepBranches(c);
      if c & 1 == 1 {
        c := (c >> 1) ^ POLYNOMIAL;
      } else {
        c := c >> 1;
      }
      j := j + 1;
    }
  }

  /** The checksum of the bytes seen so far. */
  class Stream {
    const table: array<bv32>
    var crc: bv32

    ghost predicate Valid()
      reads table
    {
      IsTable(table[..])
    }

    constructor ()
      ensures Valid() && fresh(table) && crc == ONES
    {
      var t := BuildTable();
      table := t;
      crc := ONES;
    }

    method Update(chunk: seq<bv8>)
      requires Valid()
      modifies this
      ensures Valid() && crc == AbsorbAll(old(crc), chunk)
    {
      hide Xor, Upper, Index, Wide, Steps;
      var i := 0;
      while i < |chunk|
        invariant i <= |chunk|
        invariant AbsorbAll(old(crc), chunk) == AbsorbAll(crc, chunk[i..])
      {
        var index := Index(Xor(crc, Wide(chunk[i])));
        crc := Xor(Upper(crc), table[index as int]);
        assert chunk[i..][0] == chunk[i] && chunk[i..][1..] == chunk[i + 1..];
        i := i + 1;
      }
      assert chunk[i..] == [];
    }

    method End() returns (digest: seq<bv8>)
      ensures digest == Digest(crc)
    {
      var final := crc ^ ONES;
      digest := [Byte(final, 24), Byte(final, 16), Byte(final, 8), Byte(final, 0)];
    }
  }

  /** The digest of a whole message. */
  method HashOneShot(data: seq<bv8>) returns (digest: seq<bv8>)
    ensures digest == Hash(data)
  {
    var hasher := new Stream();
    hasher.Update(data);
    digest := hasher.End();
  }

  /** The digest of an input read in blocks of `size`, the last one short. */
  method HashStream(input: seq<bv8>, size: nat) returns (digest: seq<bv8>)
    requires size > 0
    ensures digest == Hash(input)
  {
    hide Absorb, AbsorbAll, Digest, IsTable;
    AbsorbNone(ONES);
    var hasher := new Stream();
    var pos, good := 0, true;
    while good
      invariant pos <= |input| && (!good ==> pos == |input|)
      invariant hasher.Valid() && fresh(hasher) && hasher.crc == AbsorbAll(ONES, input[..pos])
      decreases |input| - pos, good
    {
      var count := if |input| - pos < size then |input| - pos else size;
      var buffer := input[pos..pos + count];
      good := count == size;
      if buffer != [] {
        hasher.Update(buffer);
        AbsorbAllConcat(ONES, input[..pos], buffer);
        assert input[..pos + count] == input[..pos] + buffer;
      }
      pos := pos + count;
    }
    assert input[..pos] == input;
    digest := hasher.End();
  }
}
