/** Byte arrays shifted and rotated by single bits. */
module BitShift {
  import opened Arithmetic

  function Or(a: bv8, b: bv8): bv8 {
    a | b
  }

  function Up(b: bv8): bv8 {
    b << 1
  }

  function Down(b: bv8): bv8 {
    b >> 1
  }

  /** A byte shifted to the left, cut off at eight bits. */
  function ShiftUp(b: bv8, n: nat): bv8
    decreases n
  {
    if n == 0 then b else ShiftUp(Up(b), n - 1)
  }

  function ShiftDown(b: bv8, n: nat): bv8
    decreases n
  {
    if n == 0 then b else ShiftDown(Down(b), n - 1)
  }

  function Mask(j: nat): bv8
    requires j < 8
  {
    match j
    case 0 => 0x80
    case 1 => 0x40
    case 2 => 0x20
    case 3 => 0x10
    case 4 => 0x08
    case 5 => 0x04
    case 6 => 0x02
    case _ => 0x01
  }

  /** Bit j of a byte, the highest one first. */
  predicate Bit(b: bv8, j: nat)
    requires j < 8
  {
    b & Mask(j) != 0
  }

  /** Bit p of an array, from the highest bit of the first byte on. */
  predicate BitAt(a: seq<bv8>, p: nat)
    requires p < 8 * |a|
  {
    Bit(a[p / 8], p % 8)
  }

  // ----- bits of a byte -----

  lemma BitUp(b: bv8, j: nat)
    requires j < 8
    ensures Bit(Up(b), j) == (j < 7 && Bit(b, j + 1))
  {}

  lemma BitDown(b: bv8, j: nat)
    requires j < 8
    ensures Bit(Down(b), j) == (j > 0 && Bit(b, j - 1))
  {}

  lemma OrMask(a: bv8, b: bv8, m: bv8)
    ensures ((a | b) & m != 0) == (a & m != 0 || b & m != 0)
  {}

  lemma BitOr(a: bv8, b: bv8, j: nat)
    requires j < 8
    ensures Bit(Or(a, b), j) == (Bit(a, j) || Bit(b, j))
  {
    hide Mask;
    OrMask(a, b, Mask(j));
  }

  lemma BitZero(j: nat)
    requires j < 8
    ensures !Bit(0, j)
  {}

  lemma OrZero(b: bv8)
    ensures Or(b, 0) == b == Or(0, b)
  {}

  lemma {:induction false} BitShiftUp(b: bv8, n: nat, j: nat)
    requires j < 8
    ensures Bit(ShiftUp(b, n), j) == (j + n < 8 && Bit(b, j + n))
    decreases n
  {
    hide Bit, Up;
    if n > 0 {
      BitShiftUp(Up(b), n - 1, j);
      if j + n - 1 < 8 { BitUp(b, j + n - 1); }
    }
  }

  lemma {:induction false} BitShiftDown(b: bv8, n: nat, j: nat)
    requires j < 8
    ensures Bit(ShiftDown(b, n), j) == (j >= n && Bit(b, j - n))
    decreases n
  {
    hide Bit, Down;
    if n > 0 {
      BitShiftDown(Down(b), n - 1, j);
      if j >= n - 1 { BitDown(b, j - (n - 1)); }
    }
  }

  // ----- shifting to the left -----

  /** Byte m of the result: the high part from one byte, the low part from the next one, as far as
      the bytes below `done` have been spread. */
  function LeftByte(a: seq<bv8>, bytes: nat, bits: nat, m: nat, done: nat): bv8
    requires bits <= 8 && done <= |a|
  {
    Or(if m + bytes < done then ShiftUp(a[m + bytes], bits) else 0,
       if m + bytes + 1 < done then ShiftDown(a[m + bytes + 1], 8 - bits) else 0)
  }

  lemma LeftByteBit(a: seq<bv8>, bytes: nat, bits: nat, m: nat, j: nat)
    requires 0 < bits < 8 && m < |a| && j < 8
    ensures var q := 8 * m + j + (8 * bytes + bits);
            Bit(LeftByte(a, bytes, bits, m, |a|), j) == (q < 8 * |a| && BitAt(a, q))
  {
    hide Bit, Or, ShiftUp, ShiftDown;
    var q := 8 * m + j + (8 * bytes + bits);
    var first := if m + bytes < |a| then ShiftUp(a[m + bytes], bits) else 0;
    var second := if m + bytes + 1 < |a| then ShiftDown(a[m + bytes + 1], 8 - bits) else 0;
    BitOr(first, second, j);
    BitZero(j);
    if m + bytes < |a| { BitShiftUp(a[m + bytes], bits, j); }
    if m + bytes + 1 < |a| { BitShiftDown(a[m + bytes + 1], 8 - bits, j); }
    if j + bits < 8 {
      Position(q, m + bytes, j + bits);
    } else {
      Position(q, m + bytes + 1, j + bits - 8);
    }
  }

  lemma Position(q: int, m: int, j: int)
    requires q == 8 * m + j && 0 <= j < 8
    ensures q / 8 == m && q % 8 == j
  {}

  /** Every bit moves k places to the left; zeros come in from the right. */
  ghost predicate IsShiftedLeft(a: seq<bv8>, r: seq<bv8>, k: nat) {
    |r| == |a| && forall p :: 0 <= p < 8 * |a| ==> BitAt(r, p) == (p + k < 8 * |a| && BitAt(a, p + k))
  }

  lemma LeftBytes(a: seq<bv8>, r: seq<bv8>, k: nat)
    requires |r| == |a| && k % 8 != 0
    requires forall m :: 0 <= m < |a| ==> r[m] == LeftByte(a, k / 8, k % 8, m, |a|)
    ensures IsShiftedLeft(a, r, k)
  {
    hide LeftByte, Bit;
    forall p | 0 <= p < 8 * |a| ensures BitAt(r, p) == (p + k < 8 * |a| && BitAt(a, p + k)) {
      LeftByteBit(a, k / 8, k % 8, p / 8, p % 8);
    }
  }

  lemma LeftStep(a: seq<bv8>, bytes: nat, bits: nat, m: nat, i: nat)
    requires bits <= 8 && i < |a|
    ensures var (up, down) := (ShiftUp(a[i], bits), ShiftDown(a[i], 8 - bits));
            var before := LeftByte(a, bytes, bits, m, i);
            var middle := if m + bytes == i then Or(before, up) else before;
            LeftByte(a, bytes, bits, m, i + 1) == if m + bytes + 1 == i then Or(middle, down) else middle
  {
    hide Or, ShiftUp, ShiftDown;
    OrZero(ShiftUp(a[i], bits));
    OrZero(0);
    if i > 0 { OrZero(ShiftUp(a[i - 1], bits)); }
  }

  /** `bitShiftLeft`; for k = 0 the array itself stands for its copy. */
  method BitShiftLeft(a: array<bv8>, k: nat) returns (r: array<bv8>)
    ensures IsShiftedLeft(a[..], r[..], k)
  {
    hide Or, ShiftUp, ShiftDown, Bit, LeftByte, RightByte;
    if k == 0 {
      return a;
    }
    var byteShift, bitShift := k / 8, k % 8;
    r := new bv8[a.Length](_ => 0);
    if bitShift == 0 {
      forall m | 0 <= m < a.Length - byteShift {
        r[m] := a[m + byteShift];
      }
      WholeLeft(a[..], r[..], k);
      return;
    }
    var i := 0;
    NothingSpread(a[..], byteShift, bitShift);
    while i < a.Length
      invariant i <= a.Length
      invariant forall m :: 0 <= m < a.Length ==> r[m] == LeftByte(a[..], byteShift, bitShift, m, i)
    {
      forall m | 0 <= m < a.Length {
        LeftStep(a[..], byteShift, bitShift, m, i);
      }
      if i >= byteShift {
        r[i - byteShift] := Or(r[i - byteShift], ShiftUp(a[i], bitShift));
      }
      if i >= byteShift + 1 {
        r[i - byteShift - 1] := Or(r[i - byteShift - 1], ShiftDown(a[i], 8 - bitShift));
      }
      i := i + 1;
    }
    LeftBytes(a[..], r[..], k);
  }

  lemma WholeLeft(a: seq<bv8>, r: seq<bv8>, k: nat)
    requires |r| == |a| && k % 8 == 0
    requires forall m :: 0 <= m < |a| ==> r[m] == if m + k / 8 < |a| then a[m + k / 8] else 0
    ensures IsShiftedLeft(a, r, k)
  {
    hide Bit;
    forall p | 0 <= p < 8 * |a| ensures BitAt(r, p) == (p + k < 8 * |a| && BitAt(a, p + k)) {
      Position(p + k, p / 8 + k / 8, p % 8);
      BitZero(p % 8);
    }
  }

  // ----- shifting to the right -----

  function RightByte(a: seq<bv8>, bytes: nat, bits: nat, m: nat, done: nat): bv8
    requires bits <= 8 && done <= |a|
  {
    Or(if bytes <= m < bytes + done then ShiftDown(a[m - bytes], bits) else 0,
       if bytes + 1 <= m < bytes + 1 + done then ShiftUp(a[m - bytes - 1], 8 - bits) else 0)
  }

  lemma RightByteBit(a: seq<bv8>, bytes: nat, bits: nat, m: nat, j: nat)
    requires 0 < bits < 8 && m < |a| && j < 8
    ensures var q := 8 * m + j - (8 * bytes + bits);
            Bit(RightByte(a, bytes, bits, m, |a|), j) == (q >= 0 && BitAt(a, q))
  {
    hide Bit, Or, ShiftUp, ShiftDown;
    var q := 8 * m + j - (8 * bytes + bits);
    var first := if bytes <= m then ShiftDown(a[m - bytes], bits) else 0;
    var second := if bytes + 1 <= m then ShiftUp(a[m - bytes - 1], 8 - bits) else 0;
    BitOr(first, second, j);
    BitZero(j);
    if bytes <= m { BitShiftDown(a[m - bytes], bits, j); }
    if bytes + 1 <= m { BitShiftUp(a[m - bytes - 1], 8 - bits, j); }
    if j >= bits {
      Position(q, m - bytes, j - bits);
    } else {
      Position(q, m - bytes - 1, j - bits + 8);
    }
  }

  /** Every bit moves k places to the right; zeros come in from the left. */
  ghost predicate IsShiftedRight(a: seq<bv8>, r: seq<bv8>, k: nat) {
    |r| == |a| && forall p :: 0 <= p < 8 * |a| ==> BitAt(r, p) == (p >= k && BitAt(a, p - k))
  }

  lemma RightBytes(a: seq<bv8>, r: seq<bv8>, k: nat)
    requires |r| == |a| && k % 8 != 0
    requires forall m :: 0 <= m < |a| ==> r[m] == RightByte(a, k / 8, k % 8, m, |a|)
    ensures IsShiftedRight(a, r, k)
  {
    hide RightByte, Bit;
    forall p | 0 <= p < 8 * |a| ensures BitAt(r, p) == (p >= k && BitAt(a, p - k)) {
      RightByteBit(a, k / 8, k % 8, p / 8, p % 8);
    }
  }

  lemma RightStep(a: seq<bv8>, bytes: nat, bits: nat, m: nat, i: nat)
    requires bits <= 8 && i < |a|
    ensures var (down, up) := (ShiftDown(a[i], bits), ShiftUp(a[i], 8 - bits));
            var before := RightByte(a, bytes, bits, m, i);
            var middle := if m == i + bytes then Or(before, down) else before;
            RightByte(a, bytes, bits, m, i + 1) == if m == i + bytes + 1 then Or(middle, up) else middle
  {
    hide Or, ShiftUp, ShiftDown;
    OrZero(ShiftDown(a[i], bits));
    OrZero(ShiftUp(a[i], 8 - bits));
    OrZero(0);
    if i > 0 {
      OrZero(ShiftUp(a[i - 1], 8 - bits));
      OrSwap(ShiftUp(a[i - 1], 8 - bits), ShiftDown(a[i], bits));
    }
    if bytes <= m < bytes + i { OrZero(ShiftDown(a[m - bytes], bits)); }
  }

  method BitShiftRight(a: array<bv8>, k: nat) returns (r: array<bv8>)
    ensures IsShiftedRight(a[..], r[..], k)
  {
    hide Or, ShiftUp, ShiftDown, Bit, LeftByte, RightByte;
    if k == 0 {
      return a;
    }
    var byteShift, bitShift := k / 8, k % 8;
    r := new bv8[a.Length](_ => 0);
    if bitShift == 0 {
      forall m | byteShift <= m < a.Length {
        r[m] := a[m - byteShift];
      }
      WholeRight(a[..], r[..], k);
      return;
    }
    var i := 0;
    NothingSpread(a[..], byteShift, bitShift);
    while i < a.Length
      invariant i <= a.Length
      invariant forall m :: 0 <= m < a.Length ==> r[m] == RightByte(a[..], byteShift, bitShift, m, i)
    {
      forall m | 0 <= m < a.Length {
        RightStep(a[..], byteShift, bitShift, m, i);
      }
      if i + byteShift < a.Length {
        r[i + byteShift] := Or(r[i + byteShift], ShiftDown(a[i], bitShift));
      }
      if i + byteShift + 1 < a.Length {
        r[i + byteShift + 1] := Or(r[i + byteShift + 1], ShiftUp(a[i], 8 - bitShift));
      }
      i := i + 1;
    }
    RightBytes(a[..], r[..], k);
  }

  lemma OrSwap(a: bv8, b: bv8)
    ensures Or(a, b) == Or(b, a)
  {}

  lemma WholeRight(a: seq<bv8>, r: seq<bv8>, k: nat)
    requires |r| == |a| && k % 8 == 0
    requires forall m :: 0 <= m < |a| ==> r[m] == if m >= k / 8 then a[m - k / 8] else 0
    ensures IsShiftedRight(a, r, k)
  {
    hide Bit;
    forall p | 0 <= p < 8 * |a| ensures BitAt(r, p) == (p >= k && BitAt(a, p - k)) {
      Position(p - k, p / 8 - k / 8, p % 8);
      BitZero(p % 8);
    }
  }

  lemma NothingSpread(a: seq<bv8>, bytes: nat, bits: nat)
    requires bits <= 8
    ensures forall m :: 0 <= m < |a| ==> LeftByte(a, bytes, bits, m, 0) == RightByte(a, bytes, bits, m, 0) == 0
  {
    hide Or, ShiftUp, ShiftDown;
    OrZero(0);
  }

  // ----- rotation to the right -----

  /** Byte m of a rotation to the right, as far as the bytes below `done` have been spread. */
  function TurnedByte(a: seq<bv8>, bytes: nat, bits: nat, m: nat, done: nat): bv8
    requires bits < 8 && done <= |a| && bytes < |a| && m < |a|
  {
    var (f, g) := ((m + |a| - bytes) % |a|, (m + |a| - bytes - 1) % |a|);
    Or(if f < done then ShiftDown(a[f], bits) else 0, if bits > 0 && g < done then ShiftUp(a[g], 8 - bits) else 0)
  }

  /** Byte i goes to byte m, and spills into the one after it. */
  lemma Turn(m: nat, bytes: nat, i: nat, n: nat)
    requires m < n && bytes < n && i < n
    ensures (m + n - bytes) % n == i <==> (i + bytes) % n == m
    ensures (m + n - bytes - 1) % n == i <==> ((i + bytes) % n + 1) % n == m
  {
    ModSmall(m + n - bytes, n);
    ModSmall(i + bytes, n);
    ModSmall(m + n - bytes - 1, n);
    ModSmall((i + bytes) % n + 1, n);
  }

  lemma TurnedStep(a: seq<bv8>, bytes: nat, bits: nat, m: nat, i: nat)
    requires bits < 8 && i < |a| && bytes < |a| && m < |a|
    ensures var (u, down, up) := ((i + bytes) % |a|, ShiftDown(a[i], bits), ShiftUp(a[i], 8 - bits));
            var v := (u + 1) % |a|;
            var before := TurnedByte(a, bytes, bits, m, i);
            var middle := if m == u then Or(before, down) else before;
            TurnedByte(a, bytes, bits, m, i + 1) == if bits > 0 && m == v then Or(middle, up) else middle
  {
    hide Or, ShiftUp, ShiftDown;
    Turn(m, bytes, i, |a|);
    var (f, g) := ((m + |a| - bytes) % |a|, (m + |a| - bytes - 1) % |a|);
    var (down, up) := (ShiftDown(a[i], bits), ShiftUp(a[i], 8 - bits));
    OrZero(down);
    OrZero(up);
    OrZero(0);
    if g < i { OrZero(ShiftUp(a[g], 8 - bits)); OrSwap(ShiftUp(a[g], 8 - bits), down); }
    if f < i { OrZero(ShiftDown(a[f], bits)); }
  }

  /** Bit p goes to place p + k, counted around the end. */
  ghost predicate RotatedAt(a: seq<bv8>, r: seq<bv8>, k: nat, p: nat)
    requires |r| == |a| && p < 8 * |a|
  {
    BitAt(r, (p + k) % (8 * |a|)) == BitAt(a, p)
  }

  ghost predicate IsRotatedRight(a: seq<bv8>, r: seq<bv8>, k: nat) {
    |r| == |a| && forall p :: 0 <= p < 8 * |a| ==> RotatedAt(a, r, k, p)
  }

  lemma RotatedPlace(x: nat, j: nat, n: nat)
    requires n > 0 && j < 8
    ensures (8 * x + j) % (8 * n) == 8 * (x % n) + j
  {
    var (q, r) := (x / n, x % n);
    assert x == q * n + r;
    assert 8 * x + j == q * (8 * n) + (8 * r + j) by { assert 8 * (q * n) == q * (8 * n); }
    Divided(8 * x + j, 8 * n, q, 8 * r + j);
  }

  lemma TurnedBit(a: seq<bv8>, k: nat, p: nat)
    requires a != [] && p < 8 * |a|
    ensures var q := (p + k) % (8 * |a|);
            Bit(TurnedByte(a, (k / 8) % |a|, k % 8, q / 8, |a|), q % 8) == BitAt(a, p)
  {
    hide Bit, Or, ShiftUp, ShiftDown;
    var (n, i, j, bits) := (|a|, p / 8, p % 8, k % 8);
    var bytes := (k / 8) % n;
    var q := (p + k) % (8 * n);
    ModAdd(k / 8, i, n);
    var (u, v) := ((i + bytes) % n, ((i + bytes) % n + 1) % n);
    var (m, l) := if j + bits < 8 then (u, j + bits) else (v, j + bits - 8);
    if j + bits < 8 {
      RotatedPlace(i + k / 8, j + bits, n);
    } else {
      ModAdd(i + k / 8, 1, n);
      RotatedPlace(i + k / 8 + 1, j + bits - 8, n);
    }
    Position(q, m, l);
    Turn(m, bytes, i, n);
    TurnedBitAt(a, bytes, bits, m, l);
  }

  lemma TurnedBitAt(a: seq<bv8>, bytes: nat, bits: nat, m: nat, l: nat)
    requires bits < 8 && bytes < |a| && m < |a| && l < 8
    ensures Bit(TurnedByte(a, bytes, bits, m, |a|), l)
            == if l >= bits then Bit(a[(m + |a| - bytes) % |a|], l - bits)
               else Bit(a[(m + |a| - bytes - 1) % |a|], l + 8 - bits)
  {
    hide Bit, Or, ShiftUp, ShiftDown;
    var (f, g) := ((m + |a| - bytes) % |a|, (m + |a| - bytes - 1) % |a|);
    BitShiftDown(a[f], bits, l);
    BitShiftUp(a[g], 8 - bits, l);
    BitZero(l);
    BitOr(ShiftDown(a[f], bits), if bits > 0 then ShiftUp(a[g], 8 - bits) else 0, l);
  }

  method BitRotateRight(a: array<bv8>, k: nat) returns (r: array<bv8>)
    ensures IsRotatedRight(a[..], r[..], k)
  {
    hide Or, ShiftUp, ShiftDown, Bit, TurnedByte;
    if a.Length == 0 || k == 0 {
      RotatedNothing(a[..], k);
      return a;
    }
    var byteShift, bitShift := (k / 8) % a.Length, k % 8;
    r := new bv8[a.Length](_ => 0);
    var i := 0;
    TurnedStart(a[..], byteShift, bitShift);
    while i < a.Length
      invariant i <= a.Length
      invariant forall m :: 0 <= m < a.Length ==> r[m] == TurnedByte(a[..], byteShift, bitShift, m, i)
    {
      forall m | 0 <= m < a.Length {
        TurnedStep(a[..], byteShift, bitShift, m, i);
      }
      var newIndex := (i + byteShift) % a.Length;
      r[newIndex] := Or(r[newIndex], ShiftDown(a[i], bitShift));
      if bitShift > 0 {
        var nextIndex := (newIndex + 1) % a.Length;
        r[nextIndex] := Or(r[nextIndex], ShiftUp(a[i], 8 - bitShift));
      }
      i := i + 1;
    }
    forall p | 0 <= p < 8 * a.Length ensures RotatedAt(a[..], r[..], k, p) {
      TurnedBit(a[..], k, p);
    }
  }

  lemma TurnedStart(a: seq<bv8>, bytes: nat, bits: nat)
    requires bits < 8 && bytes < |a|
    ensures forall m :: 0 <= m < |a| ==> TurnedByte(a, bytes, bits, m, 0) == 0
  {
    hide ShiftUp, ShiftDown, Or;
    OrZero(0);
  }

  lemma RotatedNothing(a: seq<bv8>, k: nat)
    requires a == [] || k == 0
    ensures IsRotatedRight(a, a, k)
  {
    hide BitAt;
    forall p | 0 <= p < 8 * |a| ensures RotatedAt(a, a, k, p) {
      ModSmall(p, 8 * |a|);
    }
  }

  lemma RotationsAddAt(a: seq<bv8>, b: seq<bv8>, c: seq<bv8>, j: nat, k: nat, total: nat, p: nat)
    requires IsRotatedRight(a, b, j) && IsRotatedRight(b, c, k) && total == j + k && p < 8 * |a|
    ensures RotatedAt(a, c, total, p)
  {
    hide BitAt;
    ModAdd(p + j, k, 8 * |a|);
    assert RotatedAt(a, b, j, p) && RotatedAt(b, c, k, (p + j) % (8 * |a|));
  }

  /** Rotations add up. */
  lemma RotationsAdd(a: seq<bv8>, b: seq<bv8>, c: seq<bv8>, j: nat, k: nat)
    requires IsRotatedRight(a, b, j) && IsRotatedRight(b, c, k)
    ensures IsRotatedRight(a, c, j + k)
  {
    hide RotatedAt;
    var total := j + k;
    forall p | 0 <= p < 8 * |a| ensures RotatedAt(a, c, total, p) {
      RotationsAddAt(a, b, c, j, k, total, p);
    }
  }

  // ----- rotation to the left, as it is -----

  /** The low bits of a byte go to the byte after its place, where the byte before it is due. */
  function TurnedLeftByte(a: seq<bv8>, bytes: nat, bits: nat, m: nat, done: nat): bv8
    requires bits < 8 && done <= |a| && bytes < |a| && m < |a|
  {
    var (f, g) := ((m + bytes) % |a|, (m + bytes + |a| - 1) % |a|);
    Or(if f < done then ShiftUp(a[f], bits) else 0, if bits > 0 && g < done then ShiftDown(a[g], 8 - bits) else 0)
  }

  function TurnedLeft(a: seq<bv8>, k: nat): (r: seq<bv8>)
    ensures |r| == |a|
  {
    if a == [] || k == 0 then a
    else seq(|a|, m requires 0 <= m < |a| => TurnedLeftByte(a, (k / 8) % |a|, k % 8, m, |a|))
  }

  lemma TurnLeft(m: nat, bytes: nat, i: nat, n: nat)
    requires m < n && bytes < n && i < n
    ensures (m + bytes) % n == i <==> (i + n - bytes) % n == m
    ensures (m + bytes + n - 1) % n == i <==> ((i + n - bytes) % n + 1) % n == m
  {
    ModSmall(m + bytes, n);
    ModSmall(i + n - bytes, n);
    ModAdd(m + bytes, n - 1, n);
    ModSmall((m + bytes) % n + n - 1, n);
    ModSmall((i + n - bytes) % n + 1, n);
  }

  lemma TurnedLeftStep(a: seq<bv8>, bytes: nat, bits: nat, m: nat, i: nat)
    requires bits < 8 && i < |a| && bytes < |a| && m < |a|
    ensures var (u, up, down) := ((i + |a| - bytes) % |a|, ShiftUp(a[i], bits), ShiftDown(a[i], 8 - bits));
            var v := (u + 1) % |a|;
            var before := TurnedLeftByte(a, bytes, bits, m, i);
            var middle := if m == u then Or(before, up) else before;
            TurnedLeftByte(a, bytes, bits, m, i + 1) == if bits > 0 && m == v then Or(middle, down) else middle
  {
    hide Or, ShiftUp, ShiftDown;
    TurnLeft(m, bytes, i, |a|);
    var (f, g) := ((m + bytes) % |a|, (m + bytes + |a| - 1) % |a|);
    var (up, down) := (ShiftUp(a[i], bits), ShiftDown(a[i], 8 - bits));
    OrZero(up);
    OrZero(down);
    OrZero(0);
    if g < i { OrZero(ShiftDown(a[g], 8 - bits)); OrSwap(ShiftDown(a[g], 8 - bits), up); }
    if f < i { OrZero(ShiftUp(a[f], bits)); }
  }

  method BitRotateLeft(a: array<bv8>, k: nat) returns (r: array<bv8>)
    ensures r[..] == TurnedLeft(a[..], k)
  {
    hide Or, ShiftUp, ShiftDown, TurnedLeftByte;
    if a.Length == 0 || k == 0 {
      return a;
    }
    var byteShift, bitShift := (k / 8) % a.Length, k % 8;
    r := new bv8[a.Length](_ => 0);
    var i := 0;
    TurnedLeftStart(a[..], byteShift, bitShift);
    while i < a.Length
      invariant i <= a.Length
      invariant forall m :: 0 <= m < a.Length ==> r[m] == TurnedLeftByte(a[..], byteShift, bitShift, m, i)
    {
      forall m | 0 <= m < a.Length {
        TurnedLeftStep(a[..], byteShift, bitShift, m, i);
      }
      var newIndex := (i + a.Length - byteShift) % a.Length;
      r[newIndex] := Or(r[newIndex], ShiftUp(a[i], bitShift));
      if bitShift > 0 {
        var nextIndex := (newIndex + 1) % a.Length;
        r[nextIndex] := Or(r[nextIndex], ShiftDown(a[i], 8 - bitShift));
      }
      i := i + 1;
    }
  }

  lemma TurnedLeftStart(a: seq<bv8>, bytes: nat, bits: nat)
    requires bits < 8 && bytes < |a|
    ensures forall m :: 0 <= m < |a| ==> TurnedLeftByte(a, bytes, bits, m, 0) == 0
  {
    hide ShiftUp, ShiftDown, Or;
    OrZero(0);
  }

  lemma TurnedLeftBitAt(a: seq<bv8>, bytes: nat, bits: nat, m: nat, l: nat)
    requires bits < 8 && bytes < |a| && m < |a| && l < 8
    ensures Bit(TurnedLeftByte(a, bytes, bits, m, |a|), l)
            == if l + bits < 8 then Bit(a[(m + bytes) % |a|], l + bits)
               else Bit(a[(m + bytes + |a| - 1) % |a|], l + bits - 8)
  {
    hide Bit, Or, ShiftUp, ShiftDown;
    var (f, g) := ((m + bytes) % |a|, (m + bytes + |a| - 1) % |a|);
    BitShiftUp(a[f], bits, l);
    BitShiftDown(a[g], 8 - bits, l);
    BitZero(l);
    BitOr(ShiftUp(a[f], bits), if bits > 0 then ShiftDown(a[g], 8 - bits) else 0, l);
  }

  /** The bit that a rotation to the left by k owes to place p. */
  lemma DueBit(a: seq<bv8>, k: nat, p: nat)
    requires a != [] && p < 8 * |a|
    ensures var (m, l) := (p / 8, p % 8 + k % 8);
            BitAt(a, (p + k) % (8 * |a|))
            == if l < 8 then Bit(a[(m + (k / 8) % |a|) % |a|], l) else Bit(a[(m + (k / 8) % |a| + 1) % |a|], l - 8)
  {
    hide Bit;
    var (n, m, l) := (|a|, p / 8, p % 8 + k % 8);
    var q := (p + k) % (8 * n);
    ModAdd(k / 8, m, n);
    ModAdd(k / 8, m + 1, n);
    if l < 8 {
      RotatedPlace(m + k / 8, l, n);
      Position(q, (m + k / 8) % n, l);
    } else {
      RotatedPlace(m + k / 8 + 1, l - 8, n);
      Position(q, (m + k / 8 + 1) % n, l - 8);
    }
  }

  /** Up to two bytes the byte before and the byte after are the same one. */
  lemma ShortTurns(a: seq<bv8>, k: nat)
    requires a != [] && (|a| <= 2 || k % 8 == 0)
    ensures IsRotatedRight(TurnedLeft(a, k), a, k)
  {
    hide Bit, TurnedLeftByte;
    var r := TurnedLeft(a, k);
    if k == 0 {
      RotatedNothing(a, k);
    } else {
      var bytes := (k / 8) % |a|;
      forall p | 0 <= p < 8 * |a| ensures RotatedAt(r, a, k, p) {
        DueBit(a, k, p);
        TurnedLeftBitAt(a, bytes, k % 8, p / 8, p % 8);
        if |a| <= 2 { BothWays(p / 8 + bytes, |a|); }
      }
    }
  }

  lemma BothWays(x: nat, n: nat)
    requires 0 < n <= 2
    ensures (x + n - 1) % n == (x + 1) % n
  {}

  /** All bits of one byte set, the others clear. */
  function OneByte(n: nat, x: nat): (a: seq<bv8>)
    ensures |a| == n
  {
    seq(n, i => if i == x then 0xFF else 0)
  }

  lemma AllBits(j: nat)
    requires j < 8
    ensures Bit(0xFF, j)
  {}

  lemma LongTurns(n: nat, k: nat)
    requires n >= 3 && k % 8 != 0
    ensures exists a: seq<bv8> :: |a| == n && !IsRotatedRight(TurnedLeft(a, k), a, k)
  {
    hide Bit, TurnedLeftByte;
    var bytes := (k / 8) % n;
    var x := (bytes + 1) % n;
    var a := OneByte(n, x);
    var r := TurnedLeft(a, k);
    DueBit(a, k, 7);
    TurnedLeftBitAt(a, bytes, k % 8, 0, 7);
    ModSmall(bytes + 1, n);
    ModSmall(bytes + n - 1, n);
    AllBits(k % 8 - 1);
    BitZero(k % 8 - 1);
    assert !RotatedAt(r, a, k, 7);
  }

  /** `bitRotateLeft` undoes `bitRotateRight` on all arrays of n bytes exactly when n is at most 2 or
      whole bytes are rotated. */
  lemma RotateLeftExactly(n: nat, k: nat)
    requires n > 0
    ensures (forall a: seq<bv8> :: |a| == n ==> IsRotatedRight(TurnedLeft(a, k), a, k)) <==> (n <= 2 || k % 8 == 0)
  {
    hide IsRotatedRight, TurnedLeft;
    if n <= 2 || k % 8 == 0 {
      forall a: seq<bv8> | |a| == n ensures IsRotatedRight(TurnedLeft(a, k), a, k) {
        ShortTurns(a, k);
      }
    } else {
      LongTurns(n, k);
    }
  }

  // ----- the array as a number -----

  /** A number in binary, the highest digit first. */
  function Value(b: seq<bool>): nat {
    if b == [] then 0 else 2 * Value(b[..|b| - 1]) + if b[|b| - 1] then 1 else 0
  }

  function AllBitsOf(a: seq<bv8>): (b: seq<bool>)
    ensures |b| == 8 * |a|
  {
    seq(8 * |a|, p requires 0 <= p < 8 * |a| => BitAt(a, p))
  }

  /** The array read as a big-endian number. */
  function Number(a: seq<bv8>): nat {
    Value(AllBitsOf(a))
  }

  lemma {:induction false} ValueBound(b: seq<bool>)
    ensures Value(b) < Power2(|b|)
  {
    if b != [] { ValueBound(b[..|b| - 1]); }
  }

  lemma {:induction false} ValueFirst(x: bool, b: seq<bool>)
    ensures Value([x] + b) == (if x then Power2(|b|) else 0) + Value(b)
  {
    if b == [] {
      assert ([x] + b)[..0] == [];
    } else {
      var s := [x] + b;
      assert s[..|s| - 1] == [x] + b[..|b| - 1] && s[|s| - 1] == b[|b| - 1];
      ValueFirst(x, b[..|b| - 1]);
    }
  }

  function ShiftedLeft(b: seq<bool>, k: nat): (r: seq<bool>)
    ensures |r| == |b|
  {
    seq(|b|, p requires 0 <= p < |b| => p + k < |b| && b[p + k])
  }

  function ShiftedRight(b: seq<bool>, k: nat): (r: seq<bool>)
    ensures |r| == |b|
  {
    seq(|b|, p requires 0 <= p < |b| => p >= k && b[p - k])
  }

  lemma OnceLeft(b: seq<bool>)
    ensures Value(ShiftedLeft(b, 1)) == (2 * Value(b)) % Power2(|b|)
  {
    if b != [] {
      var r := ShiftedLeft(b, 1);
      var tail := b[1..];
      assert r[..|r| - 1] == tail && !r[|r| - 1];
      assert b == [b[0]] + tail;
      ValueFirst(b[0], tail);
      ValueBound(r);
      Divided(2 * Value(b), Power2(|b|), if b[0] then 1 else 0, Value(r));
    }
  }

  /** Shifting to the left multiplies, and what does not fit is cut off. */
  lemma {:induction false} ValueLeft(b: seq<bool>, k: nat)
    ensures Value(ShiftedLeft(b, k)) == (Value(b) * Power2(k)) % Power2(|b|)
    decreases k
  {
    var n := Power2(|b|);
    if k == 0 {
      assert ShiftedLeft(b, k) == b;
      ValueBound(b);
      Divided(Value(b), n, 0, Value(b));
    } else {
      hide ShiftedLeft, Value;
      LeftInSteps(b, k);
      OnceLeft(b);
      ValueLeft(ShiftedLeft(b, 1), k - 1);
      Doubled(Value(b), Power2(k - 1), n);
    }
  }

  lemma Doubled(v: nat, p: nat, n: nat)
    requires n > 0
    ensures (2 * v % n * p) % n == (v * (2 * p)) % n
  {
    ModMul(2 * v, p, n);
    assert 2 * v * p == v * (2 * p);
  }

  lemma LeftInSteps(b: seq<bool>, k: nat)
    requires k > 0
    ensures ShiftedLeft(b, k) == ShiftedLeft(ShiftedLeft(b, 1), k - 1)
  {}

  lemma ModMul(x: nat, y: nat, n: nat)
    requires n > 0
    ensures (x % n * y) % n == (x * y) % n
  {
    var (q, r) := (x % n * y / n, x % n * y % n);
    var h := x / n;
    assert x == h * n + x % n;
    assert x % n * y == q * n + r;
    assert x * y == (h * y + q) * n + r by {
      assert x * y == h * n * y + x % n * y;
      assert (h * y + q) * n == h * n * y + q * n;
    }
    Divided(x * y, n, h * y + q, r);
  }

  /** Shifting to the right divides. */
  lemma {:induction false} ValueRight(b: seq<bool>, k: nat)
    ensures Value(ShiftedRight(b, k)) == Value(b) / Power2(k)
    decreases k
  {
    if k == 0 {
      assert ShiftedRight(b, k) == b;
    } else {
      var c := ShiftedRight(b, 1);
      assert ShiftedRight(b, k) == ShiftedRight(c, k - 1);
      OnceRight(b);
      ValueRight(c, k - 1);
      DivideTwice(Value(b), Power2(k - 1));
    }
  }

  lemma OnceRight(b: seq<bool>)
    ensures Value(ShiftedRight(b, 1)) == Value(b) / 2
  {
    if b != [] {
      var r := ShiftedRight(b, 1);
      assert r == [false] + b[..|b| - 1];
      ValueFirst(false, b[..|b| - 1]);
    }
  }

  lemma DivideTwice(x: nat, d: nat)
    requires d > 0
    ensures x / 2 / d == x / (2 * d)
  {
    var (h, l) := (x / 2, x % 2);
    var (q, r) := (h / d, h % d);
    assert h == q * d + r;
    assert x == q * (2 * d) + (2 * r + l) by { assert q * (2 * d) == 2 * (q * d); }
    Divided(x, 2 * d, q, 2 * r + l);
  }

  /** A shift to the left multiplies the number by 2^k modulo 256^n. */
  lemma ShiftLeftNumber(a: seq<bv8>, r: seq<bv8>, k: nat)
    requires IsShiftedLeft(a, r, k)
    ensures Number(r) == (Number(a) * Power2(k)) % Power2(8 * |a|)
  {
    hide BitAt;
    assert AllBitsOf(r) == ShiftedLeft(AllBitsOf(a), k);
    ValueLeft(AllBitsOf(a), k);
  }

  /** A shift to the right divides the number by 2^k. */
  lemma ShiftRightNumber(a: seq<bv8>, r: seq<bv8>, k: nat)
    requires IsShiftedRight(a, r, k)
    ensures Number(r) == Number(a) / Power2(k)
  {
    hide BitAt;
    assert AllBitsOf(r) == ShiftedRight(AllBitsOf(a), k);
    ValueRight(AllBitsOf(a), k);
  }
}
