/** The byte array that serializers append to, and the read cursor of deserializers. */
module ByteArray {

  type byte = x: int | 0 <= x < 256

  datatype Result<T> = Success(value: T) | Failure

  // ----- little-endian integers -----

  function Power256(k: nat): nat {
    if k == 0 then 1 else 256 * Power256(k - 1)
  }

  /** The low `k` bytes of `n`, lowest first; higher ones are cut off. */
  function LittleEndian(n: nat, k: nat): (r: seq<byte>)
    ensures |r| == k
  {
    if k == 0 then [] else [n % 256] + LittleEndian(n / 256, k - 1)
  }

  function Value(b: seq<byte>): nat {
    if b == [] then 0 else b[0] + 256 * Value(b[1..])
  }

  lemma {:induction false} LittleEndianValue(n: nat, k: nat)
    requires n < Power256(k)
    ensures Value(LittleEndian(n, k)) == n
  {
    if k > 0 {
      LittleEndianValue(n / 256, k - 1);
      assert LittleEndian(n, k)[1..] == LittleEndian(n / 256, k - 1);
    }
  }

  /** Conversely, bytes are what their value is written as. */
  lemma {:induction false} ValueBytes(b: seq<byte>)
    ensures Value(b) < Power256(|b|) && LittleEndian(Value(b), |b|) == b
  {
    if b != [] {
      ValueBytes(b[1..]);
      assert Value(b) % 256 == b[0] && Value(b) / 256 == Value(b[1..]);
    }
  }

  // ----- strings as bytes -----

  /** The strings of the source hold bytes. */
  predicate IsBytes(s: string) {
    forall i :: 0 <= i < |s| ==> s[i] as int < 256
  }

  function ToBytes(s: string): (r: seq<byte>)
    requires IsBytes(s)
    ensures |r| == |s|
  {
    seq(|s|, i requires 0 <= i < |s| => s[i] as int)
  }

  function FromBytes(b: seq<byte>): (s: string)
    ensures |s| == |b| && IsBytes(s)
  {
    seq(|b|, i requires 0 <= i < |b| => b[i] as char)
  }

  lemma FromToBytes(s: string)
    requires IsBytes(s)
    ensures FromBytes(ToBytes(s)) == s
  {}

  /** A string is written as its length in four bytes and its characters. */
  function StringBytes(s: string): seq<byte>
    requires IsBytes(s)
  {
    LittleEndian(|s|, 4) + ToBytes(s)
  }

  // ----- reading at a position -----

  /** What a read yields, and the position after it. */
  datatype Read<T> = Got(value: T, next: nat) | OutOfRange

  function ReadInt(data: seq<byte>, pos: nat, k: nat): (r: Read<nat>)
    ensures r.Got? ==> r.next == pos + k <= |data|
  {
    if pos + k <= |data| then Got(Value(data[pos..pos + k]), pos + k) else OutOfRange
  }

  function ReadBytes(data: seq<byte>, pos: nat, n: nat): (r: Read<seq<byte>>)
    ensures r.Got? ==> r.next == pos + n <= |data| && |r.value| == n
  {
    if pos + n <= |data| then Got(data[pos..pos + n], pos + n) else OutOfRange
  }

  function ReadString(data: seq<byte>, pos: nat): (r: Read<string>)
    ensures r.Got? ==> pos < r.next <= |data| && IsBytes(r.value)
  {
    match ReadInt(data, pos, 4)
    case OutOfRange => OutOfRange
    case Got(n, p) =>
      match ReadBytes(data, p, n)
      case OutOfRange => OutOfRange
      case Got(b, q) => Got(FromBytes(b), q)
  }

  /** `part` stands in `data` at `pos`. */
  ghost predicate At(data: seq<byte>, pos: nat, part: seq<byte>) {
    pos + |part| <= |data| && data[pos..pos + |part|] == part
  }

  lemma AtConcat(data: seq<byte>, pos: nat, a: seq<byte>, b: seq<byte>)
    requires At(data, pos, a + b)
    ensures At(data, pos, a) && At(data, pos + |a|, b)
  {
    assert data[pos..pos + |a|] == (a + b)[..|a|];
    assert data[pos + |a|..pos + |a| + |b|] == (a + b)[|a|..];
  }

  lemma ReadIntAt(data: seq<byte>, pos: nat, n: nat, k: nat)
    requires n < Power256(k) && At(data, pos, LittleEndian(n, k))
    ensures ReadInt(data, pos, k) == Got(n, pos + k)
  {
    LittleEndianValue(n, k);
  }

  lemma ReadStringAt(data: seq<byte>, pos: nat, s: string)
    requires IsBytes(s) && |s| < Power256(4) && At(data, pos, StringBytes(s))
    ensures ReadString(data, pos) == Got(s, pos + |StringBytes(s)|)
  {
    hide LittleEndian, Value;
    AtConcat(data, pos, LittleEndian(|s|, 4), ToBytes(s));
    ReadIntAt(data, pos, |s|, 4);
    FromToBytes(s);
  }

  // ----- the array with its cursor -----

  class Buffer {
    var data: seq<byte>
    var readPointer: nat

    ghost predicate Valid()
      reads this
    {
      readPointer <= |data|
    }

    constructor (bytes: seq<byte>)
      ensures Valid() && data == bytes && readPointer == 0
    {
      data := bytes;
      readPointer := 0;
    }

    method AppendInt(n: nat, k: nat)
      requires Valid()
      modifies this`data
      ensures Valid() && data == old(data) + LittleEndian(n, k)
    {
      var left := n;
      for i := 0 to k
        invariant data + LittleEndian(left, k - i) == old(data) + LittleEndian(n, k)
        invariant Valid()
      {
        var low: byte := left % 256;
        assert data + LittleEndian(left, k - i) == (data + [low]) + LittleEndian(left / 256, k - i - 1);
        data := data + [low];
        left := left / 256;
      }
    }

    method AppendBytes(b: seq<byte>)
      requires Valid()
      modifies this`data
      ensures Valid() && data == old(data) + b
    {
      data := data + b;
    }

    method AppendString(s: string)
      requires Valid() && IsBytes(s)
      modifies this`data
      ensures Valid() && data == old(data) + StringBytes(s)
    {
      AppendInt(|s|, 4);
      AppendBytes(ToBytes(s));
    }

    /** A failing read throws and leaves the cursor where it is. */
    method TakeInt(k: nat) returns (r: Result<nat>)
      requires Valid()
      modifies this`readPointer
      ensures Valid()
      ensures match ReadInt(data, old(readPointer), k)
              case Got(n, p) => r == Success(n) && readPointer == p
              case OutOfRange => r == Failure && readPointer == old(readPointer)
    {
      if readPointer + k > |data| {
        return Failure;
      }
      var bytes := data[readPointer..readPointer + k];
      var n: nat := 0;
      var i: nat := k;
      while i > 0
        invariant i <= k && n == Value(bytes[i..])
      {
        i := i - 1;
        assert bytes[i..][1..] == bytes[i + 1..];
        n := bytes[i] + 256 * n;
      }
      assert bytes[0..] == bytes;
      readPointer := readPointer + k;
      r := Success(n);
    }

    method TakeBytes(n: nat) returns (r: Result<seq<byte>>)
      requires Valid()
      modifies this`readPointer
      ensures Valid()
      ensures match ReadBytes(data, old(readPointer), n)
              case Got(b, p) => r == Success(b) && readPointer == p
              case OutOfRange => r == Failure && readPointer == old(readPointer)
    {
      if readPointer + n > |data| {
        return Failure;
      }
      r := Success(data[readPointer..readPointer + n]);
      readPointer := readPointer + n;
    }

    method TakeString() returns (r: Result<string>)
      requires Valid()
      modifies this`readPointer
      ensures Valid()
      ensures match ReadString(data, old(readPointer))
              case Got(s, p) => r == Success(s) && readPointer == p
              case OutOfRange => r == Failure && readPointer == (if old(readPointer) + 4 <= |data| then old(readPointer) + 4
                                                                 else old(readPointer))
    {
      var length := TakeInt(4);
      if length.Failure? {
        return Failure;
      }
      var bytes := TakeBytes(length.value);
      if bytes.Failure? {
        return Failure;
      }
      r := Success(FromBytes(bytes.value));
    }
  }
}
