/** The binary form of condition trees. */
module ConditionCodec {
  import opened Logical
  import opened Condition
  import opened ByteArray
  import opened Options

  /** The type, endpoint and operator codes. */
  const NULL_NODE: byte := 0
  const ENDPOINT_NODE: byte := 1
  const LOGICAL_NODE: byte := 2
  const BOOL_ENDPOINT: byte := 0
  const FUNCTION_ENDPOINT: byte := 1

  function OpCode(op: Op): byte {
    match op
    case Not => 0x80
    case And => 1
    case Or => 2
    case Xor => 3
    case Nand => 0x81
    case Nor => 0x82
    case Xnor => 0x83
    case ImplyLeft => 4
    case ImplyRight => 5
  }

  /** The tree as it is stored: an operator is a byte, of which only 0x80, the plain negation, has a
      meaning to the codec. */
  datatype Stored =
    | Empty
    | Constant(value: bool)
    | Named(id: string)
    | Negation(operand: Stored)
    | Operation(code: BinaryCode, left: Stored, right: Stored)

  type BinaryCode = c: byte | c != 0x80 witness 1

  /** The operator of a code; other codes are accepted here, and by nothing else. */
  function OpOf(code: byte): Option<Op> {
    if code == 0x80 then Some(Not)
    else if code == 1 then Some(And)
    else if code == 2 then Some(Or)
    else if code == 3 then Some(Xor)
    else if code == 0x81 then Some(Nand)
    else if code == 0x82 then Some(Nor)
    else if code == 0x83 then Some(Xnor)
    else if code == 4 then Some(ImplyLeft)
    else if code == 5 then Some(ImplyRight)
    else None
  }

  lemma OpOfCode(op: Op, code: byte)
    ensures OpOf(code) == Some(op) <==> code == OpCode(op)
  {}

  /** Setting the not bit of a code is adding the not, and leaves the codes for an implication. */
  lemma NotBit(op: Op)
    requires !IsNot(op)
    ensures OpOf(OpCode(op) + 0x80) == if IsImply(op) then None else Some(AddNot(op))
  {}

  /** A whole tree as it is stored. */
  function StoredOf(t: Node): Stored
    requires t.Intact()
  {
    match t
    case Null => Empty
    case Bool(b) => Constant(b)
    case Func(id) => Named(id)
    case Unary(c) => Negation(StoredOf(c))
    case Binary(op, l, r) => Operation(OpCode(op), StoredOf(l), StoredOf(r))
  }

  /** The tree that is stored, if all its codes are known. */
  function TreeOf(s: Stored): (t: Option<Node>) {
    match s
    case Empty => Some(Null)
    case Constant(b) => Some(Bool(b))
    case Named(id) => Some(Func(id))
    case Negation(c) => if TreeOf(c).None? then None else Some(Unary(TreeOf(c).value))
    case Operation(code, l, r) =>
      if OpOf(code).None? || TreeOf(l).None? || TreeOf(r).None? then None
      else
        OpOfCode(Not, code);
        Some(Binary(OpOf(code).value, TreeOf(l).value, TreeOf(r).value))
  }

  /** Whole trees are stored one to one, as exactly those with known codes. */
  lemma {:induction false} StoredFaithfully(t: Node, s: Stored)
    ensures t.Intact() && StoredOf(t) == s <==> TreeOf(s) == Some(t)
    decreases s
  {
    hide OpOf, OpCode;
    match s
    case Negation(c) =>
      if t.Unary? { StoredFaithfully(t.child, c); }
    case Operation(code, l, r) =>
      if t.Binary? {
        OpOfCode(t.op, code);
        StoredFaithfully(t.left, l);
        StoredFaithfully(t.right, r);
      }
    case _ =>
  }

  /** The trees that can be written: their ids are byte strings with a length that fits the prefix. */
  predicate Dumpable(t: Stored) {
    match t
    case Named(id) => IsBytes(id) && |id| < Power256(4)
    case Negation(c) => Dumpable(c)
    case Operation(_, l, r) => Dumpable(l) && Dumpable(r)
    case _ => true
  }

  /** The bytes of a tree; the functions bound to its endpoints are not written. */
  function Dump(t: Stored): (r: seq<byte>)
    requires Dumpable(t)
    ensures |r| > 0
  {
    match t
    case Empty => [NULL_NODE]
    case Constant(b) => [ENDPOINT_NODE, BOOL_ENDPOINT, if b then 1 else 0]
    case Named(id) => [ENDPOINT_NODE, FUNCTION_ENDPOINT] + StringBytes(id)
    case Negation(c) => [LOGICAL_NODE, 0x80] + Dump(c)
    case Operation(code, l, r) => [LOGICAL_NODE, code] + Dump(l) + Dump(r)
  }

  datatype Loaded = Tree(node: Stored, next: nat) | Thrown

  function Load(data: seq<byte>, pos: nat): (r: Loaded)
    ensures r.Tree? ==> pos < r.next <= |data|
    decreases |data| - pos
  {
    if pos >= |data| then Thrown
    else if data[pos] == NULL_NODE then Tree(Empty, pos + 1)
    else if data[pos] == ENDPOINT_NODE then LoadEndpoint(data, pos + 1)
    else if data[pos] == LOGICAL_NODE then
      if pos + 1 >= |data| then Thrown
      else
        match Load(data, pos + 2)
        case Thrown => Thrown
        case Tree(left, p) =>
          if data[pos + 1] == 0x80 then Tree(Negation(left), p)
          else
            match Load(data, p)
            case Thrown => Thrown
            case Tree(right, q) => Tree(Operation(data[pos + 1], left, right), q)
    else Thrown
  }

  function LoadEndpoint(data: seq<byte>, pos: nat): (r: Loaded)
    ensures r.Tree? ==> pos < r.next <= |data|
  {
    if pos >= |data| then Thrown
    else if data[pos] == BOOL_ENDPOINT then
      if pos + 1 >= |data| then Thrown else Tree(Constant(data[pos + 1] != 0), pos + 2)
    else if data[pos] == FUNCTION_ENDPOINT then
      match ReadString(data, pos + 1)
      case OutOfRange => Thrown
      case Got(id, p) => Tree(Named(id), p)
    else Thrown
  }

  lemma AtPair(data: seq<byte>, pos: nat, a: byte, b: byte, tail: seq<byte>)
    requires At(data, pos, [a, b] + tail)
    ensures pos + 1 < |data| && data[pos] == a && data[pos + 1] == b && At(data, pos + 2, tail)
  {
    AtConcat(data, pos, [a, b], tail);
    assert data[pos..pos + 2][0] == data[pos] && data[pos..pos + 2][1] == data[pos + 1];
  }

  lemma LoadBool(data: seq<byte>, pos: nat, b: bool)
    requires At(data, pos, Dump(Constant(b)))
    ensures Load(data, pos) == Tree(Constant(b), pos + 3)
  {
    var last: seq<byte> := [if b then 1 else 0];
    assert Dump(Constant(b)) == [ENDPOINT_NODE, BOOL_ENDPOINT] + last;
    AtPair(data, pos, ENDPOINT_NODE, BOOL_ENDPOINT, last);
    assert data[pos + 2..pos + 3][0] == data[pos + 2];
  }

  lemma LoadFunction(data: seq<byte>, pos: nat, id: string)
    requires Dumpable(Named(id)) && At(data, pos, Dump(Named(id)))
    ensures Load(data, pos) == Tree(Named(id), pos + |Dump(Named(id))|)
  {
    hide StringBytes, ReadString;
    AtPair(data, pos, ENDPOINT_NODE, FUNCTION_ENDPOINT, StringBytes(id));
    ReadStringAt(data, pos + 2, id);
  }

  /** Wherever a tree has been written, loading it rebuilds the tree and ends exactly behind it. */
  lemma {:induction false} LoadDump(data: seq<byte>, pos: nat, t: Stored)
    requires Dumpable(t) && At(data, pos, Dump(t))
    ensures Load(data, pos) == Tree(t, pos + |Dump(t)|)
    decreases t
  {
    hide StringBytes, ReadString, At, LoadEndpoint;
    match t
    case Empty => AtOne(data, pos, NULL_NODE);
    case Constant(b) => LoadBool(data, pos, b);
    case Named(id) => LoadFunction(data, pos, id);
    case Negation(c) =>
      AtPair(data, pos, LOGICAL_NODE, 0x80, Dump(c));
      LoadDump(data, pos + 2, c);
    case Operation(code, l, r) =>
      BinaryAt(data, pos, code, l, r);
      LoadDump(data, pos + 2, l);
      LoadDump(data, pos + 2 + |Dump(l)|, r);
  }

  /** So a whole tree comes back through the file. */
  lemma TreeDumped(data: seq<byte>, pos: nat, t: Node)
    requires t.Intact() && Dumpable(StoredOf(t)) && At(data, pos, Dump(StoredOf(t)))
    ensures Load(data, pos).Tree? && TreeOf(Load(data, pos).node) == Some(t)
    ensures Load(data, pos).next == pos + |Dump(StoredOf(t))|
  {
    hide Load, Dump, At;
    LoadDump(data, pos, StoredOf(t));
    StoredFaithfully(t, StoredOf(t));
  }

  lemma BinaryAt(data: seq<byte>, pos: nat, code: BinaryCode, l: Stored, r: Stored)
    requires Dumpable(l) && Dumpable(r) && At(data, pos, Dump(Operation(code, l, r)))
    ensures pos + 1 < |data| && data[pos] == LOGICAL_NODE && data[pos + 1] == code
    ensures At(data, pos + 2, Dump(l)) && At(data, pos + 2 + |Dump(l)|, Dump(r))
    ensures |Dump(Operation(code, l, r))| == 2 + |Dump(l)| + |Dump(r)|
  {
    hide At;
    assert Dump(Operation(code, l, r)) == [LOGICAL_NODE, code] + (Dump(l) + Dump(r));
    AtPair(data, pos, LOGICAL_NODE, code, Dump(l) + Dump(r));
    AtConcat(data, pos + 2, Dump(l), Dump(r));
  }

  lemma AtOne(data: seq<byte>, pos: nat, a: byte)
    requires At(data, pos, [a])
    ensures pos < |data| && data[pos] == a
  {
    assert data[pos..pos + 1][0] == data[pos];
  }

  /** No encoding is a prefix of another one. */
  lemma PrefixFree(t: Stored, u: Stored, a: seq<byte>, b: seq<byte>)
    requires Dumpable(t) && Dumpable(u) && Dump(t) + a == Dump(u) + b
    ensures t == u && a == b
  {
    var data := Dump(t) + a;
    assert data[0..|Dump(t)|] == Dump(t);
    assert data[0..|Dump(u)|] == Dump(u);
    LoadDump(data, 0, t);
    LoadDump(data, 0, u);
    assert a == data[|Dump(t)|..] && b == data[|Dump(u)|..];
  }

  /** Loading only ever builds whole trees, which can be written again. */
  lemma {:induction false} LoadDumpable(data: seq<byte>, pos: nat)
    ensures Load(data, pos).Tree? ==> Dumpable(Load(data, pos).node)
    decreases |data| - pos
  {
    if pos + 1 < |data| {
      if data[pos] == LOGICAL_NODE {
        LoadDumpable(data, pos + 2);
        var l := Load(data, pos + 2);
        if l.Tree? {
          LoadDumpable(data, l.next);
        }
      } else if data[pos] == ENDPOINT_NODE && data[pos + 1] == FUNCTION_ENDPOINT {
        StringFits(data, pos + 2);
      }
    }
  }

  lemma StringFits(data: seq<byte>, pos: nat)
    ensures ReadString(data, pos).Got? ==> |ReadString(data, pos).value| < Power256(4)
  {
    if pos + 4 <= |data| {
      ValueBytes(data[pos..pos + 4]);
    }
  }

  // ----- the bytes of a tree -----

  /** a & {true}: a logical node with its operator, a function behind its length, a constant. */
  lemma DumpExample()
    ensures var s := Operation(1, Named("a"), Constant(true));
            StoredOf(Binary(And, Func("a"), Bool(true))) == s && Dumpable(s)
            && Dump(s) == [2, 1] + [1, 1] + [1, 0, 0, 0] + [97] + [1, 0, 1]
  {
    assert Power256(4) == 256 * Power256(3) && Power256(3) == 256 * Power256(2) && Power256(2) == 256 * 256;
    assert LittleEndian(1, 4) == [1] + LittleEndian(0, 3) && LittleEndian(0, 3) == [0] + LittleEndian(0, 2);
    assert LittleEndian(0, 2) == [0] + LittleEndian(0, 1) && LittleEndian(0, 1) == [0];
    assert ToBytes("a") == [97];
    assert Dump(Named("a")) == [1, 1] + [1, 0, 0, 0] + [97];
  }

  /** The codes: 0x80 is the not bit, and the operators are numbered below it. */
  lemma OperatorCodes(op: Op)
    ensures IsNot(op) <==> OpCode(op) >= 0x80
    ensures op != Not ==> OpCode(op) % 0x80 == (match BaseOp(op) case And => 1 case Or => 2 case Xor => 3 case ImplyLeft => 4 case _ => 5)
    ensures op == Not ==> OpCode(op) == 0x80
  {}

  // ----- the recursion over a buffer -----

  method AppendNode(t: Stored, out: Buffer)
    requires Dumpable(t) && out.Valid()
    modifies out`data
    ensures out.Valid() && out.data == old(out.data) + Dump(t)
    decreases t, 1
  {
    hide StringBytes;
    match t {
      case Empty =>
        out.AppendBytes([NULL_NODE]);
      case Constant(b) =>
        out.AppendBytes([ENDPOINT_NODE, BOOL_ENDPOINT, if b then 1 else 0]);
      case Named(id) =>
        AppendFunction(id, out);
      case Negation(c) =>
        AppendUnary(c, out);
      case Operation(code, l, r) =>
        AppendBinary(code, l, r, out);
    }
  }

  method AppendFunction(id: string, out: Buffer)
    requires Dumpable(Named(id)) && out.Valid()
    modifies out`data
    ensures out.Valid() && out.data == old(out.data) + Dump(Named(id))
  {
    hide StringBytes;
    out.AppendBytes([ENDPOINT_NODE, FUNCTION_ENDPOINT]);
    out.AppendString(id);
    assert out.data == old(out.data) + ([ENDPOINT_NODE, FUNCTION_ENDPOINT] + StringBytes(id));
  }

  lemma DumpLogical(code: BinaryCode, l: Stored, r: Stored)
    requires Dumpable(l) && Dumpable(r)
    ensures Dump(Negation(l)) == [LOGICAL_NODE, 0x80] + Dump(l)
    ensures Dump(Operation(code, l, r)) == [LOGICAL_NODE, code] + Dump(l) + Dump(r)
  {}

  method AppendUnary(c: Stored, out: Buffer)
    requires Dumpable(c) && out.Valid()
    modifies out`data
    ensures out.Valid() && out.data == old(out.data) + Dump(Negation(c))
    decreases Negation(c), 0
  {
    hide Dump;
    DumpLogical(1, c, c);
    out.AppendBytes([LOGICAL_NODE, 0x80]);
    AppendNode(c, out);
    assert out.data == old(out.data) + ([LOGICAL_NODE, 0x80] + Dump(c));
  }

  method AppendBinary(code: BinaryCode, l: Stored, r: Stored, out: Buffer)
    requires Dumpable(l) && Dumpable(r) && out.Valid()
    modifies out`data
    ensures out.Valid() && out.data == old(out.data) + Dump(Operation(code, l, r))
    decreases Operation(code, l, r), 0
  {
    hide Dump;
    DumpLogical(code, l, r);
    out.AppendBytes([LOGICAL_NODE, code]);
    AppendNode(l, out);
    AppendNode(r, out);
    assert out.data == old(out.data) + ([LOGICAL_NODE, code] + Dump(l) + Dump(r));
  }

  datatype Outcome = Built(node: Stored) | Failed

  ghost predicate LoadedBy(o: Outcome, next: nat, l: Loaded) {
    match l
    case Tree(node, p) => o == Built(node) && next == p
    case Thrown => o == Failed
  }

  method LoadNode(data: Buffer) returns (o: Outcome)
    requires data.Valid()
    modifies data`readPointer
    ensures data.Valid() && LoadedBy(o, data.readPointer, Load(data.data, old(data.readPointer)))
    decreases |data.data| - data.readPointer
  {
    hide ReadString, LoadEndpoint;
    ghost var (bytes, pos) := (data.data, data.readPointer);
    var kind := TakeByte(data);
    if kind.Failure? {
      return Failed;
    }
    if kind.value == NULL_NODE {
      return Built(Empty);
    } else if kind.value == ENDPOINT_NODE {
      o := LoadEndpointNode(data);
    } else if kind.value == LOGICAL_NODE {
      var code := TakeByte(data);
      if code.Failure? {
        return Failed;
      }
      var left := LoadNode(data);
      if left.Failed? {
        return left;
      }
      if code.value == 0x80 {
        return Built(Negation(left.node));
      }
      var right := LoadNode(data);
      if right.Failed? {
        return right;
      }
      o := Built(Operation(code.value, left.node, right.node));
    } else {
      o := Failed;
    }
  }

  method TakeByte(data: Buffer) returns (r: Result<byte>)
    requires data.Valid()
    modifies data`readPointer
    ensures data.Valid()
    ensures if old(data.readPointer) < |data.data|
            then r == Success(data.data[old(data.readPointer)]) && data.readPointer == old(data.readPointer) + 1
            else r == Failure && data.readPointer == old(data.readPointer)
  {
    var one := data.TakeBytes(1);
    r := if one.Failure? then Failure else Success(one.value[0]);
  }

  method LoadEndpointNode(data: Buffer) returns (o: Outcome)
    requires data.Valid()
    modifies data`readPointer
    ensures data.Valid() && LoadedBy(o, data.readPointer, LoadEndpoint(data.data, old(data.readPointer)))
  {
    hide ReadString;
    var kind := TakeByte(data);
    if kind.Failure? {
      return Failed;
    }
    if kind.value == BOOL_ENDPOINT {
      var value := TakeByte(data);
      o := if value.Failure? then Failed else Built(Constant(value.value != 0));
    } else if kind.value == FUNCTION_ENDPOINT {
      var id := data.TakeString();
      o := if id.Failure? then Failed else Built(Named(id.value));
    } else {
      o := Failed;
    }
  }
}
