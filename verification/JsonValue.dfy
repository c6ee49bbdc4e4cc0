/** JSON values, with objects kept in the order of their keys. */
module JsonValue {
  import opened Options
  import opened StringOrder

  type int64 = x: int | -0x8000_0000_0000_0000 <= x < 0x8000_0000_0000_0000

  /** A number that is not an integer of 64 bits is known by the literal it was read from;
      `Extended` is a string that an enabled extension converts on reading. */
  datatype Value =
    | Null
    | Bool(truth: bool)
    | Integer(number: int64)
    | Floating(literal: string)
    | Text(text: string)
    | Extended(source: string)
    | Array(items: seq<Value>)
    | Object(fields: seq<Field>)

  datatype Field = Field(key: string, value: Value)

  /** Only values whose text this model knows. */
  predicate Exact(v: Value) {
    match v
    case Array(items) => ExactItems(items)
    case Object(fields) => ExactFields(fields)
    case _ => !v.Floating? && !v.Extended?
  }

  predicate ExactItems(items: seq<Value>) {
    items == [] || (Exact(items[0]) && ExactItems(items[1..]))
  }

  predicate ExactFields(fields: seq<Field>) {
    fields == [] || (Exact(fields[0].value) && ExactFields(fields[1..]))
  }

  ghost predicate KeysSorted(fields: seq<Field>) {
    forall i, j :: 0 <= i < j < |fields| ==> Less(fields[i].key, fields[j].key)
  }

  /** Every object lists its fields in the order of their keys, without duplicates. */
  ghost predicate Ordered(v: Value) {
    match v
    case Array(items) => OrderedItems(items)
    case Object(fields) => KeysSorted(fields) && OrderedFields(fields)
    case _ => true
  }

  ghost predicate OrderedItems(items: seq<Value>) {
    items == [] || (Ordered(items[0]) && OrderedItems(items[1..]))
  }

  ghost predicate OrderedFields(fields: seq<Field>) {
    fields == [] || (Ordered(fields[0].value) && OrderedFields(fields[1..]))
  }

  /** Insertion that leaves an existing entry for the key alone. */
  function Put(fields: seq<Field>, key: string, value: Value): (r: seq<Field>)
    ensures |fields| <= |r| <= |fields| + 1
  {
    if fields == [] then [Field(key, value)]
    else if key == fields[0].key then fields
    else if Less(key, fields[0].key) then [Field(key, value)] + fields
    else [fields[0]] + Put(fields[1..], key, value)
  }

  lemma {:induction false} PutKeys(fields: seq<Field>, key: string, value: Value)
    ensures forall f :: f in Put(fields, key, value) ==> f in fields || f == Field(key, value)
  {
    if fields != [] && key != fields[0].key && !Less(key, fields[0].key) {
      PutKeys(fields[1..], key, value);
    }
  }

  lemma {:induction false} PutSorted(fields: seq<Field>, key: string, value: Value)
    requires KeysSorted(fields)
    ensures KeysSorted(Put(fields, key, value))
  {
    if fields != [] && key != fields[0].key {
      LessTotal(key, fields[0].key);
      if Less(key, fields[0].key) {
        forall j | 0 < j < |fields| ensures Less(key, fields[j].key) {
          LessTransitive(key, fields[0].key, fields[j].key);
        }
      } else {
        PutSorted(fields[1..], key, value);
        PutKeys(fields[1..], key, value);
        var rest := Put(fields[1..], key, value);
        forall j | 0 <= j < |rest| ensures Less(fields[0].key, rest[j].key) {
          assert rest[j] in rest;
        }
      }
    }
  }

  lemma {:induction false} PutOrdered(fields: seq<Field>, key: string, value: Value)
    requires OrderedFields(fields) && Ordered(value)
    ensures OrderedFields(Put(fields, key, value))
  {
    if fields != [] && key != fields[0].key && !Less(key, fields[0].key) {
      PutOrdered(fields[1..], key, value);
    }
  }

  /** A key beyond all others goes to the end. */
  lemma {:induction false} PutLast(fields: seq<Field>, key: string, value: Value)
    requires forall i :: 0 <= i < |fields| ==> Less(fields[i].key, key)
    ensures Put(fields, key, value) == fields + [Field(key, value)]
  {
    if fields != [] {
      LessTotal(fields[0].key, key);
      PutLast(fields[1..], key, value);
    }
  }

  /** The characters in the keys, and one for every field. */
  function Weight(fields: seq<Field>): nat {
    if fields == [] then 0 else |fields[0].key| + 1 + Weight(fields[1..])
  }

  lemma {:induction false} PutWeight(fields: seq<Field>, key: string, value: Value)
    ensures var r := Put(fields, key, value);
            Weight(r) == Weight(fields) + if |r| == |fields| then 0 else |key| + 1
  {
    if fields != [] && key != fields[0].key && !Less(key, fields[0].key) {
      PutWeight(fields[1..], key, value);
    }
  }

  /** The value of a key, if it is there. */
  function Find(fields: seq<Field>, key: string): Option<Value> {
    if fields == [] then None else if fields[0].key == key then Some(fields[0].value) else Find(fields[1..], key)
  }

  lemma {:induction false} FindBefore(fields: seq<Field>, key: string)
    requires forall i :: 0 <= i < |fields| ==> Less(key, fields[i].key)
    ensures Find(fields, key) == None
  {
    if fields != [] {
      LessTotal(key, fields[0].key);
      FindBefore(fields[1..], key);
    }
  }

  /** A key that is there keeps its value; a new one gets the value, and all others keep theirs. */
  lemma {:induction false} FindPut(fields: seq<Field>, key: string, value: Value, other: string)
    requires KeysSorted(fields)
    ensures Find(Put(fields, key, value), other)
            == if other == key && Find(fields, key) == None then Some(value) else Find(fields, other)
  {
    if fields != [] && key != fields[0].key {
      if Less(key, fields[0].key) {
        forall j | 0 <= j < |fields| ensures Less(key, fields[j].key) {
          if j > 0 { LessTransitive(key, fields[0].key, fields[j].key); }
        }
        FindBefore(fields, key);
        assert ([Field(key, value)] + fields)[1..] == fields;
      } else {
        FindPut(fields[1..], key, value, other);
        assert ([fields[0]] + Put(fields[1..], key, value))[1..] == Put(fields[1..], key, value);
      }
    }
  }
}
