/** Several files packed into one byte array: the names and sizes of all files, then their contents. */
module FilePack {
  import opened ByteArray

  datatype Entry = Entry(filename: string, data: seq<byte>)

  /** What stands in the table of contents. */
  datatype Info = Info(filename: string, size: nat)

  // ----- the format -----

  function InfoBytes(info: Info): seq<byte>
    requires IsBytes(info.filename)
  {
    StringBytes(info.filename) + LittleEndian(info.size, 8)
  }

  predicate NamesAreBytes(infos: seq<Info>) {
    forall i :: 0 <= i < |infos| ==> IsBytes(infos[i].filename)
  }

  function InfosBytes(infos: seq<Info>): seq<byte>
    requires NamesAreBytes(infos)
  {
    if infos == [] then [] else InfoBytes(infos[0]) + InfosBytes(infos[1..])
  }

  function Contents(entries: seq<Entry>): seq<byte> {
    if entries == [] then [] else entries[0].data + Contents(entries[1..])
  }

  function Infos(entries: seq<Entry>): (infos: seq<Info>)
    ensures |infos| == |entries|
  {
    seq(|entries|, i requires 0 <= i < |entries| => Info(entries[i].filename, |entries[i].data|))
  }

  /** Names and numbers that fit the fields they are written to. */
  predicate Packable(entries: seq<Entry>) {
    |entries| < Power256(8)
    && forall i :: 0 <= i < |entries| ==>
         IsBytes(entries[i].filename) && |entries[i].filename| < Power256(4) && |entries[i].data| < Power256(8)
  }

  function Dump(entries: seq<Entry>): seq<byte>
    requires NamesAreBytes(Infos(entries))
  {
    LittleEndian(|entries|, 8) + InfosBytes(Infos(entries)) + Contents(entries)
  }

  function ReadInfo(data: seq<byte>, pos: nat): (r: Read<Info>)
    ensures r.Got? ==> pos < r.next <= |data| && IsBytes(r.value.filename)
  {
    match ReadString(data, pos)
    case OutOfRange => OutOfRange
    case Got(name, p) =>
      match ReadInt(data, p, 8)
      case OutOfRange => OutOfRange
      case Got(size, q) => Got(Info(name, size), q)
  }

  function ReadInfos(data: seq<byte>, pos: nat, count: nat): (r: Read<seq<Info>>)
    ensures r.Got? ==> pos <= r.next && |r.value| == count && NamesAreBytes(r.value)
    decreases count
  {
    if count == 0 then Got([], pos)
    else
      match ReadInfo(data, pos)
      case OutOfRange => OutOfRange
      case Got(info, p) =>
        match ReadInfos(data, p, count - 1)
        case OutOfRange => OutOfRange
        case Got(more, q) => Got([info] + more, q)
  }

  function ReadContents(data: seq<byte>, pos: nat, infos: seq<Info>): (r: Read<seq<Entry>>)
    ensures r.Got? ==> pos <= r.next && |r.value| == |infos|
    decreases |infos|
  {
    if infos == [] then Got([], pos)
    else
      match ReadBytes(data, pos, infos[0].size)
      case OutOfRange => OutOfRange
      case Got(bytes, p) =>
        match ReadContents(data, p, infos[1..])
        case OutOfRange => OutOfRange
        case Got(more, q) => Got([Entry(infos[0].filename, bytes)] + more, q)
  }

  function Load(data: seq<byte>, pos: nat): Read<seq<Entry>> {
    match ReadInt(data, pos, 8)
    case OutOfRange => OutOfRange
    case Got(count, p) =>
      match ReadInfos(data, p, count)
      case OutOfRange => OutOfRange
      case Got(infos, q) => ReadContents(data, q, infos)
  }

  // ----- what has been dumped is loaded -----

  lemma {:induction false} InfosAt(data: seq<byte>, pos: nat, infos: seq<Info>)
    requires NamesAreBytes(infos) && At(data, pos, InfosBytes(infos))
    requires forall i :: 0 <= i < |infos| ==> |infos[i].filename| < Power256(4) && infos[i].size < Power256(8)
    ensures ReadInfos(data, pos, |infos|) == Got(infos, pos + |InfosBytes(infos)|)
    decreases |infos|
  {
    hide StringBytes, LittleEndian, At, ReadString, ReadInt, Power256, IsBytes;
    if infos != [] {
      var (info, rest) := (infos[0], infos[1..]);
      var (name, size) := (StringBytes(info.filename), LittleEndian(info.size, 8));
      AtConcat(data, pos, InfoBytes(info), InfosBytes(rest));
      AtConcat(data, pos, name, size);
      ReadStringAt(data, pos, info.filename);
      ReadIntAt(data, pos + |name|, info.size, 8);
      InfosAt(data, pos + |InfoBytes(info)|, rest);
      assert [info] + rest == infos;
    }
  }

  lemma AtBytes(data: seq<byte>, pos: nat, b: seq<byte>)
    requires At(data, pos, b)
    ensures ReadBytes(data, pos, |b|) == Got(b, pos + |b|)
  {}

  lemma {:induction false} ContentsAt(data: seq<byte>, pos: nat, entries: seq<Entry>)
    requires At(data, pos, Contents(entries))
    ensures ReadContents(data, pos, Infos(entries)) == Got(entries, pos + |Contents(entries)|)
    decreases |entries|
  {
    hide Infos, At;
    if entries == [] {
      InfosCons(Entry("", []), []);
    } else {
      var (e, rest) := (entries[0], entries[1..]);
      assert [e] + rest == entries;
      InfosCons(e, rest);
      AtConcat(data, pos, e.data, Contents(rest));
      AtBytes(data, pos, e.data);
      ContentsAt(data, pos + |e.data|, rest);
      assert Infos(entries)[1..] == Infos(rest);
    }
  }

  /** Wherever a pack has been written, loading it gives the files and ends exactly behind it. */
  lemma LoadDump(data: seq<byte>, pos: nat, entries: seq<Entry>)
    requires Packable(entries) && NamesAreBytes(Infos(entries)) && At(data, pos, Dump(entries))
    ensures Load(data, pos) == Got(entries, pos + |Dump(entries)|)
  {
    hide LittleEndian, At, ReadInt, Power256, InfosBytes, Contents;
    var (count, infos, contents) := (LittleEndian(|entries|, 8), InfosBytes(Infos(entries)), Contents(entries));
    AtConcat(data, pos, count + infos, contents);
    AtConcat(data, pos, count, infos);
    ReadIntAt(data, pos, |entries|, 8);
    InfosAt(data, pos + 8, Infos(entries));
    ContentsAt(data, pos + 8 + |infos|, entries);
  }

  // ----- what is loaded has been dumped -----

  /** The bytes that were read are those that would be written. */
  lemma InfoRead(data: seq<byte>, pos: nat)
    requires ReadInfo(data, pos).Got?
    ensures var (info, next) := (ReadInfo(data, pos).value, ReadInfo(data, pos).next);
            |info.filename| < Power256(4) && info.size < Power256(8) && data[pos..next] == InfoBytes(info)
  {
    hide LittleEndian, Value, Power256;
    var n := Value(data[pos..pos + 4]);
    var p := pos + 4 + n;
    ValueBytes(data[pos..pos + 4]);
    ValueBytes(data[p..p + 8]);
    var name := FromBytes(data[pos + 4..p]);
    assert ToBytes(name) == data[pos + 4..p];
    assert StringBytes(name) == data[pos..pos + 4] + data[pos + 4..p] == data[pos..p];
    assert data[pos..p + 8] == data[pos..p] + data[p..p + 8];
  }

  lemma {:induction false} InfosRead(data: seq<byte>, pos: nat, count: nat)
    requires ReadInfos(data, pos, count).Got? && pos <= |data|
    ensures var (infos, next) := (ReadInfos(data, pos, count).value, ReadInfos(data, pos, count).next);
            next <= |data| && data[pos..next] == InfosBytes(infos)
            && forall i :: 0 <= i < |infos| ==> |infos[i].filename| < Power256(4) && infos[i].size < Power256(8)
    decreases count
  {
    hide ReadInfo, InfoBytes, Power256, IsBytes;
    if count > 0 {
      var first := ReadInfo(data, pos);
      InfoRead(data, pos);
      InfosRead(data, first.next, count - 1);
      var more := ReadInfos(data, first.next, count - 1);
      assert ([first.value] + more.value)[1..] == more.value;
      assert data[pos..more.next] == data[pos..first.next] + data[first.next..more.next];
    }
  }

  lemma {:induction false} ContentsRead(data: seq<byte>, pos: nat, infos: seq<Info>)
    requires ReadContents(data, pos, infos).Got? && pos <= |data|
    ensures var (entries, next) := (ReadContents(data, pos, infos).value, ReadContents(data, pos, infos).next);
            next <= |data| && data[pos..next] == Contents(entries) && Infos(entries) == infos
    decreases |infos|
  {
    hide Infos;
    if infos == [] {
      InfosCons(Entry("", []), []);
    } else {
      var p := pos + infos[0].size;
      var e := Entry(infos[0].filename, data[pos..p]);
      ContentsRead(data, p, infos[1..]);
      var more := ReadContents(data, p, infos[1..]);
      InfosCons(e, more.value);
      Cut(data, pos, p, more.next);
      assert infos == [infos[0]] + infos[1..];
    }
  }

  lemma Cut(data: seq<byte>, a: nat, b: nat, c: nat)
    requires a <= b <= c <= |data|
    ensures data[a..c] == data[a..b] + data[b..c]
  {}

  lemma InfosCons(e: Entry, more: seq<Entry>)
    ensures Infos([e] + more) == [Info(e.filename, |e.data|)] + Infos(more) && Infos([]) == []
    ensures ([e] + more)[1..] == more
  {}

  /** Loading accepts only what dumping writes: the bytes it consumed are those of the files it gives. */
  lemma LoadedWasDumped(data: seq<byte>, pos: nat)
    requires Load(data, pos).Got?
    ensures var (entries, next) := (Load(data, pos).value, Load(data, pos).next);
            Packable(entries) && NamesAreBytes(Infos(entries)) && next <= |data| && data[pos..next] == Dump(entries)
  {
    hide LittleEndian, Value, Power256, InfosBytes, Contents, ReadInfos, ReadContents, IsBytes;
    var p := pos + 8;
    var count := Value(data[pos..p]);
    ValueBytes(data[pos..p]);
    InfosRead(data, p, count);
    var infos := ReadInfos(data, p, count);
    ContentsRead(data, infos.next, infos.value);
    var r := ReadContents(data, infos.next, infos.value);
    assert data[pos..r.next] == data[pos..p] + data[p..infos.next] + data[infos.next..r.next];
    InfosPackable(r.value);
  }

  lemma InfosPackable(entries: seq<Entry>)
    requires var infos := Infos(entries);
             |infos| < Power256(8) && NamesAreBytes(infos)
             && forall i :: 0 <= i < |infos| ==> |infos[i].filename| < Power256(4) && infos[i].size < Power256(8)
    ensures Packable(entries)
  {
    hide Power256, IsBytes;
    var infos := Infos(entries);
    forall i | 0 <= i < |entries|
      ensures IsBytes(entries[i].filename) && |entries[i].filename| < Power256(4) && |entries[i].data| < Power256(8)
    {
      assert infos[i].filename == entries[i].filename && infos[i].size == |entries[i].data|;
    }
  }

  /** No pack is the beginning of another one. */
  lemma PrefixFree(p: seq<Entry>, q: seq<Entry>, a: seq<byte>, b: seq<byte>)
    requires Packable(p) && Packable(q) && NamesAreBytes(Infos(p)) && NamesAreBytes(Infos(q))
    requires Dump(p) + a == Dump(q) + b
    ensures p == q && a == b
  {
    hide Dump, Packable, Load, Infos;
    var data := Dump(p) + a;
    assert data[0..|Dump(p)|] == Dump(p);
    assert data[0..|Dump(q)|] == Dump(q);
    LoadDump(data, 0, p);
    LoadDump(data, 0, q);
    assert a == data[|Dump(p)|..] && b == data[|Dump(q)|..];
  }

  // ----- the bytes of a pack -----

  lemma SmallNumber(n: nat, k: nat)
    requires n < 256 && k > 0
    ensures LittleEndian(n, k) == [n] + seq(k - 1, i => 0)
  {
    ZeroNumber(k - 1);
  }

  lemma {:induction false} ZeroNumber(k: nat)
    ensures LittleEndian(0, k) == seq(k, i => 0)
  {
    if k > 0 { ZeroNumber(k - 1); }
  }

  /** The number of files in eight bytes, then the name behind its length in four and the size in
      eight, then the contents. */
  lemma DumpExample()
    ensures NamesAreBytes(Infos([Entry("a", [7, 8])]))
    ensures Dump([Entry("a", [7, 8])])
            == [1, 0, 0, 0, 0, 0, 0, 0] + [1, 0, 0, 0] + [97] + [2, 0, 0, 0, 0, 0, 0, 0] + [7, 8]
  {
    hide LittleEndian;
    var e := Entry("a", [7, 8]);
    assert Infos([e])[0] == Info("a", 2) && Infos([e])[1..] == [];
    assert [e][1..] == [];
    SmallNumber(1, 8);
    SmallNumber(1, 4);
    SmallNumber(2, 8);
    assert ToBytes("a") == [97];
  }

  // ----- files by name -----

  /** The first file of that name. */
  function Found(entries: seq<Entry>, filename: string): (r: Result<Entry>)
    ensures r.Failure? <==> forall i :: 0 <= i < |entries| ==> entries[i].filename != filename
    ensures r.Success? ==> exists i :: 0 <= i < |entries| && entries[i] == r.value && r.value.filename == filename
                                       && forall k :: 0 <= k < i ==> entries[k].filename != filename
  {
    if entries == [] then Failure
    else if entries[0].filename == filename then Success(entries[0])
    else
      var r := Found(entries[1..], filename);
      assert entries == [entries[0]] + entries[1..];
      assert r.Failure? ==> forall i :: 0 < i < |entries| ==> entries[i] == entries[1..][i - 1];
      r
  }

  /** A file that is added at the end is found by its name unless an older one has that name; what
      was found before is found again. */
  lemma {:induction false} FoundAfterAdding(entries: seq<Entry>, e: Entry, filename: string)
    ensures Found(entries + [e], filename)
            == if Found(entries, filename).Success? then Found(entries, filename)
               else if e.filename == filename then Success(e) else Failure
  {
    if entries == [] {
      assert entries + [e] == [e] && [e][1..] == [];
    } else {
      FoundAfterAdding(entries[1..], e, filename);
      assert (entries + [e])[1..] == entries[1..] + [e];
    }
  }

  // ----- the program -----

  class Pack {
    var entries: seq<Entry>

    constructor ()
      ensures entries == []
    {
      entries := [];
    }

    method AddFile(filename: string, data: seq<byte>)
      modifies this
      ensures entries == old(entries) + [Entry(filename, data)]
      ensures forall name :: Found(entries, name)
                == if Found(old(entries), name).Success? then Found(old(entries), name)
                   else if name == filename then Success(Entry(filename, data)) else Failure
    {
      hide Found;
      forall name {
        FoundAfterAdding(entries, Entry(filename, data), name);
      }
      entries := entries + [Entry(filename, data)];
    }

    method GetFile(filename: string) returns (r: Result<Entry>)
      ensures r == Found(entries, filename)
      ensures r.Failure? <==> forall i :: 0 <= i < |entries| ==> entries[i].filename != filename
      ensures r.Success? ==> exists i :: 0 <= i < |entries| && entries[i] == r.value && r.value.filename == filename
                                         && forall k :: 0 <= k < i ==> entries[k].filename != filename
    {
      var i := 0;
      while i < |entries|
        invariant i <= |entries| && forall k :: 0 <= k < i ==> entries[k].filename != filename
        invariant Found(entries, filename) == Found(entries[i..], filename)
      {
        assert entries[i..][0] == entries[i] && entries[i..][1..] == entries[i + 1..];
        if entries[i].filename == filename {
          return Success(entries[i]);
        }
        i := i + 1;
      }
      r := Failure;
    }

    /** `dump`: the table of contents in one loop, the contents in another. */
    method DumpTo(data: Buffer)
      requires data.Valid() && NamesAreBytes(Infos(entries))
      modifies data`data
      ensures data.Valid() && data.data == old(data.data) + Dump(entries)
    {
      hide StringBytes, LittleEndian, InfosBytes, Contents, IsBytes, Infos;
      ghost var start := data.data;
      data.AppendInt(|entries|, 8);
      ghost var infos := Infos(entries);
      InfosAtEntries(entries);
      DumpEnds(infos, entries);
      var i := 0;
      ghost var table := data.data;
      while i < |entries|
        invariant i <= |entries| && data.Valid()
        invariant data.data + InfosBytes(infos[i..]) == table + InfosBytes(infos)
      {
        ghost var before := data.data;
        InfosStep(infos, i, before);
        assert IsBytes(infos[i].filename);
        data.AppendString(entries[i].filename);
        data.AppendInt(|entries[i].data|, 8);
        i := i + 1;
      }
      assert data.data + [] == data.data;
      i := 0;
      ghost var payload := data.data;
      while i < |entries|
        invariant i <= |entries| && data.Valid()
        invariant data.data + Contents(entries[i..]) == payload + Contents(entries)
      {
        ContentsStep(entries, i, data.data);
        data.AppendBytes(entries[i].data);
        i := i + 1;
      }
      assert data.data + [] == data.data;
      Joined(start, LittleEndian(|entries|, 8), InfosBytes(infos), Contents(entries));
    }

    /** `load` fills a new pack, which is dropped when the data cannot be read to its end. */
    method LoadFrom(data: Buffer) returns (ok: bool)
      requires data.Valid()
      modifies this, data`readPointer
      ensures data.Valid()
      ensures match Load(data.data, old(data.readPointer))
              case Got(files, next) => ok && entries == files && data.readPointer == next
              case OutOfRange => !ok
    {
      hide ReadInfo, ReadInfos, ReadContents;
      var count := data.TakeInt(8);
      if count.Failure? {
        return false;
      }
      ghost var table := data.readPointer;
      ok := true;
      var infos: seq<Info> := [];
      var i := 0;
      InfosNone(data.data, table, count.value);
      while i < count.value
        invariant i <= count.value && data.Valid()
        invariant Prepended(infos, ReadInfos(data.data, data.readPointer, count.value - i)) == ReadInfos(data.data, table, count.value)
      {
        InfosNext(data.data, data.readPointer, count.value - i, infos);
        var filename := data.TakeString();
        if filename.Failure? {
          return false;
        }
        var size := data.TakeInt(8);
        if size.Failure? {
          return false;
        }
        infos := infos + [Info(filename.value, size.value)];
        i := i + 1;
      }
      InfosNone(data.data, data.readPointer, 0);
      ghost var payload := data.readPointer;
      assert infos + [] == infos;
      assert ReadInfos(data.data, table, count.value) == Got(infos, payload);
      ok := LoadContents(data, infos);
    }

    method LoadContents(data: Buffer, infos: seq<Info>) returns (ok: bool)
      requires data.Valid()
      modifies this, data`readPointer
      ensures data.Valid()
      ensures match ReadContents(data.data, old(data.readPointer), infos)
              case Got(files, next) => ok && entries == files && data.readPointer == next
              case OutOfRange => !ok
    {
      hide ReadContents;
      entries := [];
      var i := 0;
      ContentsNone(data.data, data.readPointer, infos);
      while i < |infos|
        invariant i <= |infos| && data.Valid()
        invariant Prepended(entries, ReadContents(data.data, data.readPointer, infos[i..]))
                  == ReadContents(data.data, old(data.readPointer), infos)
      {
        ContentsNext(data.data, data.readPointer, infos, i, entries);
        var bytes := data.TakeBytes(infos[i].size);
        if bytes.Failure? {
          return false;
        }
        entries := entries + [Entry(infos[i].filename, bytes.value)];
        i := i + 1;
      }
      ContentsNone(data.data, data.readPointer, infos);
      assert entries + [] == entries;
      ok := true;
    }
  }

  function Prepended<T>(front: seq<T>, r: Read<seq<T>>): Read<seq<T>> {
    match r
    case OutOfRange => OutOfRange
    case Got(more, next) => Got(front + more, next)
  }

  lemma InfosNone(data: seq<byte>, pos: nat, count: nat)
    ensures ReadInfos(data, pos, 0) == Got([], pos)
    ensures Prepended([], ReadInfos(data, pos, count)) == ReadInfos(data, pos, count)
  {
    var r := ReadInfos(data, pos, count);
    if r.Got? { assert [] + r.value == r.value; }
  }

  lemma InfosNext(data: seq<byte>, pos: nat, count: nat, front: seq<Info>)
    requires count > 0
    ensures Prepended(front, ReadInfos(data, pos, count)) ==
      match ReadInfo(data, pos)
      case OutOfRange => OutOfRange
      case Got(info, next) => Prepended(front + [info], ReadInfos(data, next, count - 1))
    ensures ReadInfo(data, pos) ==
      match ReadString(data, pos)
      case OutOfRange => OutOfRange
      case Got(name, p) =>
        match ReadInt(data, p, 8)
        case OutOfRange => OutOfRange
        case Got(size, q) => Got(Info(name, size), q)
  {
    hide ReadString, ReadInt;
    var first := ReadInfo(data, pos);
    if first.Got? {
      var more := ReadInfos(data, first.next, count - 1);
      if more.Got? { assert front + ([first.value] + more.value) == front + [first.value] + more.value; }
    }
  }

  lemma ContentsNone(data: seq<byte>, pos: nat, infos: seq<Info>)
    ensures infos[0..] == infos && infos[|infos|..] == []
    ensures ReadContents(data, pos, []) == Got([], pos)
    ensures Prepended([], ReadContents(data, pos, infos)) == ReadContents(data, pos, infos)
  {
    var r := ReadContents(data, pos, infos);
    if r.Got? { assert [] + r.value == r.value; }
  }

  lemma ContentsNext(data: seq<byte>, pos: nat, infos: seq<Info>, i: nat, front: seq<Entry>)
    requires i < |infos|
    ensures Prepended(front, ReadContents(data, pos, infos[i..])) ==
      match ReadBytes(data, pos, infos[i].size)
      case OutOfRange => OutOfRange
      case Got(bytes, next) =>
        Prepended(front + [Entry(infos[i].filename, bytes)], ReadContents(data, next, infos[i + 1..]))
  {
    assert infos[i..][0] == infos[i] && infos[i..][1..] == infos[i + 1..];
    var first := ReadBytes(data, pos, infos[i].size);
    if first.Got? {
      var e := Entry(infos[i].filename, first.value);
      var more := ReadContents(data, first.next, infos[i + 1..]);
      if more.Got? { assert front + ([e] + more.value) == front + [e] + more.value; }
    }
  }

  lemma Joined(a: seq<byte>, b: seq<byte>, c: seq<byte>, d: seq<byte>)
    ensures a + b + c + d == a + (b + c + d)
  {}

  lemma InfosAtEntries(entries: seq<Entry>)
    ensures forall i :: 0 <= i < |entries| ==> Infos(entries)[i] == Info(entries[i].filename, |entries[i].data|)
  {}

  lemma DumpEnds(infos: seq<Info>, entries: seq<Entry>)
    requires |infos| == |entries| && NamesAreBytes(infos)
    ensures infos[0..] == infos && infos[|infos|..] == [] && InfosBytes([]) == []
    ensures entries[0..] == entries && entries[|entries|..] == [] && Contents([]) == []
  {}

  lemma InfosStep(infos: seq<Info>, i: nat, front: seq<byte>)
    requires i < |infos| && NamesAreBytes(infos)
    ensures front + InfosBytes(infos[i..])
            == front + StringBytes(infos[i].filename) + LittleEndian(infos[i].size, 8) + InfosBytes(infos[i + 1..])
  {
    hide StringBytes, LittleEndian;
    assert infos[i..][0] == infos[i] && infos[i..][1..] == infos[i + 1..];
    var (a, b, c) := (StringBytes(infos[i].filename), LittleEndian(infos[i].size, 8), InfosBytes(infos[i + 1..]));
    assert front + (a + b + c) == front + a + b + c;
  }

  lemma ContentsStep(entries: seq<Entry>, i: nat, front: seq<byte>)
    requires i < |entries|
    ensures front + Contents(entries[i..]) == front + entries[i].data + Contents(entries[i + 1..])
  {
    assert entries[i..][0] == entries[i] && entries[i..][1..] == entries[i + 1..];
    assert front + (entries[i].data + Contents(entries[i + 1..])) == front + entries[i].data + Contents(entries[i + 1..]);
  }
}
