/** The block cipher as it runs: a state array changed in place round by round, and round keys
    expanded into one buffer. */
module AesCipher {
  import opened AesTables
  import opened AesRounds
  import opened AesBlock

  method SubBytesInPlace(state: array<bv8>)
    requires state.Length == 16
    modifies state
    ensures state[..] == SubBytes(old(state[..]))
  {
    hide Sbox;
    for i := 0 to 16
      invariant forall k :: 0 <= k < i ==> state[k] == Sbox(old(state[k]))
      invariant forall k :: i <= k < 16 ==> state[k] == old(state[k])
    {
      state[i] := Sbox(state[i]);
    }
  }

  method InvSubBytesInPlace(state: array<bv8>)
    requires state.Length == 16
    modifies state
    ensures state[..] == InvSubBytes(old(state[..]))
  {
    hide InvSbox;
    for i := 0 to 16
      invariant forall k :: 0 <= k < i ==> state[k] == InvSbox(old(state[k]))
      invariant forall k :: i <= k < 16 ==> state[k] == old(state[k])
    {
      state[i] := InvSbox(state[i]);
    }
  }

  /** w, x, y, z take what x, y, z, w held. */
  function Cycled(s: Block, w: nat, x: nat, y: nat, z: nat): Block
    requires w < 16 && x < 16 && y < 16 && z < 16
  {
    s[w := s[x]][x := s[y]][y := s[z]][z := s[w]]
  }

  function Swapped(s: Block, x: nat, y: nat): Block
    requires x < 16 && y < 16
  {
    s[x := s[y]][y := s[x]]
  }

  method Cycle(state: array<bv8>, w: nat, x: nat, y: nat, z: nat)
    requires state.Length == 16 && w < 16 && x < 16 && y < 16 && z < 16
    requires w != x && w != y && w != z && x != y && x != z && y != z
    modifies state
    ensures state[..] == Cycled(old(state[..]), w, x, y, z)
  {
    var t := state[w];
    state[w] := state[x];
    state[x] := state[y];
    state[y] := state[z];
    state[z] := t;
  }

  method Swap(state: array<bv8>, x: nat, y: nat)
    requires state.Length == 16 && x < 16 && y < 16 && x != y
    modifies state
    ensures state[..] == Swapped(old(state[..]), x, y)
  {
    var t := state[x];
    state[x] := state[y];
    state[y] := t;
  }

  lemma ShiftRowsBySteps(s: Block)
    ensures Cycled(Swapped(Swapped(Cycled(s, 1, 5, 9, 13), 2, 10), 6, 14), 15, 11, 7, 3) == ShiftRows(s)
  {}

  method ShiftRowsInPlace(state: array<bv8>)
    requires state.Length == 16
    modifies state
    ensures state[..] == ShiftRows(old(state[..]))
  {
    hide Cycled, Swapped, ShiftRows;
    ShiftRowsBySteps(state[..]);
    Cycle(state, 1, 5, 9, 13);
    Swap(state, 2, 10);
    Swap(state, 6, 14);
    Cycle(state, 15, 11, 7, 3);
  }

  lemma InvShiftRowsBySteps(s: Block)
    ensures Cycled(Swapped(Swapped(Cycled(s, 13, 9, 5, 1), 2, 10), 6, 14), 3, 7, 11, 15) == InvShiftRows(s)
  {}

  method InvShiftRowsInPlace(state: array<bv8>)
    requires state.Length == 16
    modifies state
    ensures state[..] == InvShiftRows(old(state[..]))
  {
    hide Cycled, Swapped, InvShiftRows;
    InvShiftRowsBySteps(state[..]);
    Cycle(state, 13, 9, 5, 1);
    Swap(state, 2, 10);
    Swap(state, 6, 14);
    Cycle(state, 3, 7, 11, 15);
  }

  /** Replaces the column that starts at `i`. */
  method SetColumn(state: array<bv8>, i: nat, column: seq<bv8>)
    requires state.Length == 16 && i <= 12 && |column| == 4
    modifies state
    ensures state[..] == old(state[..i]) + column + old(state[i + 4..])
  {
    state[i] := column[0];
    state[i + 1] := column[1];
    state[i + 2] := column[2];
    state[i + 3] := column[3];
  }

  /** The first `c` columns mixed. */
  function MixedUpTo(s: Block, c: nat): Block
    requires c <= 4
  {
    if c == 0 then s
    else
      var (before, i) := (MixedUpTo(s, c - 1), 4 * (c - 1));
      before[..i] + MixColumn(s[i], s[i + 1], s[i + 2], s[i + 3]) + before[i + 4..]
  }

  lemma {:induction false} RestUnmixed(s: Block, c: nat)
    requires c <= 4
    ensures forall k :: 4 * c <= k < 16 ==> MixedUpTo(s, c)[k] == s[k]
  {
    hide MixColumn;
    if c > 0 {
      RestUnmixed(s, c - 1);
    }
  }

  lemma MixedNext(s: Block, c: nat, done: seq<bv8>)
    requires c < 4 && |done| == 4 * c && MixedUpTo(s, c) == done + s[4 * c..]
    ensures MixedUpTo(s, c + 1)
            == done + MixColumn(s[4 * c], s[4 * c + 1], s[4 * c + 2], s[4 * c + 3]) + s[4 * (c + 1)..]
  {
    hide MixColumn;
    var before := done + s[4 * c..];
    assert before[..4 * c] == done && before[4 * c + 4..] == s[4 * (c + 1)..];
  }

  lemma AllMixed(s: Block)
    ensures MixedUpTo(s, 4) == MixColumns(s)
  {
    hide MixColumn, MixedUpTo;
    var m0 := MixColumn(s[0], s[1], s[2], s[3]);
    var m1 := MixColumn(s[4], s[5], s[6], s[7]);
    var m2 := MixColumn(s[8], s[9], s[10], s[11]);
    NoneMixed(s);
    MixedNext(s, 0, []);
    assert [] + m0 == m0;
    MixedNext(s, 1, m0);
    MixedNext(s, 2, m0 + m1);
    MixedNext(s, 3, m0 + m1 + m2);
    assert s[16..] == [];
  }

  lemma NoneMixed(s: Block)
    ensures MixedUpTo(s, 0) == [] + s[0..]
  {}

  method MixColumnsInPlace(state: array<bv8>)
    requires state.Length == 16
    modifies state
    ensures state[..] == MixColumns(old(state[..]))
  {
    hide MixColumn, Xor4, Mul2, Mul3, Mul9, Mul11, Mul13, Mul14;
    ghost var s := state[..];
    for c := 0 to 4
      invariant state[..] == MixedUpTo(s, c)
    {
      RestUnmixed(s, c);
      var i := c * 4;
      var (a0, a1, a2, a3) := (state[i], state[i + 1], state[i + 2], state[i + 3]);
      var column := [Xor4(Mul2(a0), Mul3(a1), a2, a3), Xor4(a0, Mul2(a1), Mul3(a2), a3),
                     Xor4(a0, a1, Mul2(a2), Mul3(a3)), Xor4(Mul3(a0), a1, a2, Mul2(a3))];
      MixColumnRows(a0, a1, a2, a3);
      SetColumn(state, i, column);
    }
    AllMixed(s);
  }

  lemma MixColumnRows(a0: bv8, a1: bv8, a2: bv8, a3: bv8)
    ensures MixColumn(a0, a1, a2, a3)
            == [Xor4(Mul2(a0), Mul3(a1), a2, a3), Xor4(a0, Mul2(a1), Mul3(a2), a3),
                Xor4(a0, a1, Mul2(a2), Mul3(a3)), Xor4(Mul3(a0), a1, a2, Mul2(a3))]
  {
    hide Xor4, Mul2, Mul3;
    Rotate(Mul2(a1), Mul3(a2), a3, a0);
    Rotate(Mul2(a2), Mul3(a3), a0, a1);
    Rotate(Mul2(a3), Mul3(a0), a1, a2);
  }

  /** The first `c` columns mixed. */
  function InvMixedUpTo(s: Block, c: nat): Block
    requires c <= 4
  {
    if c == 0 then s
    else
      var (before, i) := (InvMixedUpTo(s, c - 1), 4 * (c - 1));
      before[..i] + InvMixColumn(s[i], s[i + 1], s[i + 2], s[i + 3]) + before[i + 4..]
  }

  lemma {:induction false} InvRestUnmixed(s: Block, c: nat)
    requires c <= 4
    ensures forall k :: 4 * c <= k < 16 ==> InvMixedUpTo(s, c)[k] == s[k]
  {
    hide InvMixColumn;
    if c > 0 {
      InvRestUnmixed(s, c - 1);
    }
  }

  lemma InvMixedNext(s: Block, c: nat, done: seq<bv8>)
    requires c < 4 && |done| == 4 * c && InvMixedUpTo(s, c) == done + s[4 * c..]
    ensures InvMixedUpTo(s, c + 1)
            == done + InvMixColumn(s[4 * c], s[4 * c + 1], s[4 * c + 2], s[4 * c + 3]) + s[4 * (c + 1)..]
  {
    hide InvMixColumn;
    var before := done + s[4 * c..];
    assert before[..4 * c] == done && before[4 * c + 4..] == s[4 * (c + 1)..];
  }

  lemma InvAllMixed(s: Block)
    ensures InvMixedUpTo(s, 4) == InvMixColumns(s)
  {
    hide InvMixColumn, InvMixedUpTo;
    var m0 := InvMixColumn(s[0], s[1], s[2], s[3]);
    var m1 := InvMixColumn(s[4], s[5], s[6], s[7]);
    var m2 := InvMixColumn(s[8], s[9], s[10], s[11]);
    InvNoneMixed(s);
    InvMixedNext(s, 0, []);
    assert [] + m0 == m0;
    InvMixedNext(s, 1, m0);
    InvMixedNext(s, 2, m0 + m1);
    InvMixedNext(s, 3, m0 + m1 + m2);
    assert s[16..] == [];
  }

  lemma InvNoneMixed(s: Block)
    ensures InvMixedUpTo(s, 0) == [] + s[0..]
  {}

  method InvMixColumnsInPlace(state: array<bv8>)
    requires state.Length == 16
    modifies state
    ensures state[..] == InvMixColumns(old(state[..]))
  {
    hide InvMixColumn, Xor4, Mul2, Mul3, Mul9, Mul11, Mul13, Mul14;
    ghost var s := state[..];
    for c := 0 to 4
      invariant state[..] == InvMixedUpTo(s, c)
    {
      InvRestUnmixed(s, c);
      var i := c * 4;
      var (a0, a1, a2, a3) := (state[i], state[i + 1], state[i + 2], state[i + 3]);
      var column := [Xor4(Mul14(a0), Mul11(a1), Mul13(a2), Mul9(a3)), Xor4(Mul9(a0), Mul14(a1), Mul11(a2), Mul13(a3)),
                     Xor4(Mul13(a0), Mul9(a1), Mul14(a2), Mul11(a3)), Xor4(Mul11(a0), Mul13(a1), Mul9(a2), Mul14(a3))];
      InvMixColumnRows(a0, a1, a2, a3);
      SetColumn(state, i, column);
    }
    InvAllMixed(s);
  }

  lemma InvMixColumnRows(a0: bv8, a1: bv8, a2: bv8, a3: bv8)
    ensures InvMixColumn(a0, a1, a2, a3)
            == [Xor4(Mul14(a0), Mul11(a1), Mul13(a2), Mul9(a3)), Xor4(Mul9(a0), Mul14(a1), Mul11(a2), Mul13(a3)),
                Xor4(Mul13(a0), Mul9(a1), Mul14(a2), Mul11(a3)), Xor4(Mul11(a0), Mul13(a1), Mul9(a2), Mul14(a3))]
  {
    hide Xor4, Mul9, Mul11, Mul13, Mul14;
    Rotate(Mul14(a1), Mul11(a2), Mul13(a3), Mul9(a0));
    Rotate(Mul14(a2), Mul11(a3), Mul13(a0), Mul9(a1));
    Rotate(Mul14(a3), Mul11(a0), Mul13(a1), Mul9(a2));
  }

  method AddRoundKey(state: array<bv8>, rk: array<bv8>, offset: nat)
    requires state.Length == 16 && state != rk && offset + 16 <= rk.Length
    modifies state
    ensures state[..] == AddKey(old(state[..]), rk[offset..offset + 16])
  {
    hide Xor;
    for i := 0 to 16
      invariant forall k :: 0 <= k < i ==> state[k] == Xor(old(state[k]), rk[offset + k])
      invariant forall k :: i <= k < 16 ==> state[k] == old(state[k])
    {
      state[i] := Xor(state[i], rk[offset + i]);
    }
  }

  // ----- key expansion and blocks -----

  /** Expands a key word by word into a buffer of `4 * (rounds + 1)` words. */
  method ExpandKeyInPlace(key: seq<bv8>, rk: array<bv8>)
    requires ValidKey(key) && rk.Length == 16 * (RoundCount(key) + 1)
    modifies rk
    ensures rk[..] == Schedule(key, 4 * (RoundCount(key) + 1))
  {
    hide Schedule;
    var nk := |key| / 4;
    var total := 4 * (RoundCount(key) + 1);
    CopyKey(key, rk);
    ScheduleStart(key);
    for i := nk to total
      invariant rk[..4 * i] == Schedule(key, i)
    {
      NextWord(key, rk, i);
    }
    assert rk[..] == rk[..4 * total];
  }

  method CopyKey(key: seq<bv8>, rk: array<bv8>)
    requires |key| <= rk.Length
    modifies rk
    ensures rk[..|key|] == key
  {
    for i := 0 to |key|
      invariant rk[..i] == key[..i]
    {
      rk[i] := key[i];
    }
    assert key[..|key|] == key;
  }

  lemma ScheduleStart(key: seq<bv8>)
    requires ValidKey(key)
    ensures Schedule(key, |key| / 4) == key
  {}

  /** The word at position i from the one before it and the one a key length before it. */
  method NextWord(key: seq<bv8>, rk: array<bv8>, i: nat)
    requires ValidKey(key) && |key| / 4 <= i < 4 * (RoundCount(key) + 1) && 4 * i + 4 <= rk.Length
    requires rk[..4 * i] == Schedule(key, i)
    modifies rk
    ensures rk[..4 * (i + 1)] == Schedule(key, i + 1)
  {
    hide Xor, ScheduleWord;
    var nk := |key| / 4;
    ghost var prev := rk[..4 * i];
    ScheduleBound(nk, i);
    var temp := NextTemp(rk[4 * (i - 1)..4 * i], i, nk);
    assert rk[4 * (i - 1)..4 * i] == prev[4 * (i - 1)..];
    WriteWord(rk, i, i - nk, temp);
  }

  /** Writes the sum of the word at `from` and `temp` behind the first `i` words. */
  method WriteWord(rk: array<bv8>, i: nat, from: nat, temp: seq<bv8>)
    requires |temp| == 4 && from < i && 4 * i + 4 <= rk.Length
    modifies rk
    ensures rk[..4 * (i + 1)]
            == old(rk[..4 * i]) + seq(4, j requires 0 <= j < 4 => Xor(old(rk[4 * from + j]), temp[j]))
  {
    hide Xor;
    for j := 0 to 4
      invariant rk[..4 * i] == old(rk[..4 * i])
      invariant forall k :: 0 <= k < j ==> rk[4 * i + k] == Xor(old(rk[4 * from + k]), temp[k])
    {
      assert rk[4 * from + j] == rk[..4 * i][4 * from + j];
      rk[4 * i + j] := Xor(rk[4 * from + j], temp[j]);
    }
  }

  /** The temporary word, changed step by step. */
  method NextTemp(word: seq<bv8>, i: nat, nk: nat) returns (temp: seq<bv8>)
    requires |word| == 4 && 0 < nk && i / nk < |RCON|
    ensures temp == ScheduleWord(word, i, nk)
  {
    hide Sbox, Xor;
    temp := word;
    if i % nk == 0 {
      var t := temp[0];
      temp := [temp[1], temp[2], temp[3], t];
      temp := [Sbox(temp[0]), Sbox(temp[1]), Sbox(temp[2]), Sbox(temp[3])];
      temp := temp[0 := Xor(temp[0], RCON[i / nk])];
    } else if nk > 6 && i % nk == 4 {
      temp := [Sbox(temp[0]), Sbox(temp[1]), Sbox(temp[2]), Sbox(temp[3])];
    }
  }

  /** The buffer of round keys, cut into blocks. */
  function KeysOf(rk: seq<bv8>): (k: RoundKeys)
    requires |rk| % 16 == 0 && |rk| > 16
    ensures LastRound(k) == |rk| / 16 - 1
  {
    seq(|rk| / 16, r requires 0 <= r < |rk| / 16 => rk[16 * r..16 * r + 16])
  }

  method EncryptBlk(pt: Block, rk: array<bv8>, nround: nat) returns (ct: Block)
    requires nround > 0 && rk.Length == 16 * (nround + 1)
    ensures ct == EncryptBlock(pt, KeysOf(rk[..]))
  {
    hide AddKey, SubBytes, ShiftRows, MixColumns, KeysOf;
    ghost var k := KeysOf(rk[..]);
    var state := new bv8[16](i requires 0 <= i < 16 => pt[i]);
    assert state[..] == pt;
    KeyAt(rk, 0);
    AddRoundKey(state, rk, 0);
    for r := 1 to nround
      invariant state[..] == Rounds(pt, k, r - 1)
    {
      SubBytesInPlace(state);
      ShiftRowsInPlace(state);
      MixColumnsInPlace(state);
      KeyAt(rk, r);
      AddRoundKey(state, rk, r * 16);
    }
    SubBytesInPlace(state);
    ShiftRowsInPlace(state);
    KeyAt(rk, nround);
    AddRoundKey(state, rk, nround * 16);
    ct := state[..];
  }

  lemma KeyAt(rk: array<bv8>, r: nat)
    requires rk.Length % 16 == 0 && rk.Length > 16 && 16 * r < rk.Length
    ensures KeysOf(rk[..])[r] == rk[16 * r..16 * r + 16]
  {}

  method DecryptBlk(ct: Block, rk: array<bv8>, nround: nat) returns (pt: Block)
    requires nround > 0 && rk.Length == 16 * (nround + 1)
    ensures pt == DecryptBlock(ct, KeysOf(rk[..]))
  {
    hide AddKey, InvSubBytes, InvShiftRows, InvMixColumns, KeysOf;
    ghost var k := KeysOf(rk[..]);
    var state := new bv8[16](i requires 0 <= i < 16 => ct[i]);
    assert state[..] == ct;
    KeyAt(rk, nround);
    AddRoundKey(state, rk, nround * 16);
    var r := nround;
    while r > 1
      invariant 1 <= r <= nround
      invariant state[..] == InvRounds(ct, k, r)
    {
      r := r - 1;
      InvShiftRowsInPlace(state);
      InvSubBytesInPlace(state);
      KeyAt(rk, r);
      AddRoundKey(state, rk, r * 16);
      InvMixColumnsInPlace(state);
    }
    InvShiftRowsInPlace(state);
    InvSubBytesInPlace(state);
    KeyAt(rk, 0);
    AddRoundKey(state, rk, 0);
    pt := state[..];
  }
}
