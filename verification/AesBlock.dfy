/** The block cipher: round functions on a state of sixteen bytes, key schedule, and the rounds. */
module AesBlock {
  import opened AesTables
  import opened AesRounds

  type Block = s: seq<bv8> | |s| == 16 witness seq(16, i => 0)

  // ----- what the round functions compute -----

  function SubBytes(s: Block): Block {
    seq(16, i requires 0 <= i < 16 => Sbox(s[i]))
  }

  function InvSubBytes(s: Block): Block {
    seq(16, i requires 0 <= i < 16 => InvSbox(s[i]))
  }

  /** Byte r of a column belongs to row r; row r moves r columns to the left. */
  function ShiftRows(s: Block): Block {
    [s[0], s[5], s[10], s[15], s[4], s[9], s[14], s[3], s[8], s[13], s[2], s[7], s[12], s[1], s[6], s[11]]
  }

  function InvShiftRows(s: Block): Block {
    [s[0], s[13], s[10], s[7], s[4], s[1], s[14], s[11], s[8], s[5], s[2], s[15], s[12], s[9], s[6], s[3]]
  }

  /** Section 5.1.2 in its own terms. */
  lemma ShiftRowsByColumn(s: Block, c: nat, r: nat)
    requires c < 4 && r < 4
    ensures ShiftRows(s)[4 * c + r] == s[4 * ((c + r) % 4) + r]
  {
    if c == 0 {
    } else if c == 1 {
    } else if c == 2 {
    } else {
    }
  }

  function MixColumn(a: bv8, b: bv8, c: bv8, d: bv8): (r: seq<bv8>)
    ensures |r| == 4
  {
    [Mix(a, b, c, d), Mix(b, c, d, a), Mix(c, d, a, b), Mix(d, a, b, c)]
  }

  function InvMixColumn(a: bv8, b: bv8, c: bv8, d: bv8): (r: seq<bv8>)
    ensures |r| == 4
  {
    [InvMix(a, b, c, d), InvMix(b, c, d, a), InvMix(c, d, a, b), InvMix(d, a, b, c)]
  }

  function MixColumns(s: Block): Block {
    MixColumn(s[0], s[1], s[2], s[3]) + MixColumn(s[4], s[5], s[6], s[7])
    + MixColumn(s[8], s[9], s[10], s[11]) + MixColumn(s[12], s[13], s[14], s[15])
  }

  function InvMixColumns(s: Block): Block {
    InvMixColumn(s[0], s[1], s[2], s[3]) + InvMixColumn(s[4], s[5], s[6], s[7])
    + InvMixColumn(s[8], s[9], s[10], s[11]) + InvMixColumn(s[12], s[13], s[14], s[15])
  }

  function AddKey(s: Block, k: Block): Block {
    seq(16, i requires 0 <= i < 16 => Xor(s[i], k[i]))
  }

  // ----- each one is undone by its inverse -----

  lemma SubBytesInverse(s: Block)
    ensures InvSubBytes(SubBytes(s)) == s && SubBytes(InvSubBytes(s)) == s
  {
    hide Sbox, InvSbox;
    forall i | 0 <= i < 16 ensures InvSbox(Sbox(s[i])) == s[i] && Sbox(InvSbox(s[i])) == s[i] {
      TablesInverse(s[i]);
    }
  }

  lemma ShiftRowsInverse(s: Block)
    ensures InvShiftRows(ShiftRows(s)) == s && ShiftRows(InvShiftRows(s)) == s
  {}

  lemma MixColumnInverse(a: bv8, b: bv8, c: bv8, d: bv8)
    ensures var m := MixColumn(a, b, c, d); InvMixColumn(m[0], m[1], m[2], m[3]) == [a, b, c, d]
    ensures var m := InvMixColumn(a, b, c, d); MixColumn(m[0], m[1], m[2], m[3]) == [a, b, c, d]
  {
    hide Mix, InvMix;
    MixInverse(a, b, c, d);
    MixInverse(b, c, d, a);
    MixInverse(c, d, a, b);
    MixInverse(d, a, b, c);
  }

  lemma Columns(s: Block)
    ensures s == [s[0], s[1], s[2], s[3]] + [s[4], s[5], s[6], s[7]]
                 + [s[8], s[9], s[10], s[11]] + [s[12], s[13], s[14], s[15]]
  {}

  lemma MixColumnsInverse(s: Block)
    ensures InvMixColumns(MixColumns(s)) == s
  {
    hide MixColumn, InvMixColumn;
    MixColumnInverse(s[0], s[1], s[2], s[3]);
    MixColumnInverse(s[4], s[5], s[6], s[7]);
    MixColumnInverse(s[8], s[9], s[10], s[11]);
    MixColumnInverse(s[12], s[13], s[14], s[15]);
    Columns(s);
  }

  lemma InvMixColumnsInverse(s: Block)
    ensures MixColumns(InvMixColumns(s)) == s
  {
    hide MixColumn, InvMixColumn;
    MixColumnInverse(s[0], s[1], s[2], s[3]);
    MixColumnInverse(s[4], s[5], s[6], s[7]);
    MixColumnInverse(s[8], s[9], s[10], s[11]);
    MixColumnInverse(s[12], s[13], s[14], s[15]);
    Columns(s);
  }

  lemma AddKeyInverse(s: Block, k: Block)
    ensures AddKey(AddKey(s, k), k) == s
  {
    hide Xor;
    forall i | 0 <= i < 16 ensures Xor(Xor(s[i], k[i]), k[i]) == s[i] {
      XorCancels(s[i], k[i]);
    }
  }

  // ----- the block cipher -----

  /** Round keys for rounds 0 to n. */
  const ZERO_BLOCK: Block := seq(16, i => 0)

  type RoundKeys = k: seq<Block> | |k| > 1 witness [ZERO_BLOCK, ZERO_BLOCK]

  function LastRound(k: RoundKeys): nat {
    |k| - 1
  }

  /** The state after the initial key addition and `r` full rounds. */
  function Rounds(s: Block, k: RoundKeys, r: nat): Block
    requires r <= LastRound(k)
  {
    if r == 0 then AddKey(s, k[0])
    else AddKey(MixColumns(ShiftRows(SubBytes(Rounds(s, k, r - 1)))), k[r])
  }

  /** The last round does not mix the columns. */
  function EncryptBlock(s: Block, k: RoundKeys): Block {
    var n := LastRound(k);
    AddKey(ShiftRows(SubBytes(Rounds(s, k, n - 1))), k[n])
  }

  /** The state of the decryption once it has gone down to round `r`. */
  function InvRounds(s: Block, k: RoundKeys, r: nat): Block
    requires r <= LastRound(k)
    decreases LastRound(k) - r
  {
    if r == LastRound(k) then AddKey(s, k[r])
    else InvMixColumns(AddKey(InvSubBytes(InvShiftRows(InvRounds(s, k, r + 1))), k[r]))
  }

  function DecryptBlock(s: Block, k: RoundKeys): Block {
    AddKey(InvSubBytes(InvShiftRows(InvRounds(s, k, 1))), k[0])
  }

  /** At round `r`, the decryption of an encrypted block has the state that round r shifted. */
  lemma {:induction false} DecryptionRetraces(s: Block, k: RoundKeys, r: nat)
    requires 0 < r <= LastRound(k)
    ensures InvRounds(EncryptBlock(s, k), k, r) == ShiftRows(SubBytes(Rounds(s, k, r - 1)))
    decreases LastRound(k) - r
  {
    hide AddKey, ShiftRows, SubBytes, MixColumns, InvShiftRows, InvSubBytes, InvMixColumns;
    var before := Rounds(s, k, r - 1);
    if r == LastRound(k) {
      AddKeyInverse(ShiftRows(SubBytes(before)), k[r]);
    } else {
      DecryptionRetraces(s, k, r + 1);
      ShiftRowsInverse(SubBytes(Rounds(s, k, r)));
      SubBytesInverse(Rounds(s, k, r));
      AddKeyInverse(MixColumns(ShiftRows(SubBytes(before))), k[r]);
      MixColumnsInverse(ShiftRows(SubBytes(before)));
    }
  }

  /** Conversely, encrypting a decrypted block passes through the decryption's states. */
  lemma {:induction false} EncryptionRetraces(s: Block, k: RoundKeys, r: nat)
    requires r < LastRound(k)
    ensures Rounds(DecryptBlock(s, k), k, r) == InvSubBytes(InvShiftRows(InvRounds(s, k, r + 1)))
  {
    hide AddKey, ShiftRows, SubBytes, MixColumns, InvShiftRows, InvSubBytes, InvMixColumns;
    var after := InvSubBytes(InvShiftRows(InvRounds(s, k, r + 1)));
    if r == 0 {
      AddKeyInverse(after, k[0]);
    } else {
      EncryptionRetraces(s, k, r - 1);
      SubBytesInverse(InvShiftRows(InvRounds(s, k, r)));
      ShiftRowsInverse(InvRounds(s, k, r));
      InvMixColumnsInverse(AddKey(after, k[r]));
      AddKeyInverse(after, k[r]);
    }
  }

  /** Encryption and decryption of a block undo each other under any round keys. */
  lemma BlockInverse(s: Block, k: RoundKeys)
    ensures DecryptBlock(EncryptBlock(s, k), k) == s
    ensures EncryptBlock(DecryptBlock(s, k), k) == s
  {
    hide AddKey, ShiftRows, SubBytes, MixColumns, InvShiftRows, InvSubBytes, InvMixColumns;
    var n := LastRound(k);
    DecryptionRetraces(s, k, 1);
    ShiftRowsInverse(SubBytes(Rounds(s, k, 0)));
    SubBytesInverse(Rounds(s, k, 0));
    AddKeyInverse(s, k[0]);
    EncryptionRetraces(s, k, n - 1);
    SubBytesInverse(InvShiftRows(InvRounds(s, k, n)));
    ShiftRowsInverse(InvRounds(s, k, n));
    AddKeyInverse(s, k[n]);
  }

  // ----- the key schedule -----

  /** Rotation of a word by one byte. */
  function RotWord(w: seq<bv8>): seq<bv8>
    requires |w| == 4
  {
    [w[1], w[2], w[3], w[0]]
  }

  function SubWord(w: seq<bv8>): (r: seq<bv8>)
    requires |w| == 4
    ensures |r| == 4
  {
    [Sbox(w[0]), Sbox(w[1]), Sbox(w[2]), Sbox(w[3])]
  }

  /** What the word before position `i` turns into before it is added. */
  function ScheduleWord(w: seq<bv8>, i: nat, nk: nat): (r: seq<bv8>)
    requires |w| == 4 && 0 < nk && i / nk < |RCON|
    ensures |r| == 4
  {
    if i % nk == 0 then
      var t := SubWord(RotWord(w));
      [Xor(t[0], RCON[i / nk])] + t[1..]
    else if nk > 6 && i % nk == 4 then SubWord(w)
    else w
  }

  /** The first `n` words of the expanded key (section 5.2 of FIPS 197). */
  function Schedule(key: seq<bv8>, n: nat): (r: seq<bv8>)
    requires ValidKey(key) && |key| / 4 <= n <= |key| + 28
    ensures |r| == 4 * n
  {
    var nk := |key| / 4;
    if n == nk then key
    else
      var prev := Schedule(key, n - 1);
      ScheduleBound(nk, n - 1);
      var t := ScheduleWord(prev[4 * (n - 2)..], n - 1, nk);
      prev + seq(4, j requires 0 <= j < 4 => Xor(prev[4 * (n - 1 - nk) + j], t[j]))
  }

  /** Keys of 128, 192 and 256 bits. */
  predicate ValidKey(key: seq<bv8>) {
    |key| == 16 || |key| == 24 || |key| == 32
  }

  /** 10, 12 or 14 rounds. */
  function RoundCount(key: seq<bv8>): nat
    requires ValidKey(key)
  {
    |key| / 4 + 6
  }

  lemma ScheduleBound(nk: nat, i: nat)
    requires nk == 4 || nk == 6 || nk == 8
    requires i < 4 * nk + 28
    ensures i / nk < |RCON|
  {}

  /** The round keys cut out of the schedule. */
  function ExpandKey(key: seq<bv8>): (k: RoundKeys)
    requires ValidKey(key)
    ensures LastRound(k) == RoundCount(key)
  {
    var rk := Schedule(key, 4 * (RoundCount(key) + 1));
    seq(RoundCount(key) + 1, r requires 0 <= r <= RoundCount(key) => rk[16 * r..16 * r + 16])
  }

  function WordAt(s: seq<bv8>, i: nat): (w: seq<bv8>)
    requires 4 * i + 4 <= |s|
    ensures |w| == 4
  {
    s[4 * i..4 * i + 4]
  }

  function XorWord(a: seq<bv8>, b: seq<bv8>): (w: seq<bv8>)
    requires |a| == |b| == 4
    ensures |w| == 4
  {
    [Xor(a[0], b[0]), Xor(a[1], b[1]), Xor(a[2], b[2]), Xor(a[3], b[3])]
  }

  /** A shorter schedule is the beginning of a longer one, whose last word is computed from two others. */
  lemma ScheduleLast(key: seq<bv8>, n: nat)
    requires ValidKey(key) && |key| / 4 < n <= |key| + 28
    ensures var nk := |key| / 4; var s := Schedule(key, n);
            s[..4 * (n - 1)] == Schedule(key, n - 1)
            && (n - 1) / nk < |RCON|
            && WordAt(s, n - 1) == XorWord(WordAt(s, n - 1 - nk), ScheduleWord(WordAt(s, n - 2), n - 1, nk))
  {
    hide ScheduleWord, Xor, XorWord, WordAt;
    var nk := |key| / 4;
    var (prev, s) := (Schedule(key, n - 1), Schedule(key, n));
    ScheduleBound(nk, n - 1);
    var t := ScheduleWord(prev[4 * (n - 2)..], n - 1, nk);
    WordSum(prev, n - 1 - nk, t);
    LastWord(prev, XorWord(WordAt(prev, n - 1 - nk), t), n - 1);
    assert prev <= s;
    SameWord(prev, s, n - 2);
    SameWord(prev, s, n - 1 - nk);
    WordSlice(prev, n - 2);
  }

  lemma WordSum(prev: seq<bv8>, m: nat, t: seq<bv8>)
    requires 4 * m + 4 <= |prev| && |t| == 4
    ensures seq(4, j requires 0 <= j < 4 => Xor(prev[4 * m + j], t[j])) == XorWord(WordAt(prev, m), t)
  {
    hide Xor;
  }

  lemma WordSlice(prev: seq<bv8>, m: nat)
    requires |prev| == 4 * m + 4
    ensures WordAt(prev, m) == prev[4 * m..]
  {}

  lemma LastWord(prev: seq<bv8>, w: seq<bv8>, m: nat)
    requires |prev| == 4 * m && |w| == 4
    ensures WordAt(prev + w, m) == w
  {}

  /** The recurrence of section 5.2 of FIPS 197, for every word: the key comes first, and any other
      word is the one a key length before it plus what the word before it turns into. */
  lemma {:induction false} ScheduleRecurrence(key: seq<bv8>, n: nat, i: nat)
    requires ValidKey(key) && |key| / 4 <= n <= |key| + 28 && i < n
    ensures var nk := |key| / 4; var s := Schedule(key, n);
            if i < nk then WordAt(s, i) == WordAt(key, i)
            else i / nk < |RCON|
                 && WordAt(s, i) == XorWord(WordAt(s, i - nk), ScheduleWord(WordAt(s, i - 1), i, nk))
    decreases n
  {
    hide Schedule, ScheduleWord, XorWord;
    var nk := |key| / 4;
    if n == nk {
      ScheduleKey(key);
    } else {
      ScheduleLast(key, n);
      if i < n - 1 {
        ScheduleRecurrence(key, n - 1, i);
        var (p, s) := (Schedule(key, n - 1), Schedule(key, n));
        SameWord(p, s, i);
        if i >= nk {
          SameWord(p, s, i - nk);
          SameWord(p, s, i - 1);
        }
      }
    }
  }

  lemma ScheduleKey(key: seq<bv8>)
    requires ValidKey(key)
    ensures Schedule(key, |key| / 4) == key
  {}

  lemma SameWord(p: seq<bv8>, s: seq<bv8>, i: nat)
    requires p <= s && 4 * i + 4 <= |p|
    ensures WordAt(p, i) == WordAt(s, i)
  {}

  lemma XorWordCancels(a: seq<bv8>, b: seq<bv8>, t: seq<bv8>)
    requires |a| == |b| == |t| == 4 && XorWord(a, t) == XorWord(b, t)
    ensures a == b
  {
    hide Xor;
    forall j | 0 <= j < 4 ensures a[j] == b[j] {
      assert Xor(a[j], t[j]) == XorWord(a, t)[j] == XorWord(b, t)[j] == Xor(b[j], t[j]);
      XorCancels(a[j], t[j]);
      XorCancels(b[j], t[j]);
    }
  }

  /** The schedule can be run backwards: as many words in sequence as the key has determine the key. */
  lemma {:induction false} ScheduleReversible(a: seq<bv8>, b: seq<bv8>, n: nat)
    requires ValidKey(a) && |a| == |b| && |a| / 4 <= n <= |a| + 28
    requires forall i :: n - |a| / 4 <= i < n ==> WordAt(Schedule(a, n), i) == WordAt(Schedule(b, n), i)
    ensures a == b
    decreases n
  {
    hide Schedule, ScheduleWord, XorWord, WordAt;
    var nk := |a| / 4;
    if n == nk {
      ScheduleKey(a);
      ScheduleKey(b);
      SameWords(a, b, nk);
    } else {
      ScheduleLast(a, n);
      ScheduleLast(b, n);
      var (s, t) := (Schedule(a, n), Schedule(b, n));
      var (p, q) := (Schedule(a, n - 1), Schedule(b, n - 1));
      XorWordCancels(WordAt(s, n - 1 - nk), WordAt(t, n - 1 - nk), ScheduleWord(WordAt(s, n - 2), n - 1, nk));
      forall i | n - 1 - nk <= i < n - 1 ensures WordAt(p, i) == WordAt(q, i) {
        SameWord(p, s, i);
        SameWord(q, t, i);
        assert i == n - 1 - nk || WordAt(s, i) == WordAt(t, i);
      }
      ScheduleReversible(a, b, n - 1);
    }
  }

  lemma SameWords(a: seq<bv8>, b: seq<bv8>, nk: nat)
    requires |a| == |b| == 4 * nk && forall i :: 0 <= i < nk ==> WordAt(a, i) == WordAt(b, i)
    ensures a == b
  {
    forall k | 0 <= k < |a| ensures a[k] == b[k] {
      assert WordAt(a, k / 4)[k % 4] == a[k] && WordAt(b, k / 4)[k % 4] == b[k];
    }
  }

  lemma WordInBlock(s: seq<bv8>, k: nat, j: nat)
    requires 16 * k + 16 <= |s| && j < 4
    ensures WordAt(s, 4 * k + j) == s[16 * k..16 * k + 16][4 * j..4 * j + 4]
  {
    var (w, b) := (WordAt(s, 4 * k + j), s[16 * k..16 * k + 16]);
    assert forall x :: 0 <= x < 4 ==> w[x] == s[16 * k + 4 * j + x] == b[4 * j + x] == b[4 * j..4 * j + 4][x];
  }

  /** Different keys have different round keys; the last two rounds alone tell them apart. */
  lemma ExpandKeyInjective(a: seq<bv8>, b: seq<bv8>)
    requires ValidKey(a) && |a| == |b|
    requires var r := RoundCount(a); ExpandKey(a)[r - 1] == ExpandKey(b)[r - 1] && ExpandKey(a)[r] == ExpandKey(b)[r]
    ensures a == b
  {
    hide Schedule, ScheduleWord, WordAt;
    var (r, n) := (RoundCount(a), 4 * (RoundCount(a) + 1));
    var (s, t) := (Schedule(a, n), Schedule(b, n));
    forall i | n - |a| / 4 <= i < n ensures WordAt(s, i) == WordAt(t, i) {
      var k := i / 4;
      assert k == r - 1 || k == r;
      assert ExpandKey(a)[k] == s[16 * k..16 * k + 16] && ExpandKey(b)[k] == t[16 * k..16 * k + 16];
      WordInBlock(s, k, i % 4);
      WordInBlock(t, k, i % 4);
      assert i == 4 * k + i % 4;
    }
    ScheduleReversible(a, b, n);
  }
}
