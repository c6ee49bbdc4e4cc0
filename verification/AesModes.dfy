/** One-shot encryption in the ECB and CBC modes with PKCS#7 padding (section 6.3 of RFC 5652 and
    section 6.2 of NIST SP 800-38A). */
module AesModes {
  import opened AesRounds
  import opened AesBlock
  import opened AesCipher

  datatype Error = KeyLength | CiphertextLength | PaddingByte | Padding
  datatype Result = Success(data: seq<bv8>) | Failure(error: Error)

  // ----- padding -----

  function PadLength(data: seq<bv8>): (n: nat)
    ensures 1 <= n <= 16 && (|data| + n) % 16 == 0
  {
    16 - |data| % 16
  }

  function Padding16(n: nat): (p: seq<bv8>)
    requires 1 <= n <= 16
    ensures |p| == n
  {
    seq(n, i => n as bv8)
  }

  function Pad16(data: seq<bv8>): (p: seq<bv8>)
    ensures |p| % 16 == 0 && |p| > 0
  {
    data + Padding16(PadLength(data))
  }

  function Unpad16(data: seq<bv8>): Result {
    if data == [] || |data| % 16 != 0 then Failure(CiphertextLength)
    else
      var n := data[|data| - 1] as int;
      if n < 1 || n > 16 then Failure(PaddingByte)
      else if data[|data| - n..] != Padding16(n) then Failure(Padding)
      else Success(data[..|data| - n])
  }

  lemma SmallByte(n: nat)
    requires n <= 16
    ensures (n as bv8) as int == n
  {}

  lemma UnpadPadded(data: seq<bv8>)
    ensures Unpad16(Pad16(data)) == Success(data)
  {
    var (n, padded) := (PadLength(data), Pad16(data));
    SmallByte(n);
    assert padded[|padded| - 1] == Padding16(n)[n - 1];
    assert padded[|padded| - n..] == Padding16(n);
    assert padded[..|padded| - n] == data;
  }

  lemma PadUnpadded(padded: seq<bv8>)
    requires Unpad16(padded).Success?
    ensures Pad16(Unpad16(padded).data) == padded
  {
    var n := padded[|padded| - 1] as int;
    assert 1 <= n <= 16 && padded[|padded| - n..] == Padding16(n);
    var start := |padded| - n;
    PadUnique(start, n);
    assert padded == padded[..start] + padded[start..];
  }

  /** Unpadding accepts exactly the padded messages and gives the message back. */
  lemma PaddingInverse(data: seq<bv8>, padded: seq<bv8>)
    ensures Unpad16(padded) == Success(data) <==> padded == Pad16(data)
  {
    hide Pad16, Unpad16;
    UnpadPadded(data);
    if Unpad16(padded).Success? {
      PadUnpadded(padded);
    }
  }

  lemma PadUnique(length: nat, m: nat)
    requires 1 <= m <= 16 && (length + m) % 16 == 0
    ensures m == 16 - length % 16
  {}

  // ----- the modes on whole blocks -----

  function XorBlock(a: Block, b: Block): Block {
    seq(16, i requires 0 <= i < 16 => Xor(a[i], b[i]))
  }

  lemma XorBlockInverse(a: Block, b: Block)
    ensures XorBlock(XorBlock(a, b), b) == a
  {
    hide Xor;
    forall i | 0 <= i < 16 ensures Xor(Xor(a[i], b[i]), b[i]) == a[i] {
      XorCancels(a[i], b[i]);
    }
  }

  type Blocks = s: seq<bv8> | |s| % 16 == 0

  lemma FirstBlock(data: Blocks)
    requires data != []
    ensures |data| >= 16 && |data[16..]| % 16 == 0
  {}

  lemma AppendBlock(c: Block, rest: Blocks)
    ensures |c + rest| % 16 == 0
  {}

  function EcbEncrypt(data: Blocks, k: RoundKeys): (r: Blocks)
    ensures |r| == |data|
    decreases |data|
  {
    if data == [] then [] else FirstBlock(data); EncryptBlock(data[..16], k) + EcbEncrypt(data[16..], k)
  }

  function EcbDecrypt(data: Blocks, k: RoundKeys): (r: Blocks)
    ensures |r| == |data|
    decreases |data|
  {
    if data == [] then [] else FirstBlock(data); DecryptBlock(data[..16], k) + EcbDecrypt(data[16..], k)
  }

  /** Each block is combined with the ciphertext of the one before it. */
  function CbcEncrypt(data: Blocks, k: RoundKeys, prev: Block): (r: Blocks)
    ensures |r| == |data|
    decreases |data|
  {
    if data == [] then []
    else
      FirstBlock(data);
      var c: Block := EncryptBlock(XorBlock(data[..16], prev), k);
      var rest: Blocks := CbcEncrypt(data[16..], k, c);
      AppendBlock(c, rest);
      c + rest
  }

  function CbcDecrypt(data: Blocks, k: RoundKeys, prev: Block): (r: Blocks)
    ensures |r| == |data|
    decreases |data|
  {
    if data == [] then []
    else
      FirstBlock(data);
      XorBlock(DecryptBlock(data[..16], k), prev) + CbcDecrypt(data[16..], k, data[..16])
  }

  lemma {:induction false} EcbInverse(data: Blocks, k: RoundKeys)
    ensures EcbDecrypt(EcbEncrypt(data, k), k) == data
    ensures EcbEncrypt(EcbDecrypt(data, k), k) == data
    decreases |data|
  {
    hide EncryptBlock, DecryptBlock;
    if data != [] {
      var (first, rest) := (data[..16], data[16..]);
      EcbInverse(rest, k);
      BlockInverse(first, k);
      var (c, d) := (EcbEncrypt(data, k), EcbDecrypt(data, k));
      assert c[..16] == EncryptBlock(first, k) && c[16..] == EcbEncrypt(rest, k);
      assert d[..16] == DecryptBlock(first, k) && d[16..] == EcbDecrypt(rest, k);
      assert data == first + rest;
    }
  }

  lemma {:induction false} CbcInverse(data: Blocks, k: RoundKeys, prev: Block)
    ensures CbcDecrypt(CbcEncrypt(data, k, prev), k, prev) == data
    ensures CbcEncrypt(CbcDecrypt(data, k, prev), k, prev) == data
    decreases |data|
  {
    hide EncryptBlock, DecryptBlock, XorBlock;
    if data != [] {
      var (first, rest) := (data[..16], data[16..]);
      var c := EncryptBlock(XorBlock(first, prev), k);
      CbcInverse(rest, k, c);
      CbcInverse(rest, k, first);
      BlockInverse(XorBlock(first, prev), k);
      BlockInverse(first, k);
      XorBlockInverse(first, prev);
      XorBlockInverse(DecryptBlock(first, k), prev);
      var (e, d) := (CbcEncrypt(data, k, prev), CbcDecrypt(data, k, prev));
      assert e[..16] == c && e[16..] == CbcEncrypt(rest, k, c);
      assert d[..16] == XorBlock(DecryptBlock(first, k), prev) && d[16..] == CbcDecrypt(rest, k, first);
      assert data == first + rest;
    }
  }

  // ----- block by block -----

  function BlockAt(data: Blocks, i: nat): Block
    requires 16 * i + 16 <= |data|
  {
    data[16 * i..16 * i + 16]
  }

  lemma LaterBlock(data: Blocks, i: nat)
    requires i > 0 && 16 * i + 16 <= |data|
    ensures |data[16..]| % 16 == 0 && 16 * (i - 1) + 16 <= |data[16..]|
    ensures BlockAt(data[16..], i - 1) == BlockAt(data, i)
  {}

  lemma {:induction false} EcbBlocks(data: Blocks, k: RoundKeys, i: nat)
    requires 16 * i + 16 <= |data|
    ensures BlockAt(EcbEncrypt(data, k), i) == EncryptBlock(BlockAt(data, i), k)
  {
    hide EncryptBlock;
    var (c, rest) := (EcbEncrypt(data, k), data[16..]);
    FirstBlock(data);
    assert c[16..] == EcbEncrypt(rest, k);
    if i > 0 {
      EcbBlocks(rest, k, i - 1);
      LaterBlock(data, i);
      LaterBlock(c, i);
    }
  }

  /** Every block is XORed with the cipher text before it, the first one with the start of the chain. */
  lemma {:induction false} CbcBlocks(data: Blocks, k: RoundKeys, iv: Block, i: nat, x: Block)
    requires 16 * i + 16 <= |data|
    requires var before := if i == 0 then iv else BlockAt(CbcEncrypt(data, k, iv), i - 1);
             forall j :: 0 <= j < 16 ==> x[j] == BlockAt(data, i)[j] ^ before[j]
    ensures BlockAt(CbcEncrypt(data, k, iv), i) == EncryptBlock(x, k)
    decreases i
  {
    hide EncryptBlock;
    var (c, rest) := (CbcEncrypt(data, k, iv), data[16..]);
    FirstBlock(data);
    var first := EncryptBlock(XorBlock(data[..16], iv), k);
    assert c[..16] == first && c[16..] == CbcEncrypt(rest, k, first);
    if i == 0 {
      assert XorBlock(data[..16], iv) == x;
    } else {
      LaterBlock(data, i);
      LaterBlock(c, i);
      if i > 1 { LaterBlock(c, i - 1); }
      CbcBlocks(rest, k, first, i - 1, x);
    }
  }

  // ----- the one-shot functions -----

  datatype Mode = Ecb | Cbc

  /** The block key and the chaining start of a key; CBC keys carry the IV behind the key proper. */
  predicate GoodKey(mode: Mode, size: nat, key: seq<bv8>) {
    (size == 16 || size == 24 || size == 32) && |key| == if mode == Ecb then size else size + 16
  }

  function Encrypt(mode: Mode, size: nat, data: seq<bv8>, key: seq<bv8>): Result {
    if !GoodKey(mode, size, key) then Failure(KeyLength)
    else if mode == Ecb then Success(EcbEncrypt(Pad16(data), ExpandKey(key)))
    else Success(CbcEncrypt(Pad16(data), ExpandKey(key[..size]), key[size..]))
  }

  function Decrypt(mode: Mode, size: nat, data: seq<bv8>, key: seq<bv8>): Result {
    if !GoodKey(mode, size, key) then Failure(KeyLength)
    else if data == [] || |data| % 16 != 0 then Failure(CiphertextLength)
    else if mode == Ecb then Unpad16(EcbDecrypt(data, ExpandKey(key)))
    else Unpad16(CbcDecrypt(data, ExpandKey(key[..size]), key[size..]))
  }

  /** Decryption inverts encryption on every message, and a ciphertext is accepted exactly when it
      is the encryption of what decryption yields. */
  lemma EncryptDecryptInverse(mode: Mode, size: nat, message: seq<bv8>, cipher: seq<bv8>, key: seq<bv8>)
    ensures Encrypt(mode, size, message, key) == Success(cipher)
            <==> Decrypt(mode, size, cipher, key) == Success(message)
  {
    hide EcbEncrypt, EcbDecrypt, CbcEncrypt, CbcDecrypt, Unpad16, Pad16, ExpandKey;
    if GoodKey(mode, size, key) {
      var padded := Pad16(message);
      if mode == Ecb {
        var k := ExpandKey(key);
        EcbInverse(padded, k);
        if cipher != [] && |cipher| % 16 == 0 {
          EcbInverse(cipher, k);
          PaddingInverse(message, EcbDecrypt(cipher, k));
        }
      } else {
        var (k, iv) := (ExpandKey(key[..size]), key[size..]);
        CbcInverse(padded, k, iv);
        if cipher != [] && |cipher| % 16 == 0 {
          CbcInverse(cipher, k, iv);
          PaddingInverse(message, CbcDecrypt(cipher, k, iv));
        }
      }
    }
  }

  /** Every message of any length can be encrypted and comes back. */
  lemma RoundTrip(mode: Mode, size: nat, message: seq<bv8>, key: seq<bv8>)
    requires GoodKey(mode, size, key)
    ensures var c := Encrypt(mode, size, message, key);
            c.Success? && |c.data| == |message| + PadLength(message)
            && Decrypt(mode, size, c.data, key) == Success(message)
  {
    var c := Encrypt(mode, size, message, key);
    EncryptDecryptInverse(mode, size, message, c.data, key);
  }

  /** The message filled up to a whole number of blocks with 1 to 16 bytes that tell how many they are. */
  predicate FilledUp(message: seq<bv8>, padded: Blocks) {
    |message| < |padded| <= |message| + 16 && padded[..|message|] == message
    && forall i :: |message| <= i < |padded| ==> padded[i] as int == |padded| - |message|
  }

  lemma FilledUpPads(message: seq<bv8>, padded: Blocks)
    ensures FilledUp(message, padded) <==> padded == Pad16(message)
  {
    var n := PadLength(message);
    if FilledUp(message, padded) {
      assert |padded| - |message| == n;
      assert padded == padded[..|message|] + padded[|message|..];
      SmallByte(n);
      assert padded[|message|..] == Padding16(n);
    }
    SmallByte(n);
  }

  /** The whole key is the block key of the electronic code book. */
  lemma EcbMessage(key: seq<bv8>, message: seq<bv8>, padded: Blocks, i: nat)
    requires (|key| == 16 || |key| == 24 || |key| == 32) && FilledUp(message, padded) && 16 * i + 16 <= |padded|
    ensures var c := Encrypt(Ecb, |key|, message, key);
            c.Success? && |c.data| == |padded| && BlockAt(c.data, i) == EncryptBlock(BlockAt(padded, i), ExpandKey(key))
  {
    hide EncryptBlock, ExpandKey, FilledUp, Pad16;
    FilledUpPads(message, padded);
    EcbBlocks(padded, ExpandKey(key), i);
  }

  /** The key of the chaining is the block key and, behind it, what the first block is XORed with. */
  lemma CbcMessage(key: seq<bv8>, iv: Block, message: seq<bv8>, padded: Blocks, c: Blocks, i: nat, x: Block)
    requires (|key| == 16 || |key| == 24 || |key| == 32) && FilledUp(message, padded)
    requires Encrypt(Cbc, |key|, message, key + iv) == Success(c) && 16 * i + 16 <= |c|
    requires |c| == |padded| ==>
               var before := if i == 0 then iv else BlockAt(c, i - 1);
               forall j :: 0 <= j < 16 ==> x[j] == BlockAt(padded, i)[j] ^ before[j]
    ensures |c| == |padded| && BlockAt(c, i) == EncryptBlock(x, ExpandKey(key))
  {
    hide EncryptBlock, ExpandKey, FilledUp, Pad16;
    FilledUpPads(message, padded);
    assert (key + iv)[..|key|] == key && (key + iv)[|key|..] == iv;
    CbcBlocks(padded, ExpandKey(key), iv, i, x);
  }

  // ----- the same, as loops over the blocks -----

  method PadMessage(data: seq<bv8>) returns (result: seq<bv8>)
    ensures result == Pad16(data)
  {
    var padLen := 16 - |data| % 16;
    result := data;
    for i := 0 to padLen
      invariant result == data + Padding16(padLen)[..i]
    {
      result := result + [padLen as bv8];
    }
  }

  method UnpadMessage(data: seq<bv8>) returns (r: Result)
    ensures r == Unpad16(data)
  {
    if data == [] || |data| % 16 != 0 {
      return Failure(CiphertextLength);
    }
    var last := data[|data| - 1];
    var padLen := last as int;
    if padLen < 1 || padLen > 16 {
      return Failure(PaddingByte);
    }
    SmallByte(padLen);
    var start := |data| - padLen;
    ghost var tail := data[start..];
    assert Padding16(padLen)[0] == padLen as bv8;
    for i := start to |data|
      invariant forall k :: start <= k < i ==> data[k] == padLen as bv8
    {
      if data[i] != padLen as bv8 {
        assert tail[i - start] != Padding16(padLen)[i - start];
        return Failure(Padding);
      }
    }
    assert tail == Padding16(padLen);
    r := Success(data[..start]);
  }

  method Expand(key: seq<bv8>) returns (rk: array<bv8>, rounds: nat)
    requires ValidKey(key)
    ensures fresh(rk) && rounds == RoundCount(key) && rk.Length == 16 * (rounds + 1)
    ensures KeysOf(rk[..]) == ExpandKey(key)
  {
    hide Schedule;
    rounds := |key| / 4 + 6;
    rk := new bv8[16 * (rounds + 1)];
    ExpandKeyInPlace(key, rk);
  }

  /** The blocks from byte `i` on. */
  ghost function From(data: Blocks, i: nat): Blocks
    requires i <= |data| && i % 16 == 0
  {
    data[i..]
  }

  lemma NextBlock(data: Blocks, i: nat)
    requires i % 16 == 0 && i < |data|
    ensures i + 16 <= |data| && (i + 16) % 16 == 0
    ensures From(data, i)[..16] == data[i..i + 16] && From(data, i)[16..] == From(data, i + 16)
    ensures From(data, i) != []
  {}

  lemma Ends(data: Blocks, k: RoundKeys, prev: Block)
    ensures From(data, 0) == data && From(data, |data|) == []
    ensures EcbEncrypt([], k) == [] && EcbDecrypt([], k) == []
    ensures CbcEncrypt([], k, prev) == [] && CbcDecrypt([], k, prev) == []
  {}

  method EncryptBlocks(padded: Blocks, rk: array<bv8>, rounds: nat) returns (result: seq<bv8>)
    requires rounds > 0 && rk.Length == 16 * (rounds + 1)
    ensures result == EcbEncrypt(padded, KeysOf(rk[..]))
  {
    hide EncryptBlock, KeysOf, From;
    ghost var k := KeysOf(rk[..]);
    result := [];
    Ends(padded, k, ZERO_BLOCK);
    var i := 0;
    while i < |padded|
      invariant i <= |padded| && i % 16 == 0
      invariant result + EcbEncrypt(From(padded, i), k) == EcbEncrypt(padded, k)
    {
      NextBlock(padded, i);
      var blk := EncryptBlk(padded[i..i + 16], rk, rounds);
      result := result + blk;
      i := i + 16;
    }
  }

  method DecryptBlocks(data: Blocks, rk: array<bv8>, rounds: nat) returns (dec: seq<bv8>)
    requires rounds > 0 && rk.Length == 16 * (rounds + 1)
    ensures dec == EcbDecrypt(data, KeysOf(rk[..]))
  {
    hide DecryptBlock, KeysOf, From;
    ghost var k := KeysOf(rk[..]);
    dec := [];
    Ends(data, k, ZERO_BLOCK);
    var i := 0;
    while i < |data|
      invariant i <= |data| && i % 16 == 0
      invariant dec + EcbDecrypt(From(data, i), k) == EcbDecrypt(data, k)
    {
      NextBlock(data, i);
      var blk := DecryptBlk(data[i..i + 16], rk, rounds);
      dec := dec + blk;
      i := i + 16;
    }
  }

  method XorInto(blk: seq<bv8>, prev: seq<bv8>) returns (r: Block)
    requires |blk| == 16 && |prev| == 16
    ensures r == XorBlock(blk, prev)
  {
    hide Xor;
    r := blk;
    for j := 0 to 16
      invariant |r| == 16
      invariant forall k :: 0 <= k < j ==> r[k] == Xor(blk[k], prev[k])
      invariant forall k :: j <= k < 16 ==> r[k] == blk[k]
    {
      r := r[j := Xor(r[j], prev[j])];
    }
  }

  method EncryptChain(padded: Blocks, rk: array<bv8>, rounds: nat, iv: Block) returns (result: seq<bv8>)
    requires rounds > 0 && rk.Length == 16 * (rounds + 1)
    ensures result == CbcEncrypt(padded, KeysOf(rk[..]), iv)
  {
    hide EncryptBlock, KeysOf, XorBlock, From;
    ghost var k := KeysOf(rk[..]);
    result := [];
    var prev: Block := iv;
    Ends(padded, k, prev);
    var i := 0;
    while i < |padded|
      invariant i <= |padded| && i % 16 == 0
      invariant result + CbcEncrypt(From(padded, i), k, prev) == CbcEncrypt(padded, k, iv)
    {
      NextBlock(padded, i);
      var blk := XorInto(padded[i..i + 16], prev);
      prev := EncryptBlk(blk, rk, rounds);
      result := result + prev;
      i := i + 16;
    }
  }

  method DecryptChain(data: Blocks, rk: array<bv8>, rounds: nat, iv: Block) returns (dec: seq<bv8>)
    requires rounds > 0 && rk.Length == 16 * (rounds + 1)
    ensures dec == CbcDecrypt(data, KeysOf(rk[..]), iv)
  {
    hide DecryptBlock, KeysOf, XorBlock, From;
    ghost var k := KeysOf(rk[..]);
    dec := [];
    var prev: Block := iv;
    Ends(data, k, prev);
    var i := 0;
    while i < |data|
      invariant i <= |data| && i % 16 == 0
      invariant dec + CbcDecrypt(From(data, i), k, prev) == CbcDecrypt(data, k, iv)
    {
      NextBlock(data, i);
      var curr := data[i..i + 16];
      var plain := DecryptBlk(curr, rk, rounds);
      var blk := XorInto(plain, prev);
      dec := dec + blk;
      prev := curr;
      i := i + 16;
    }
  }

  /** `encrypt` of both modes; they differ in the key length and the loop. */
  method EncryptOneShot(mode: Mode, size: nat, data: seq<bv8>, key: seq<bv8>) returns (r: Result)
    requires size == 16 || size == 24 || size == 32
    ensures r == Encrypt(mode, size, data, key)
  {
    hide KeysOf, ExpandKey, Pad16, EcbEncrypt, CbcEncrypt;
    if |key| != (if mode == Ecb then size else size + 16) {
      return Failure(KeyLength);
    }
    assert mode == Ecb ==> key[..size] == key;
    var rk, rounds := Expand(key[..size]);
    var padded := PadMessage(data);
    if mode == Ecb {
      var result := EncryptBlocks(padded, rk, rounds);
      r := Success(result);
    } else {
      var result := EncryptChain(padded, rk, rounds, key[size..]);
      r := Success(result);
    }
  }

  method DecryptOneShot(mode: Mode, size: nat, data: seq<bv8>, key: seq<bv8>) returns (r: Result)
    requires size == 16 || size == 24 || size == 32
    ensures r == Decrypt(mode, size, data, key)
  {
    hide KeysOf, ExpandKey, Unpad16, EcbDecrypt, CbcDecrypt;
    if |key| != (if mode == Ecb then size else size + 16) {
      return Failure(KeyLength);
    }
    if data == [] || |data| % 16 != 0 {
      return Failure(CiphertextLength);
    }
    assert mode == Ecb ==> key[..size] == key;
    var rk, rounds := Expand(key[..size]);
    if mode == Ecb {
      var dec := DecryptBlocks(data, rk, rounds);
      r := UnpadMessage(dec);
    } else {
      var dec := DecryptChain(data, rk, rounds, key[size..]);
      r := UnpadMessage(dec);
    }
  }
}
