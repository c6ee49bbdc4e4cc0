/** The worked examples of FIPS 197: key expansions (appendix A) and a block cipher (appendix B). */
module AesExamples {
  import opened AesTables
  import opened AesRounds
  import opened AesBlock

  // ----- appendix A: expanded keys -----

  function Word(key: seq<bv8>, i: nat): (w: seq<bv8>)
    requires ValidKey(key) && i < 4 * (RoundCount(key) + 1)
    ensures |w| == 4
  {
    WordAt(Schedule(key, 4 * (RoundCount(key) + 1)), i)
  }

  lemma NextWord(key: seq<bv8>, i: nat, a: seq<bv8>, t: seq<bv8>, w: seq<bv8>)
    requires ValidKey(key) && |key| / 4 <= i < 4 * (RoundCount(key) + 1) && |a| == |t| == 4
    requires Word(key, i - |key| / 4) == a && i / (|key| / 4) < |RCON|
    requires ScheduleWord(Word(key, i - 1), i, |key| / 4) == t && XorWord(a, t) == w
    ensures Word(key, i) == w
  {
    hide Schedule, ScheduleWord, XorWord;
    ScheduleRecurrence(key, 4 * (RoundCount(key) + 1), i);
  }

  lemma KeyWords(key: seq<bv8>, i: nat)
    requires ValidKey(key) && i < |key| / 4
    ensures Word(key, i) == [key[4 * i], key[4 * i + 1], key[4 * i + 2], key[4 * i + 3]]
  {
    hide Schedule, ScheduleWord, XorWord;
    ScheduleRecurrence(key, 4 * (RoundCount(key) + 1), i);
  }

  /** Round keys for 10, 12 and 14 rounds. */
  lemma KeyCounts(key: seq<bv8>)
    requires ValidKey(key)
    ensures |key| == 16 ==> |ExpandKey(key)| == 11
    ensures |key| == 24 ==> |ExpandKey(key)| == 13
    ensures |key| == 32 ==> |ExpandKey(key)| == 15
  {
    hide Schedule;
  }

  // A.1
  const KEY128: seq<bv8> := [0x2B, 0x7E, 0x15, 0x16, 0x28, 0xAE, 0xD2, 0xA6, 0xAB, 0xF7, 0x15, 0x88, 0x09, 0xCF, 0x4F, 0x3C]

  lemma A1Words0()
    ensures Word(KEY128, 0) == [0x2B, 0x7E, 0x15, 0x16]
    ensures Word(KEY128, 1) == [0x28, 0xAE, 0xD2, 0xA6]
    ensures Word(KEY128, 2) == [0xAB, 0xF7, 0x15, 0x88]
    ensures Word(KEY128, 3) == [0x09, 0xCF, 0x4F, 0x3C]
  {
    hide Word;
    KeyWords(KEY128, 0);
    KeyWords(KEY128, 1);
    KeyWords(KEY128, 2);
    KeyWords(KEY128, 3);
  }

  lemma A1Temp4() ensures ScheduleWord([0x09, 0xCF, 0x4F, 0x3C], 4, 4) == [0x8B, 0x84, 0xEB, 0x01] {}

  lemma A1Words4()
    ensures Word(KEY128, 4) == [0xA0, 0xFA, 0xFE, 0x17]
    ensures Word(KEY128, 5) == [0x88, 0x54, 0x2C, 0xB1]
    ensures Word(KEY128, 6) == [0x23, 0xA3, 0x39, 0x39]
    ensures Word(KEY128, 7) == [0x2A, 0x6C, 0x76, 0x05]
  {
    hide Word, Sbox;
    A1Words0();
    A1Temp4();
    NextWord(KEY128, 4, [0x2B, 0x7E, 0x15, 0x16], [0x8B, 0x84, 0xEB, 0x01], [0xA0, 0xFA, 0xFE, 0x17]);
    NextWord(KEY128, 5, [0x28, 0xAE, 0xD2, 0xA6], [0xA0, 0xFA, 0xFE, 0x17], [0x88, 0x54, 0x2C, 0xB1]);
    NextWord(KEY128, 6, [0xAB, 0xF7, 0x15, 0x88], [0x88, 0x54, 0x2C, 0xB1], [0x23, 0xA3, 0x39, 0x39]);
    NextWord(KEY128, 7, [0x09, 0xCF, 0x4F, 0x3C], [0x23, 0xA3, 0x39, 0x39], [0x2A, 0x6C, 0x76, 0x05]);
  }

  lemma A1Temp8() ensures ScheduleWord([0x2A, 0x6C, 0x76, 0x05], 8, 4) == [0x52, 0x38, 0x6B, 0xE5] {}

  lemma A1Words8()
    ensures Word(KEY128, 8) == [0xF2, 0xC2, 0x95, 0xF2]
    ensures Word(KEY128, 9) == [0x7A, 0x96, 0xB9, 0x43]
    ensures Word(KEY128, 10) == [0x59, 0x35, 0x80, 0x7A]
    ensures Word(KEY128, 11) == [0x73, 0x59, 0xF6, 0x7F]
  {
    hide Word, Sbox;
    A1Words4();
    A1Temp8();
    NextWord(KEY128, 8, [0xA0, 0xFA, 0xFE, 0x17], [0x52, 0x38, 0x6B, 0xE5], [0xF2, 0xC2, 0x95, 0xF2]);
    NextWord(KEY128, 9, [0x88, 0x54, 0x2C, 0xB1], [0xF2, 0xC2, 0x95, 0xF2], [0x7A, 0x96, 0xB9, 0x43]);
    NextWord(KEY128, 10, [0x23, 0xA3, 0x39, 0x39], [0x7A, 0x96, 0xB9, 0x43], [0x59, 0x35, 0x80, 0x7A]);
    NextWord(KEY128, 11, [0x2A, 0x6C, 0x76, 0x05], [0x59, 0x35, 0x80, 0x7A], [0x73, 0x59, 0xF6, 0x7F]);
  }

  lemma A1Temp12() ensures ScheduleWord([0x73, 0x59, 0xF6, 0x7F], 12, 4) == [0xCF, 0x42, 0xD2, 0x8F] {}

  lemma A1Words12()
    ensures Word(KEY128, 12) == [0x3D, 0x80, 0x47, 0x7D]
    ensures Word(KEY128, 13) == [0x47, 0x16, 0xFE, 0x3E]
    ensures Word(KEY128, 14) == [0x1E, 0x23, 0x7E, 0x44]
    ensures Word(KEY128, 15) == [0x6D, 0x7A, 0x88, 0x3B]
  {
    hide Word, Sbox;
    A1Words8();
    A1Temp12();
    NextWord(KEY128, 12, [0xF2, 0xC2, 0x95, 0xF2], [0xCF, 0x42, 0xD2, 0x8F], [0x3D, 0x80, 0x47, 0x7D]);
    NextWord(KEY128, 13, [0x7A, 0x96, 0xB9, 0x43], [0x3D, 0x80, 0x47, 0x7D], [0x47, 0x16, 0xFE, 0x3E]);
    NextWord(KEY128, 14, [0x59, 0x35, 0x80, 0x7A], [0x47, 0x16, 0xFE, 0x3E], [0x1E, 0x23, 0x7E, 0x44]);
    NextWord(KEY128, 15, [0x73, 0x59, 0xF6, 0x7F], [0x1E, 0x23, 0x7E, 0x44], [0x6D, 0x7A, 0x88, 0x3B]);
  }

  lemma A1Temp16() ensures ScheduleWord([0x6D, 0x7A, 0x88, 0x3B], 16, 4) == [0xD2, 0xC4, 0xE2, 0x3C] {}

  lemma A1Words16()
    ensures Word(KEY128, 16) == [0xEF, 0x44, 0xA5, 0x41]
    ensures Word(KEY128, 17) == [0xA8, 0x52, 0x5B, 0x7F]
    ensures Word(KEY128, 18) == [0xB6, 0x71, 0x25, 0x3B]
    ensures Word(KEY128, 19) == [0xDB, 0x0B, 0xAD, 0x00]
  {
    hide Word, Sbox;
    A1Words12();
    A1Temp16();
    NextWord(KEY128, 16, [0x3D, 0x80, 0x47, 0x7D], [0xD2, 0xC4, 0xE2, 0x3C], [0xEF, 0x44, 0xA5, 0x41]);
    NextWord(KEY128, 17, [0x47, 0x16, 0xFE, 0x3E], [0xEF, 0x44, 0xA5, 0x41], [0xA8, 0x52, 0x5B, 0x7F]);
    NextWord(KEY128, 18, [0x1E, 0x23, 0x7E, 0x44], [0xA8, 0x52, 0x5B, 0x7F], [0xB6, 0x71, 0x25, 0x3B]);
    NextWord(KEY128, 19, [0x6D, 0x7A, 0x88, 0x3B], [0xB6, 0x71, 0x25, 0x3B], [0xDB, 0x0B, 0xAD, 0x00]);
  }

  lemma A1Temp20() ensures ScheduleWord([0xDB, 0x0B, 0xAD, 0x00], 20, 4) == [0x3B, 0x95, 0x63, 0xB9] {}

  lemma A1Words20()
    ensures Word(KEY128, 20) == [0xD4, 0xD1, 0xC6, 0xF8]
    ensures Word(KEY128, 21) == [0x7C, 0x83, 0x9D, 0x87]
    ensures Word(KEY128, 22) == [0xCA, 0xF2, 0xB8, 0xBC]
    ensures Word(KEY128, 23) == [0x11, 0xF9, 0x15, 0xBC]
  {
    hide Word, Sbox;
    A1Words16();
    A1Temp20();
    NextWord(KEY128, 20, [0xEF, 0x44, 0xA5, 0x41], [0x3B, 0x95, 0x63, 0xB9], [0xD4, 0xD1, 0xC6, 0xF8]);
    NextWord(KEY128, 21, [0xA8, 0x52, 0x5B, 0x7F], [0xD4, 0xD1, 0xC6, 0xF8], [0x7C, 0x83, 0x9D, 0x87]);
    NextWord(KEY128, 22, [0xB6, 0x71, 0x25, 0x3B], [0x7C, 0x83, 0x9D, 0x87], [0xCA, 0xF2, 0xB8, 0xBC]);
    NextWord(KEY128, 23, [0xDB, 0x0B, 0xAD, 0x00], [0xCA, 0xF2, 0xB8, 0xBC], [0x11, 0xF9, 0x15, 0xBC]);
  }

  lemma A1Temp24() ensures ScheduleWord([0x11, 0xF9, 0x15, 0xBC], 24, 4) == [0xB9, 0x59, 0x65, 0x82] {}

  lemma A1Words24()
    ensures Word(KEY128, 24) == [0x6D, 0x88, 0xA3, 0x7A]
    ensures Word(KEY128, 25) == [0x11, 0x0B, 0x3E, 0xFD]
    ensures Word(KEY128, 26) == [0xDB, 0xF9, 0x86, 0x41]
    ensures Word(KEY128, 27) == [0xCA, 0x00, 0x93, 0xFD]
  {
    hide Word, Sbox;
    A1Words20();
    A1Temp24();
    NextWord(KEY128, 24, [0xD4, 0xD1, 0xC6, 0xF8], [0xB9, 0x59, 0x65, 0x82], [0x6D, 0x88, 0xA3, 0x7A]);
    NextWord(KEY128, 25, [0x7C, 0x83, 0x9D, 0x87], [0x6D, 0x88, 0xA3, 0x7A], [0x11, 0x0B, 0x3E, 0xFD]);
    NextWord(KEY128, 26, [0xCA, 0xF2, 0xB8, 0xBC], [0x11, 0x0B, 0x3E, 0xFD], [0xDB, 0xF9, 0x86, 0x41]);
    NextWord(KEY128, 27, [0x11, 0xF9, 0x15, 0xBC], [0xDB, 0xF9, 0x86, 0x41], [0xCA, 0x00, 0x93, 0xFD]);
  }

  lemma A1Temp28() ensures ScheduleWord([0xCA, 0x00, 0x93, 0xFD], 28, 4) == [0x23, 0xDC, 0x54, 0x74] {}

  lemma A1Words28()
    ensures Word(KEY128, 28) == [0x4E, 0x54, 0xF7, 0x0E]
    ensures Word(KEY128, 29) == [0x5F, 0x5F, 0xC9, 0xF3]
    ensures Word(KEY128, 30) == [0x84, 0xA6, 0x4F, 0xB2]
    ensures Word(KEY128, 31) == [0x4E, 0xA6, 0xDC, 0x4F]
  {
    hide Word, Sbox;
    A1Words24();
    A1Temp28();
    NextWord(KEY128, 28, [0x6D, 0x88, 0xA3, 0x7A], [0x23, 0xDC, 0x54, 0x74], [0x4E, 0x54, 0xF7, 0x0E]);
    NextWord(KEY128, 29, [0x11, 0x0B, 0x3E, 0xFD], [0x4E, 0x54, 0xF7, 0x0E], [0x5F, 0x5F, 0xC9, 0xF3]);
    NextWord(KEY128, 30, [0xDB, 0xF9, 0x86, 0x41], [0x5F, 0x5F, 0xC9, 0xF3], [0x84, 0xA6, 0x4F, 0xB2]);
    NextWord(KEY128, 31, [0xCA, 0x00, 0x93, 0xFD], [0x84, 0xA6, 0x4F, 0xB2], [0x4E, 0xA6, 0xDC, 0x4F]);
  }

  lemma A1Temp32() ensures ScheduleWord([0x4E, 0xA6, 0xDC, 0x4F], 32, 4) == [0xA4, 0x86, 0x84, 0x2F] {}

  lemma A1Words32()
    ensures Word(KEY128, 32) == [0xEA, 0xD2, 0x73, 0x21]
    ensures Word(KEY128, 33) == [0xB5, 0x8D, 0xBA, 0xD2]
    ensures Word(KEY128, 34) == [0x31, 0x2B, 0xF5, 0x60]
    ensures Word(KEY128, 35) == [0x7F, 0x8D, 0x29, 0x2F]
  {
    hide Word, Sbox;
    A1Words28();
    A1Temp32();
    NextWord(KEY128, 32, [0x4E, 0x54, 0xF7, 0x0E], [0xA4, 0x86, 0x84, 0x2F], [0xEA, 0xD2, 0x73, 0x21]);
    NextWord(KEY128, 33, [0x5F, 0x5F, 0xC9, 0xF3], [0xEA, 0xD2, 0x73, 0x21], [0xB5, 0x8D, 0xBA, 0xD2]);
    NextWord(KEY128, 34, [0x84, 0xA6, 0x4F, 0xB2], [0xB5, 0x8D, 0xBA, 0xD2], [0x31, 0x2B, 0xF5, 0x60]);
    NextWord(KEY128, 35, [0x4E, 0xA6, 0xDC, 0x4F], [0x31, 0x2B, 0xF5, 0x60], [0x7F, 0x8D, 0x29, 0x2F]);
  }

  lemma A1Temp36() ensures ScheduleWord([0x7F, 0x8D, 0x29, 0x2F], 36, 4) == [0x46, 0xA5, 0x15, 0xD2] {}

  lemma A1Words36()
    ensures Word(KEY128, 36) == [0xAC, 0x77, 0x66, 0xF3]
    ensures Word(KEY128, 37) == [0x19, 0xFA, 0xDC, 0x21]
    ensures Word(KEY128, 38) == [0x28, 0xD1, 0x29, 0x41]
    ensures Word(KEY128, 39) == [0x57, 0x5C, 0x00, 0x6E]
  {
    hide Word, Sbox;
    A1Words32();
    A1Temp36();
    NextWord(KEY128, 36, [0xEA, 0xD2, 0x73, 0x21], [0x46, 0xA5, 0x15, 0xD2], [0xAC, 0x77, 0x66, 0xF3]);
    NextWord(KEY128, 37, [0xB5, 0x8D, 0xBA, 0xD2], [0xAC, 0x77, 0x66, 0xF3], [0x19, 0xFA, 0xDC, 0x21]);
    NextWord(KEY128, 38, [0x31, 0x2B, 0xF5, 0x60], [0x19, 0xFA, 0xDC, 0x21], [0x28, 0xD1, 0x29, 0x41]);
    NextWord(KEY128, 39, [0x7F, 0x8D, 0x29, 0x2F], [0x28, 0xD1, 0x29, 0x41], [0x57, 0x5C, 0x00, 0x6E]);
  }

  lemma A1Temp40() ensures ScheduleWord([0x57, 0x5C, 0x00, 0x6E], 40, 4) == [0x7C, 0x63, 0x9F, 0x5B] {}

  lemma A1Words40()
    ensures Word(KEY128, 40) == [0xD0, 0x14, 0xF9, 0xA8]
    ensures Word(KEY128, 41) == [0xC9, 0xEE, 0x25, 0x89]
    ensures Word(KEY128, 42) == [0xE1, 0x3F, 0x0C, 0xC8]
    ensures Word(KEY128, 43) == [0xB6, 0x63, 0x0C, 0xA6]
  {
    hide Word, Sbox;
    A1Words36();
    A1Temp40();
    NextWord(KEY128, 40, [0xAC, 0x77, 0x66, 0xF3], [0x7C, 0x63, 0x9F, 0x5B], [0xD0, 0x14, 0xF9, 0xA8]);
    NextWord(KEY128, 41, [0x19, 0xFA, 0xDC, 0x21], [0xD0, 0x14, 0xF9, 0xA8], [0xC9, 0xEE, 0x25, 0x89]);
    NextWord(KEY128, 42, [0x28, 0xD1, 0x29, 0x41], [0xC9, 0xEE, 0x25, 0x89], [0xE1, 0x3F, 0x0C, 0xC8]);
    NextWord(KEY128, 43, [0x57, 0x5C, 0x00, 0x6E], [0xE1, 0x3F, 0x0C, 0xC8], [0xB6, 0x63, 0x0C, 0xA6]);
  }

  // A.2, the first words
  const KEY192: seq<bv8> :=
    [0x8E, 0x73, 0xB0, 0xF7, 0xDA, 0x0E, 0x64, 0x52, 0xC8, 0x10, 0xF3, 0x2B, 0x80, 0x90, 0x79, 0xE5]
    + [0x62, 0xF8, 0xEA, 0xD2, 0x52, 0x2C, 0x6B, 0x7B]

  lemma A2Words0()
    ensures Word(KEY192, 0) == [0x8E, 0x73, 0xB0, 0xF7]
    ensures Word(KEY192, 1) == [0xDA, 0x0E, 0x64, 0x52]
    ensures Word(KEY192, 2) == [0xC8, 0x10, 0xF3, 0x2B]
    ensures Word(KEY192, 3) == [0x80, 0x90, 0x79, 0xE5]
    ensures Word(KEY192, 4) == [0x62, 0xF8, 0xEA, 0xD2]
    ensures Word(KEY192, 5) == [0x52, 0x2C, 0x6B, 0x7B]
  {
    hide Word;
    KeyWords(KEY192, 0);
    KeyWords(KEY192, 1);
    KeyWords(KEY192, 2);
    KeyWords(KEY192, 3);
    KeyWords(KEY192, 4);
    KeyWords(KEY192, 5);
  }

  lemma A2Temp6() ensures ScheduleWord([0x52, 0x2C, 0x6B, 0x7B], 6, 6) == [0x70, 0x7F, 0x21, 0x00] {}

  lemma A2Words6()
    ensures Word(KEY192, 6) == [0xFE, 0x0C, 0x91, 0xF7]
    ensures Word(KEY192, 7) == [0x24, 0x02, 0xF5, 0xA5]
    ensures Word(KEY192, 8) == [0xEC, 0x12, 0x06, 0x8E]
    ensures Word(KEY192, 9) == [0x6C, 0x82, 0x7F, 0x6B]
  {
    hide Word, Sbox;
    A2Words0();
    A2Temp6();
    NextWord(KEY192, 6, [0x8E, 0x73, 0xB0, 0xF7], [0x70, 0x7F, 0x21, 0x00], [0xFE, 0x0C, 0x91, 0xF7]);
    NextWord(KEY192, 7, [0xDA, 0x0E, 0x64, 0x52], [0xFE, 0x0C, 0x91, 0xF7], [0x24, 0x02, 0xF5, 0xA5]);
    NextWord(KEY192, 8, [0xC8, 0x10, 0xF3, 0x2B], [0x24, 0x02, 0xF5, 0xA5], [0xEC, 0x12, 0x06, 0x8E]);
    NextWord(KEY192, 9, [0x80, 0x90, 0x79, 0xE5], [0xEC, 0x12, 0x06, 0x8E], [0x6C, 0x82, 0x7F, 0x6B]);
  }

  lemma A2Temp12() ensures ScheduleWord([0x5C, 0x56, 0xFE, 0xC2], 12, 6) == [0xB3, 0xBB, 0x25, 0x4A] {}

  lemma A2Words10()
    ensures Word(KEY192, 10) == [0x0E, 0x7A, 0x95, 0xB9]
    ensures Word(KEY192, 11) == [0x5C, 0x56, 0xFE, 0xC2]
    ensures Word(KEY192, 12) == [0x4D, 0xB7, 0xB4, 0xBD]
    ensures Word(KEY192, 13) == [0x69, 0xB5, 0x41, 0x18]
  {
    hide Word, Sbox;
    A2Words0();
    A2Words6();
    NextWord(KEY192, 10, [0x62, 0xF8, 0xEA, 0xD2], [0x6C, 0x82, 0x7F, 0x6B], [0x0E, 0x7A, 0x95, 0xB9]);
    NextWord(KEY192, 11, [0x52, 0x2C, 0x6B, 0x7B], [0x0E, 0x7A, 0x95, 0xB9], [0x5C, 0x56, 0xFE, 0xC2]);
    A2Temp12();
    NextWord(KEY192, 12, [0xFE, 0x0C, 0x91, 0xF7], [0xB3, 0xBB, 0x25, 0x4A], [0x4D, 0xB7, 0xB4, 0xBD]);
    NextWord(KEY192, 13, [0x24, 0x02, 0xF5, 0xA5], [0x4D, 0xB7, 0xB4, 0xBD], [0x69, 0xB5, 0x41, 0x18]);
  }

  // A.3, the first words
  const KEY256: seq<bv8> :=
    [0x60, 0x3D, 0xEB, 0x10, 0x15, 0xCA, 0x71, 0xBE, 0x2B, 0x73, 0xAE, 0xF0, 0x85, 0x7D, 0x77, 0x81]
    + [0x1F, 0x35, 0x2C, 0x07, 0x3B, 0x61, 0x08, 0xD7, 0x2D, 0x98, 0x10, 0xA3, 0x09, 0x14, 0xDF, 0xF4]

  lemma A3Words0()
    ensures Word(KEY256, 0) == [0x60, 0x3D, 0xEB, 0x10]
    ensures Word(KEY256, 1) == [0x15, 0xCA, 0x71, 0xBE]
    ensures Word(KEY256, 2) == [0x2B, 0x73, 0xAE, 0xF0]
    ensures Word(KEY256, 3) == [0x85, 0x7D, 0x77, 0x81]
  {
    hide Word;
    KeyWords(KEY256, 0);
    KeyWords(KEY256, 1);
    KeyWords(KEY256, 2);
    KeyWords(KEY256, 3);
  }

  lemma A3Words4()
    ensures Word(KEY256, 4) == [0x1F, 0x35, 0x2C, 0x07]
    ensures Word(KEY256, 5) == [0x3B, 0x61, 0x08, 0xD7]
    ensures Word(KEY256, 6) == [0x2D, 0x98, 0x10, 0xA3]
    ensures Word(KEY256, 7) == [0x09, 0x14, 0xDF, 0xF4]
  {
    hide Word;
    KeyWords(KEY256, 4);
    KeyWords(KEY256, 5);
    KeyWords(KEY256, 6);
    KeyWords(KEY256, 7);
  }

  lemma A3Temp8() ensures ScheduleWord([0x09, 0x14, 0xDF, 0xF4], 8, 8) == [0xFB, 0x9E, 0xBF, 0x01] {}

  lemma A3Words8()
    ensures Word(KEY256, 8) == [0x9B, 0xA3, 0x54, 0x11]
    ensures Word(KEY256, 9) == [0x8E, 0x69, 0x25, 0xAF]
    ensures Word(KEY256, 10) == [0xA5, 0x1A, 0x8B, 0x5F]
    ensures Word(KEY256, 11) == [0x20, 0x67, 0xFC, 0xDE]
  {
    hide Word, Sbox;
    A3Words0();
    A3Words4();
    A3Temp8();
    NextWord(KEY256, 8, [0x60, 0x3D, 0xEB, 0x10], [0xFB, 0x9E, 0xBF, 0x01], [0x9B, 0xA3, 0x54, 0x11]);
    NextWord(KEY256, 9, [0x15, 0xCA, 0x71, 0xBE], [0x9B, 0xA3, 0x54, 0x11], [0x8E, 0x69, 0x25, 0xAF]);
    NextWord(KEY256, 10, [0x2B, 0x73, 0xAE, 0xF0], [0x8E, 0x69, 0x25, 0xAF], [0xA5, 0x1A, 0x8B, 0x5F]);
    NextWord(KEY256, 11, [0x85, 0x7D, 0x77, 0x81], [0xA5, 0x1A, 0x8B, 0x5F], [0x20, 0x67, 0xFC, 0xDE]);
  }

  lemma A3Temp12() ensures ScheduleWord([0x20, 0x67, 0xFC, 0xDE], 12, 8) == [0xB7, 0x85, 0xB0, 0x1D] {}

  lemma A3Words12()
    ensures Word(KEY256, 12) == [0xA8, 0xB0, 0x9C, 0x1A]
    ensures Word(KEY256, 13) == [0x93, 0xD1, 0x94, 0xCD]
    ensures Word(KEY256, 14) == [0xBE, 0x49, 0x84, 0x6E]
    ensures Word(KEY256, 15) == [0xB7, 0x5D, 0x5B, 0x9A]
  {
    hide Word, Sbox;
    A3Words4();
    A3Words8();
    A3Temp12();
    NextWord(KEY256, 12, [0x1F, 0x35, 0x2C, 0x07], [0xB7, 0x85, 0xB0, 0x1D], [0xA8, 0xB0, 0x9C, 0x1A]);
    NextWord(KEY256, 13, [0x3B, 0x61, 0x08, 0xD7], [0xA8, 0xB0, 0x9C, 0x1A], [0x93, 0xD1, 0x94, 0xCD]);
    NextWord(KEY256, 14, [0x2D, 0x98, 0x10, 0xA3], [0x93, 0xD1, 0x94, 0xCD], [0xBE, 0x49, 0x84, 0x6E]);
    NextWord(KEY256, 15, [0x09, 0x14, 0xDF, 0xF4], [0xBE, 0x49, 0x84, 0x6E], [0xB7, 0x5D, 0x5B, 0x9A]);
  }

  lemma A3Temp16() ensures ScheduleWord([0xB7, 0x5D, 0x5B, 0x9A], 16, 8) == [0x4E, 0x39, 0xB8, 0xA9] {}

  lemma A3Words16()
    ensures Word(KEY256, 16) == [0xD5, 0x9A, 0xEC, 0xB8]
    ensures Word(KEY256, 17) == [0x5B, 0xF3, 0xC9, 0x17]
    ensures Word(KEY256, 18) == [0xFE, 0xE9, 0x42, 0x48]
    ensures Word(KEY256, 19) == [0xDE, 0x8E, 0xBE, 0x96]
  {
    hide Word, Sbox;
    A3Words8();
    A3Words12();
    A3Temp16();
    NextWord(KEY256, 16, [0x9B, 0xA3, 0x54, 0x11], [0x4E, 0x39, 0xB8, 0xA9], [0xD5, 0x9A, 0xEC, 0xB8]);
    NextWord(KEY256, 17, [0x8E, 0x69, 0x25, 0xAF], [0xD5, 0x9A, 0xEC, 0xB8], [0x5B, 0xF3, 0xC9, 0x17]);
    NextWord(KEY256, 18, [0xA5, 0x1A, 0x8B, 0x5F], [0x5B, 0xF3, 0xC9, 0x17], [0xFE, 0xE9, 0x42, 0x48]);
    NextWord(KEY256, 19, [0x20, 0x67, 0xFC, 0xDE], [0xFE, 0xE9, 0x42, 0x48], [0xDE, 0x8E, 0xBE, 0x96]);
  }

  // ----- appendix B: one block -----

  const INPUT: Block := [0x32, 0x43, 0xF6, 0xA8, 0x88, 0x5A, 0x30, 0x8D, 0x31, 0x31, 0x98, 0xA2, 0xE0, 0x37, 0x07, 0x34]

  /** The state after round r. */
  function State(r: nat): Block
    requires r < 10
  {
    Rounds(INPUT, ExpandKey(KEY128), r)
  }

  /** Column c of a state whose rows have been shifted, substituted. */
  function Shifted(s: Block, c: nat): (w: seq<bv8>)
    requires c < 4
    ensures |w| == 4
  {
    [Sbox(s[4 * c]), Sbox(s[(4 * c + 5) % 16]), Sbox(s[(4 * c + 10) % 16]), Sbox(s[(4 * c + 15) % 16])]
  }

  function Mixed(w: seq<bv8>): (m: seq<bv8>)
    requires |w| == 4
    ensures |m| == 4
  {
    MixColumn(w[0], w[1], w[2], w[3])
  }

  lemma ShiftedAt(s: Block, c: nat)
    requires c < 4
    ensures WordAt(ShiftRows(SubBytes(s)), c) == Shifted(s, c)
  {
    hide Sbox;
    assert c == 0 || c == 1 || c == 2 || c == 3;
    forall i | 0 <= i < 4 ensures WordAt(ShiftRows(SubBytes(s)), c)[i] == Shifted(s, c)[i] {
      ShiftRowsByColumn(SubBytes(s), c, i);
      Place(c, i);
    }
  }

  lemma Place(c: nat, i: nat)
    requires c < 4 && i < 4
    ensures (4 * c + 5 * i) % 16 == 4 * ((c + i) % 4) + i
  {}

  lemma MixedAt(s: Block, c: nat)
    requires c < 4
    ensures WordAt(MixColumns(s), c) == Mixed(WordAt(s, c))
  {
    hide MixColumn;
    if c == 0 {
    } else if c == 1 {
    } else if c == 2 {
    } else {
    }
  }

  lemma AddedAt(s: Block, k: Block, c: nat)
    requires c < 4
    ensures WordAt(AddKey(s, k), c) == XorWord(WordAt(s, c), WordAt(k, c))
  {
    hide Xor;
  }

  lemma KeyAt(r: nat, c: nat)
    requires r <= 10 && c < 4
    ensures WordAt(ExpandKey(KEY128)[r], c) == Word(KEY128, 4 * r + c)
  {
    hide Schedule;
    WordInBlock(Schedule(KEY128, 44), r, c);
  }

  /** The next state by columns, from what the previous one has at the places that a column collects. */
  lemma NextColumn(r: nat, c: nat, w: seq<bv8>, m: seq<bv8>)
    requires 0 < r < 10 && c < 4 && |w| == 4 && |m| == 4
    requires Shifted(State(r - 1), c) == w && Mixed(w) == m
    ensures WordAt(State(r), c) == XorWord(m, Word(KEY128, 4 * r + c))
  {
    hide SubBytes, ShiftRows, MixColumns, AddKey, ExpandKey, Shifted, Mixed, XorWord, Word, WordAt;
    var k := ExpandKey(KEY128);
    var s := ShiftRows(SubBytes(State(r - 1)));
    KeyCounts(KEY128);
    ShiftedAt(State(r - 1), c);
    MixedAt(s, c);
    AddedAt(MixColumns(s), k[r], c);
    KeyAt(r, c);
  }

  predicate StateIs(r: nat, a: seq<bv8>, b: seq<bv8>, c: seq<bv8>, d: seq<bv8>)
    requires r < 10
  {
    WordAt(State(r), 0) == a && WordAt(State(r), 1) == b && WordAt(State(r), 2) == c && WordAt(State(r), 3) == d
  }

  /** The bytes that the row shifts bring to each column. */
  lemma Diagonals(r: nat, a: seq<bv8>, b: seq<bv8>, c: seq<bv8>, d: seq<bv8>)
    requires r < 10 && |a| == |b| == |c| == |d| == 4 && StateIs(r, a, b, c, d)
    ensures Shifted(State(r), 0) == [Sbox(a[0]), Sbox(b[1]), Sbox(c[2]), Sbox(d[3])]
    ensures Shifted(State(r), 1) == [Sbox(b[0]), Sbox(c[1]), Sbox(d[2]), Sbox(a[3])]
    ensures Shifted(State(r), 2) == [Sbox(c[0]), Sbox(d[1]), Sbox(a[2]), Sbox(b[3])]
    ensures Shifted(State(r), 3) == [Sbox(d[0]), Sbox(a[1]), Sbox(b[2]), Sbox(c[3])]
  {
    hide Sbox, State, WordAt;
    FourWords(State(r), a, b, c, d);
  }

  lemma B0()
    ensures StateIs(0, [0x19, 0x3D, 0xE3, 0xBE], [0xA0, 0xF4, 0xE2, 0x2B], [0x9A, 0xC6, 0x8D, 0x2A], [0xE9, 0xF8, 0x48, 0x08])
  {
    hide Word, ExpandKey;
    A1Words0();
    KeyCounts(KEY128);
    AddedAt(INPUT, ExpandKey(KEY128)[0], 0);
    KeyAt(0, 0);
    AddedAt(INPUT, ExpandKey(KEY128)[0], 1);
    KeyAt(0, 1);
    AddedAt(INPUT, ExpandKey(KEY128)[0], 2);
    KeyAt(0, 2);
    AddedAt(INPUT, ExpandKey(KEY128)[0], 3);
    KeyAt(0, 3);
  }

  lemma B1Column0() ensures [Sbox(0x19), Sbox(0xF4), Sbox(0x8D), Sbox(0x08)] == [0xD4, 0xBF, 0x5D, 0x30] && Mixed([0xD4, 0xBF, 0x5D, 0x30]) == [0x04, 0x66, 0x81, 0xE5] {}
  lemma B1Column1() ensures [Sbox(0xA0), Sbox(0xC6), Sbox(0x48), Sbox(0xBE)] == [0xE0, 0xB4, 0x52, 0xAE] && Mixed([0xE0, 0xB4, 0x52, 0xAE]) == [0xE0, 0xCB, 0x19, 0x9A] {}
  lemma B1Column2() ensures [Sbox(0x9A), Sbox(0xF8), Sbox(0xE3), Sbox(0x2B)] == [0xB8, 0x41, 0x11, 0xF1] && Mixed([0xB8, 0x41, 0x11, 0xF1]) == [0x48, 0xF8, 0xD3, 0x7A] {}
  lemma B1Column3() ensures [Sbox(0xE9), Sbox(0x3D), Sbox(0xE2), Sbox(0x2A)] == [0x1E, 0x27, 0x98, 0xE5] && Mixed([0x1E, 0x27, 0x98, 0xE5]) == [0x28, 0x06, 0x26, 0x4C] {}

  lemma B1()
    ensures StateIs(1, [0xA4, 0x9C, 0x7F, 0xF2], [0x68, 0x9F, 0x35, 0x2B], [0x6B, 0x5B, 0xEA, 0x43], [0x02, 0x6A, 0x50, 0x49])
  {
    hide Word, Sbox, Shifted, Mixed, State;
    B0();
    A1Words4();
    Diagonals(0, [0x19, 0x3D, 0xE3, 0xBE], [0xA0, 0xF4, 0xE2, 0x2B], [0x9A, 0xC6, 0x8D, 0x2A], [0xE9, 0xF8, 0x48, 0x08]);
    B1Column0();
    NextColumn(1, 0, [0xD4, 0xBF, 0x5D, 0x30], [0x04, 0x66, 0x81, 0xE5]);
    B1Column1();
    NextColumn(1, 1, [0xE0, 0xB4, 0x52, 0xAE], [0xE0, 0xCB, 0x19, 0x9A]);
    B1Column2();
    NextColumn(1, 2, [0xB8, 0x41, 0x11, 0xF1], [0x48, 0xF8, 0xD3, 0x7A]);
    B1Column3();
    NextColumn(1, 3, [0x1E, 0x27, 0x98, 0xE5], [0x28, 0x06, 0x26, 0x4C]);
  }

  lemma B2Column0() ensures [Sbox(0xA4), Sbox(0x9F), Sbox(0xEA), Sbox(0x49)] == [0x49, 0xDB, 0x87, 0x3B] && Mixed([0x49, 0xDB, 0x87, 0x3B]) == [0x58, 0x4D, 0xCA, 0xF1] {}
  lemma B2Column1() ensures [Sbox(0x68), Sbox(0x5B), Sbox(0x50), Sbox(0xF2)] == [0x45, 0x39, 0x53, 0x89] && Mixed([0x45, 0x39, 0x53, 0x89]) == [0x1B, 0x4B, 0x5A, 0xAC] {}
  lemma B2Column2() ensures [Sbox(0x6B), Sbox(0x6A), Sbox(0x7F), Sbox(0x2B)] == [0x7F, 0x02, 0xD2, 0xF1] && Mixed([0x7F, 0x02, 0xD2, 0xF1]) == [0xDB, 0xE7, 0xCA, 0xA8] {}
  lemma B2Column3() ensures [Sbox(0x02), Sbox(0x9C), Sbox(0x35), Sbox(0x43)] == [0x77, 0xDE, 0x96, 0x1A] && Mixed([0x77, 0xDE, 0x96, 0x1A]) == [0x1B, 0x6B, 0xB0, 0xE5] {}

  lemma B2()
    ensures StateIs(2, [0xAA, 0x8F, 0x5F, 0x03], [0x61, 0xDD, 0xE3, 0xEF], [0x82, 0xD2, 0x4A, 0xD2], [0x68, 0x32, 0x46, 0x9A])
  {
    hide Word, Sbox, Shifted, Mixed, State;
    B1();
    A1Words8();
    Diagonals(1, [0xA4, 0x9C, 0x7F, 0xF2], [0x68, 0x9F, 0x35, 0x2B], [0x6B, 0x5B, 0xEA, 0x43], [0x02, 0x6A, 0x50, 0x49]);
    B2Column0();
    NextColumn(2, 0, [0x49, 0xDB, 0x87, 0x3B], [0x58, 0x4D, 0xCA, 0xF1]);
    B2Column1();
    NextColumn(2, 1, [0x45, 0x39, 0x53, 0x89], [0x1B, 0x4B, 0x5A, 0xAC]);
    B2Column2();
    NextColumn(2, 2, [0x7F, 0x02, 0xD2, 0xF1], [0xDB, 0xE7, 0xCA, 0xA8]);
    B2Column3();
    NextColumn(2, 3, [0x77, 0xDE, 0x96, 0x1A], [0x1B, 0x6B, 0xB0, 0xE5]);
  }

  lemma B3Column0() ensures [Sbox(0xAA), Sbox(0xDD), Sbox(0x4A), Sbox(0x9A)] == [0xAC, 0xC1, 0xD6, 0xB8] && Mixed([0xAC, 0xC1, 0xD6, 0xB8]) == [0x75, 0xEC, 0x09, 0x93] {}
  lemma B3Column1() ensures [Sbox(0x61), Sbox(0xD2), Sbox(0x46), Sbox(0x03)] == [0xEF, 0xB5, 0x5A, 0x7B] && Mixed([0xEF, 0xB5, 0x5A, 0x7B]) == [0x20, 0x0B, 0x63, 0x33] {}
  lemma B3Column2() ensures [Sbox(0x82), Sbox(0x32), Sbox(0x5F), Sbox(0xEF)] == [0x13, 0x23, 0xCF, 0xDF] && Mixed([0x13, 0x23, 0xCF, 0xDF]) == [0x53, 0xC0, 0xCF, 0x7C] {}
  lemma B3Column3() ensures [Sbox(0x68), Sbox(0x8F), Sbox(0xE3), Sbox(0xD2)] == [0x45, 0x73, 0x11, 0xB5] && Mixed([0x45, 0x73, 0x11, 0xB5]) == [0xBB, 0x25, 0xD0, 0xDC] {}

  lemma B3()
    ensures StateIs(3, [0x48, 0x6C, 0x4E, 0xEE], [0x67, 0x1D, 0x9D, 0x0D], [0x4D, 0xE3, 0xB1, 0x38], [0xD6, 0x5F, 0x58, 0xE7])
  {
    hide Word, Sbox, Shifted, Mixed, State;
    B2();
    A1Words12();
    Diagonals(2, [0xAA, 0x8F, 0x5F, 0x03], [0x61, 0xDD, 0xE3, 0xEF], [0x82, 0xD2, 0x4A, 0xD2], [0x68, 0x32, 0x46, 0x9A]);
    B3Column0();
    NextColumn(3, 0, [0xAC, 0xC1, 0xD6, 0xB8], [0x75, 0xEC, 0x09, 0x93]);
    B3Column1();
    NextColumn(3, 1, [0xEF, 0xB5, 0x5A, 0x7B], [0x20, 0x0B, 0x63, 0x33]);
    B3Column2();
    NextColumn(3, 2, [0x13, 0x23, 0xCF, 0xDF], [0x53, 0xC0, 0xCF, 0x7C]);
    B3Column3();
    NextColumn(3, 3, [0x45, 0x73, 0x11, 0xB5], [0xBB, 0x25, 0xD0, 0xDC]);
  }

  lemma B4Column0() ensures [Sbox(0x48), Sbox(0x1D), Sbox(0xB1), Sbox(0xE7)] == [0x52, 0xA4, 0xC8, 0x94] && Mixed([0x52, 0xA4, 0xC8, 0x94]) == [0x0F, 0xD6, 0xDA, 0xA9] {}
  lemma B4Column1() ensures [Sbox(0x67), Sbox(0xE3), Sbox(0x58), Sbox(0xEE)] == [0x85, 0x11, 0x6A, 0x28] && Mixed([0x85, 0x11, 0x6A, 0x28]) == [0x60, 0x31, 0x38, 0xBF] {}
  lemma B4Column2() ensures [Sbox(0x4D), Sbox(0x5F), Sbox(0x4E), Sbox(0x0D)] == [0xE3, 0xCF, 0x2F, 0xD7] && Mixed([0xE3, 0xCF, 0x2F, 0xD7]) == [0x6F, 0xC0, 0x10, 0x6B] {}
  lemma B4Column3() ensures [Sbox(0xD6), Sbox(0x6C), Sbox(0x9D), Sbox(0x38)] == [0xF6, 0x50, 0x5E, 0x07] && Mixed([0xF6, 0x50, 0x5E, 0x07]) == [0x5E, 0xB3, 0x13, 0x01] {}

  lemma B4()
    ensures StateIs(4, [0xE0, 0x92, 0x7F, 0xE8], [0xC8, 0x63, 0x63, 0xC0], [0xD9, 0xB1, 0x35, 0x50], [0x85, 0xB8, 0xBE, 0x01])
  {
    hide Word, Sbox, Shifted, Mixed, State;
    B3();
    A1Words16();
    Diagonals(3, [0x48, 0x6C, 0x4E, 0xEE], [0x67, 0x1D, 0x9D, 0x0D], [0x4D, 0xE3, 0xB1, 0x38], [0xD6, 0x5F, 0x58, 0xE7]);
    B4Column0();
    NextColumn(4, 0, [0x52, 0xA4, 0xC8, 0x94], [0x0F, 0xD6, 0xDA, 0xA9]);
    B4Column1();
    NextColumn(4, 1, [0x85, 0x11, 0x6A, 0x28], [0x60, 0x31, 0x38, 0xBF]);
    B4Column2();
    NextColumn(4, 2, [0xE3, 0xCF, 0x2F, 0xD7], [0x6F, 0xC0, 0x10, 0x6B]);
    B4Column3();
    NextColumn(4, 3, [0xF6, 0x50, 0x5E, 0x07], [0x5E, 0xB3, 0x13, 0x01]);
  }

  lemma B5Column0() ensures [Sbox(0xE0), Sbox(0x63), Sbox(0x35), Sbox(0x01)] == [0xE1, 0xFB, 0x96, 0x7C] && Mixed([0xE1, 0xFB, 0x96, 0x7C]) == [0x25, 0xD1, 0xA9, 0xAD] {}
  lemma B5Column1() ensures [Sbox(0xC8), Sbox(0xB1), Sbox(0xBE), Sbox(0xE8)] == [0xE8, 0xC8, 0xAE, 0x9B] && Mixed([0xE8, 0xC8, 0xAE, 0x9B]) == [0xBD, 0x11, 0xD1, 0x68] {}
  lemma B5Column2() ensures [Sbox(0xD9), Sbox(0xB8), Sbox(0x7F), Sbox(0xC0)] == [0x35, 0x6C, 0xD2, 0xBA] && Mixed([0x35, 0x6C, 0xD2, 0xBA]) == [0xB6, 0x3A, 0x33, 0x8E] {}
  lemma B5Column3() ensures [Sbox(0x85), Sbox(0x92), Sbox(0x63), Sbox(0x50)] == [0x97, 0x4F, 0xFB, 0x53] && Mixed([0x97, 0x4F, 0xFB, 0x53]) == [0x4C, 0x4C, 0xC0, 0xB0] {}

  lemma B5()
    ensures StateIs(5, [0xF1, 0x00, 0x6F, 0x55], [0xC1, 0x92, 0x4C, 0xEF], [0x7C, 0xC8, 0x8B, 0x32], [0x5D, 0xB5, 0xD5, 0x0C])
  {
    hide Word, Sbox, Shifted, Mixed, State;
    B4();
    A1Words20();
    Diagonals(4, [0xE0, 0x92, 0x7F, 0xE8], [0xC8, 0x63, 0x63, 0xC0], [0xD9, 0xB1, 0x35, 0x50], [0x85, 0xB8, 0xBE, 0x01]);
    B5Column0();
    NextColumn(5, 0, [0xE1, 0xFB, 0x96, 0x7C], [0x25, 0xD1, 0xA9, 0xAD]);
    B5Column1();
    NextColumn(5, 1, [0xE8, 0xC8, 0xAE, 0x9B], [0xBD, 0x11, 0xD1, 0x68]);
    B5Column2();
    NextColumn(5, 2, [0x35, 0x6C, 0xD2, 0xBA], [0xB6, 0x3A, 0x33, 0x8E]);
    B5Column3();
    NextColumn(5, 3, [0x97, 0x4F, 0xFB, 0x53], [0x4C, 0x4C, 0xC0, 0xB0]);
  }

  lemma B6Column0() ensures [Sbox(0xF1), Sbox(0x92), Sbox(0x8B), Sbox(0x0C)] == [0xA1, 0x4F, 0x3D, 0xFE] && Mixed([0xA1, 0x4F, 0x3D, 0xFE]) == [0x4B, 0x86, 0x8D, 0x6D] {}
  lemma B6Column1() ensures [Sbox(0xC1), Sbox(0xC8), Sbox(0xD5), Sbox(0x55)] == [0x78, 0xE8, 0x03, 0xFC] && Mixed([0x78, 0xE8, 0x03, 0xFC]) == [0x2C, 0x4A, 0x89, 0x80] {}
  lemma B6Column2() ensures [Sbox(0x7C), Sbox(0xB5), Sbox(0x6F), Sbox(0xEF)] == [0x10, 0xD5, 0xA8, 0xDF] && Mixed([0x10, 0xD5, 0xA8, 0xDF]) == [0x33, 0x9D, 0xF4, 0xE8] {}
  lemma B6Column3() ensures [Sbox(0x5D), Sbox(0x00), Sbox(0x4C), Sbox(0x32)] == [0x4C, 0x63, 0x29, 0x23] && Mixed([0x4C, 0x63, 0x29, 0x23]) == [0x37, 0xD2, 0x18, 0xD8] {}

  lemma B6()
    ensures StateIs(6, [0x26, 0x0E, 0x2E, 0x17], [0x3D, 0x41, 0xB7, 0x7D], [0xE8, 0x64, 0x72, 0xA9], [0xFD, 0xD2, 0x8B, 0x25])
  {
    hide Word, Sbox, Shifted, Mixed, State;
    B5();
    A1Words24();
    Diagonals(5, [0xF1, 0x00, 0x6F, 0x55], [0xC1, 0x92, 0x4C, 0xEF], [0x7C, 0xC8, 0x8B, 0x32], [0x5D, 0xB5, 0xD5, 0x0C]);
    B6Column0();
    NextColumn(6, 0, [0xA1, 0x4F, 0x3D, 0xFE], [0x4B, 0x86, 0x8D, 0x6D]);
    B6Column1();
    NextColumn(6, 1, [0x78, 0xE8, 0x03, 0xFC], [0x2C, 0x4A, 0x89, 0x80]);
    B6Column2();
    NextColumn(6, 2, [0x10, 0xD5, 0xA8, 0xDF], [0x33, 0x9D, 0xF4, 0xE8]);
    B6Column3();
    NextColumn(6, 3, [0x4C, 0x63, 0x29, 0x23], [0x37, 0xD2, 0x18, 0xD8]);
  }

  lemma B7Column0() ensures [Sbox(0x26), Sbox(0x41), Sbox(0x72), Sbox(0x25)] == [0xF7, 0x83, 0x40, 0x3F] && Mixed([0xF7, 0x83, 0x40, 0x3F]) == [0x14, 0x15, 0xB5, 0xBF] {}
  lemma B7Column1() ensures [Sbox(0x3D), Sbox(0x64), Sbox(0x8B), Sbox(0x17)] == [0x27, 0x43, 0x3D, 0xF0] && Mixed([0x27, 0x43, 0x3D, 0xF0]) == [0x46, 0x16, 0x15, 0xEC] {}
  lemma B7Column2() ensures [Sbox(0xE8), Sbox(0xD2), Sbox(0x2E), Sbox(0x7D)] == [0x9B, 0xB5, 0x31, 0xFF] && Mixed([0x9B, 0xB5, 0x31, 0xFF]) == [0x27, 0x46, 0x56, 0xD7] {}
  lemma B7Column3() ensures [Sbox(0xFD), Sbox(0x0E), Sbox(0xB7), Sbox(0xA9)] == [0x54, 0xAB, 0xA9, 0xD3] && Mixed([0x54, 0xAB, 0xA9, 0xD3]) == [0x34, 0x2A, 0xD8, 0x43] {}

  lemma B7()
    ensures StateIs(7, [0x5A, 0x41, 0x42, 0xB1], [0x19, 0x49, 0xDC, 0x1F], [0xA3, 0xE0, 0x19, 0x65], [0x7A, 0x8C, 0x04, 0x0C])
  {
    hide Word, Sbox, Shifted, Mixed, State;
    B6();
    A1Words28();
    Diagonals(6, [0x26, 0x0E, 0x2E, 0x17], [0x3D, 0x41, 0xB7, 0x7D], [0xE8, 0x64, 0x72, 0xA9], [0xFD, 0xD2, 0x8B, 0x25]);
    B7Column0();
    NextColumn(7, 0, [0xF7, 0x83, 0x40, 0x3F], [0x14, 0x15, 0xB5, 0xBF]);
    B7Column1();
    NextColumn(7, 1, [0x27, 0x43, 0x3D, 0xF0], [0x46, 0x16, 0x15, 0xEC]);
    B7Column2();
    NextColumn(7, 2, [0x9B, 0xB5, 0x31, 0xFF], [0x27, 0x46, 0x56, 0xD7]);
    B7Column3();
    NextColumn(7, 3, [0x54, 0xAB, 0xA9, 0xD3], [0x34, 0x2A, 0xD8, 0x43]);
  }

  lemma B8Column0() ensures [Sbox(0x5A), Sbox(0x49), Sbox(0x19), Sbox(0x0C)] == [0xBE, 0x3B, 0xD4, 0xFE] && Mixed([0xBE, 0x3B, 0xD4, 0xFE]) == [0x00, 0x51, 0x2F, 0xD1] {}
  lemma B8Column1() ensures [Sbox(0x19), Sbox(0xE0), Sbox(0x04), Sbox(0xB1)] == [0xD4, 0xE1, 0xF2, 0xC8] && Mixed([0xD4, 0xE1, 0xF2, 0xC8]) == [0xB1, 0xC8, 0x89, 0xFF] {}
  lemma B8Column2() ensures [Sbox(0xA3), Sbox(0x8C), Sbox(0x42), Sbox(0x1F)] == [0x0A, 0x64, 0x2C, 0xC0] && Mixed([0x0A, 0x64, 0x2C, 0xC0]) == [0x54, 0x76, 0x6D, 0xCD] {}
  lemma B8Column3() ensures [Sbox(0x7A), Sbox(0x41), Sbox(0xDC), Sbox(0x65)] == [0xDA, 0x83, 0x86, 0x4D] && Mixed([0xDA, 0x83, 0x86, 0x4D]) == [0xFA, 0x1B, 0x99, 0xEA] {}

  lemma B8()
    ensures StateIs(8, [0xEA, 0x83, 0x5C, 0xF0], [0x04, 0x45, 0x33, 0x2D], [0x65, 0x5D, 0x98, 0xAD], [0x85, 0x96, 0xB0, 0xC5])
  {
    hide Word, Sbox, Shifted, Mixed, State;
    B7();
    A1Words32();
    Diagonals(7, [0x5A, 0x41, 0x42, 0xB1], [0x19, 0x49, 0xDC, 0x1F], [0xA3, 0xE0, 0x19, 0x65], [0x7A, 0x8C, 0x04, 0x0C]);
    B8Column0();
    NextColumn(8, 0, [0xBE, 0x3B, 0xD4, 0xFE], [0x00, 0x51, 0x2F, 0xD1]);
    B8Column1();
    NextColumn(8, 1, [0xD4, 0xE1, 0xF2, 0xC8], [0xB1, 0xC8, 0x89, 0xFF]);
    B8Column2();
    NextColumn(8, 2, [0x0A, 0x64, 0x2C, 0xC0], [0x54, 0x76, 0x6D, 0xCD]);
    B8Column3();
    NextColumn(8, 3, [0xDA, 0x83, 0x86, 0x4D], [0xFA, 0x1B, 0x99, 0xEA]);
  }

  lemma B9Column0() ensures [Sbox(0xEA), Sbox(0x45), Sbox(0x98), Sbox(0xC5)] == [0x87, 0x6E, 0x46, 0xA6] && Mixed([0x87, 0x6E, 0x46, 0xA6]) == [0x47, 0x37, 0x94, 0xED] {}
  lemma B9Column1() ensures [Sbox(0x04), Sbox(0x5D), Sbox(0xB0), Sbox(0xF0)] == [0xF2, 0x4C, 0xE7, 0x8C] && Mixed([0xF2, 0x4C, 0xE7, 0x8C]) == [0x40, 0xD4, 0xE4, 0xA5] {}
  lemma B9Column2() ensures [Sbox(0x65), Sbox(0x96), Sbox(0x5C), Sbox(0x2D)] == [0x4D, 0x90, 0x4A, 0xD8] && Mixed([0x4D, 0x90, 0x4A, 0xD8]) == [0xA3, 0x70, 0x3A, 0xA6] {}
  lemma B9Column3() ensures [Sbox(0x85), Sbox(0x83), Sbox(0x33), Sbox(0xAD)] == [0x97, 0xEC, 0xC3, 0x95] && Mixed([0x97, 0xEC, 0xC3, 0x95]) == [0x4C, 0x9F, 0x42, 0xBC] {}

  lemma B9()
    ensures StateIs(9, [0xEB, 0x40, 0xF2, 0x1E], [0x59, 0x2E, 0x38, 0x84], [0x8B, 0xA1, 0x13, 0xE7], [0x1B, 0xC3, 0x42, 0xD2])
  {
    hide Word, Sbox, Shifted, Mixed, State;
    B8();
    A1Words36();
    Diagonals(8, [0xEA, 0x83, 0x5C, 0xF0], [0x04, 0x45, 0x33, 0x2D], [0x65, 0x5D, 0x98, 0xAD], [0x85, 0x96, 0xB0, 0xC5]);
    B9Column0();
    NextColumn(9, 0, [0x87, 0x6E, 0x46, 0xA6], [0x47, 0x37, 0x94, 0xED]);
    B9Column1();
    NextColumn(9, 1, [0xF2, 0x4C, 0xE7, 0x8C], [0x40, 0xD4, 0xE4, 0xA5]);
    B9Column2();
    NextColumn(9, 2, [0x4D, 0x90, 0x4A, 0xD8], [0xA3, 0x70, 0x3A, 0xA6]);
    B9Column3();
    NextColumn(9, 3, [0x97, 0xEC, 0xC3, 0x95], [0x4C, 0x9F, 0x42, 0xBC]);
  }

  lemma B10Column0() ensures [Sbox(0xEB), Sbox(0x2E), Sbox(0x13), Sbox(0xD2)] == [0xE9, 0x31, 0x7D, 0xB5] {}
  lemma B10Column1() ensures [Sbox(0x59), Sbox(0xA1), Sbox(0x42), Sbox(0x1E)] == [0xCB, 0x32, 0x2C, 0x72] {}
  lemma B10Column2() ensures [Sbox(0x8B), Sbox(0xC3), Sbox(0xF2), Sbox(0x84)] == [0x3D, 0x2E, 0x89, 0x5F] {}
  lemma B10Column3() ensures [Sbox(0x1B), Sbox(0x40), Sbox(0x38), Sbox(0xE7)] == [0xAF, 0x09, 0x07, 0x94] {}

  /** The block of appendix B is encrypted as the standard says. */
  lemma BlockExample()
    ensures EncryptBlock(INPUT, ExpandKey(KEY128))
            == [0x39, 0x25, 0x84, 0x1D] + [0x02, 0xDC, 0x09, 0xFB] + [0xDC, 0x11, 0x85, 0x97] + [0x19, 0x6A, 0x0B, 0x32]
  {
    hide State, Word, Sbox, EncryptBlock, ExpandKey, WordAt;
    LastWords();
    FourWords(EncryptBlock(INPUT, ExpandKey(KEY128)), [0x39, 0x25, 0x84, 0x1D], [0x02, 0xDC, 0x09, 0xFB], [0xDC, 0x11, 0x85, 0x97], [0x19, 0x6A, 0x0B, 0x32]);
  }

  lemma LastWords()
    ensures var c := EncryptBlock(INPUT, ExpandKey(KEY128));
            WordAt(c, 0) == [0x39, 0x25, 0x84, 0x1D] && WordAt(c, 1) == [0x02, 0xDC, 0x09, 0xFB]
            && WordAt(c, 2) == [0xDC, 0x11, 0x85, 0x97] && WordAt(c, 3) == [0x19, 0x6A, 0x0B, 0x32]
  {
    hide Word, Sbox, Shifted, State, EncryptBlock, ExpandKey, WordAt;
    B9();
    A1Words40();
    Diagonals(9, [0xEB, 0x40, 0xF2, 0x1E], [0x59, 0x2E, 0x38, 0x84], [0x8B, 0xA1, 0x13, 0xE7], [0x1B, 0xC3, 0x42, 0xD2]);
    LastColumn(0);
    LastColumn(1);
    LastColumn(2);
    LastColumn(3);
    B10Column0();
    B10Column1();
    B10Column2();
    B10Column3();
  }

  lemma LastColumn(c: nat)
    requires c < 4
    ensures WordAt(EncryptBlock(INPUT, ExpandKey(KEY128)), c) == XorWord(Shifted(State(9), c), Word(KEY128, 40 + c))
  {
    hide SubBytes, ShiftRows, AddKey, ExpandKey, Shifted, XorWord, Word, WordAt, Rounds;
    var k := ExpandKey(KEY128);
    KeyCounts(KEY128);
    ShiftedAt(State(9), c);
    AddedAt(ShiftRows(SubBytes(State(9))), k[10], c);
    KeyAt(10, c);
  }

  lemma FourWords(s: Block, a: seq<bv8>, b: seq<bv8>, c: seq<bv8>, d: seq<bv8>)
    requires WordAt(s, 0) == a && WordAt(s, 1) == b && WordAt(s, 2) == c && WordAt(s, 3) == d
    ensures s == a + b + c + d
  {}
}
