/** The substitution tables of the cipher (section 5.1.1 of FIPS 197), one row per high nibble. */
module AesTables {

  /** The entry of a row at the low nibble `i`. */
  function Entry(i: bv8, v0: bv8, v1: bv8, v2: bv8, v3: bv8, v4: bv8, v5: bv8, v6: bv8, v7: bv8,
                 v8: bv8, v9: bv8, v10: bv8, v11: bv8, v12: bv8, v13: bv8, v14: bv8, v15: bv8): bv8 {
    if i < 8 then
      if i < 4 then (if i < 2 then (if i < 1 then v0 else v1) else (if i < 3 then v2 else v3))
      else (if i < 6 then (if i < 5 then v4 else v5) else (if i < 7 then v6 else v7))
    else
      if i < 12 then (if i < 10 then (if i < 9 then v8 else v9) else (if i < 11 then v10 else v11))
      else (if i < 14 then (if i < 13 then v12 else v13) else (if i < 15 then v14 else v15))
  }

  /** SBOX */
  function Sbox(x: bv8): bv8 {
    var i := x & 0x0F;
    if x < 0x10 then Entry(i, 0x63, 0x7C, 0x77, 0x7B, 0xF2, 0x6B, 0x6F, 0xC5, 0x30, 0x01, 0x67, 0x2B, 0xFE, 0xD7, 0xAB, 0x76)
    else if x < 0x20 then Entry(i, 0xCA, 0x82, 0xC9, 0x7D, 0xFA, 0x59, 0x47, 0xF0, 0xAD, 0xD4, 0xA2, 0xAF, 0x9C, 0xA4, 0x72, 0xC0)
    else if x < 0x30 then Entry(i, 0xB7, 0xFD, 0x93, 0x26, 0x36, 0x3F, 0xF7, 0xCC, 0x34, 0xA5, 0xE5, 0xF1, 0x71, 0xD8, 0x31, 0x15)
    else if x < 0x40 then Entry(i, 0x04, 0xC7, 0x23, 0xC3, 0x18, 0x96, 0x05, 0x9A, 0x07, 0x12, 0x80, 0xE2, 0xEB, 0x27, 0xB2, 0x75)
    else if x < 0x50 then Entry(i, 0x09, 0x83, 0x2C, 0x1A, 0x1B, 0x6E, 0x5A, 0xA0, 0x52, 0x3B, 0xD6, 0xB3, 0x29, 0xE3, 0x2F, 0x84)
    else if x < 0x60 then Entry(i, 0x53, 0xD1, 0x00, 0xED, 0x20, 0xFC, 0xB1, 0x5B, 0x6A, 0xCB, 0xBE, 0x39, 0x4A, 0x4C, 0x58, 0xCF)
    else if x < 0x70 then Entry(i, 0xD0, 0xEF, 0xAA, 0xFB, 0x43, 0x4D, 0x33, 0x85, 0x45, 0xF9, 0x02, 0x7F, 0x50, 0x3C, 0x9F, 0xA8)
    else if x < 0x80 then Entry(i, 0x51, 0xA3, 0x40, 0x8F, 0x92, 0x9D, 0x38, 0xF5, 0xBC, 0xB6, 0xDA, 0x21, 0x10, 0xFF, 0xF3, 0xD2)
    else if x < 0x90 then Entry(i, 0xCD, 0x0C, 0x13, 0xEC, 0x5F, 0x97, 0x44, 0x17, 0xC4, 0xA7, 0x7E, 0x3D, 0x64, 0x5D, 0x19, 0x73)
    else if x < 0xA0 then Entry(i, 0x60, 0x81, 0x4F, 0xDC, 0x22, 0x2A, 0x90, 0x88, 0x46, 0xEE, 0xB8, 0x14, 0xDE, 0x5E, 0x0B, 0xDB)
    else if x < 0xB0 then Entry(i, 0xE0, 0x32, 0x3A, 0x0A, 0x49, 0x06, 0x24, 0x5C, 0xC2, 0xD3, 0xAC, 0x62, 0x91, 0x95, 0xE4, 0x79)
    else if x < 0xC0 then Entry(i, 0xE7, 0xC8, 0x37, 0x6D, 0x8D, 0xD5, 0x4E, 0xA9, 0x6C, 0x56, 0xF4, 0xEA, 0x65, 0x7A, 0xAE, 0x08)
    else if x < 0xD0 then Entry(i, 0xBA, 0x78, 0x25, 0x2E, 0x1C, 0xA6, 0xB4, 0xC6, 0xE8, 0xDD, 0x74, 0x1F, 0x4B, 0xBD, 0x8B, 0x8A)
    else if x < 0xE0 then Entry(i, 0x70, 0x3E, 0xB5, 0x66, 0x48, 0x03, 0xF6, 0x0E, 0x61, 0x35, 0x57, 0xB9, 0x86, 0xC1, 0x1D, 0x9E)
    else if x < 0xF0 then Entry(i, 0xE1, 0xF8, 0x98, 0x11, 0x69, 0xD9, 0x8E, 0x94, 0x9B, 0x1E, 0x87, 0xE9, 0xCE, 0x55, 0x28, 0xDF)
    else Entry(i, 0x8C, 0xA1, 0x89, 0x0D, 0xBF, 0xE6, 0x42, 0x68, 0x41, 0x99, 0x2D, 0x0F, 0xB0, 0x54, 0xBB, 0x16)
  }

  /** INV_SBOX */
  function InvSbox(x: bv8): bv8 {
    var i := x & 0x0F;
    if x < 0x10 then Entry(i, 0x52, 0x09, 0x6A, 0xD5, 0x30, 0x36, 0xA5, 0x38, 0xBF, 0x40, 0xA3, 0x9E, 0x81, 0xF3, 0xD7, 0xFB)
    else if x < 0x20 then Entry(i, 0x7C, 0xE3, 0x39, 0x82, 0x9B, 0x2F, 0xFF, 0x87, 0x34, 0x8E, 0x43, 0x44, 0xC4, 0xDE, 0xE9, 0xCB)
    else if x < 0x30 then Entry(i, 0x54, 0x7B, 0x94, 0x32, 0xA6, 0xC2, 0x23, 0x3D, 0xEE, 0x4C, 0x95, 0x0B, 0x42, 0xFA, 0xC3, 0x4E)
    else if x < 0x40 then Entry(i, 0x08, 0x2E, 0xA1, 0x66, 0x28, 0xD9, 0x24, 0xB2, 0x76, 0x5B, 0xA2, 0x49, 0x6D, 0x8B, 0xD1, 0x25)
    else if x < 0x50 then Entry(i, 0x72, 0xF8, 0xF6, 0x64, 0x86, 0x68, 0x98, 0x16, 0xD4, 0xA4, 0x5C, 0xCC, 0x5D, 0x65, 0xB6, 0x92)
    else if x < 0x60 then Entry(i, 0x6C, 0x70, 0x48, 0x50, 0xFD, 0xED, 0xB9, 0xDA, 0x5E, 0x15, 0x46, 0x57, 0xA7, 0x8D, 0x9D, 0x84)
    else if x < 0x70 then Entry(i, 0x90, 0xD8, 0xAB, 0x00, 0x8C, 0xBC, 0xD3, 0x0A, 0xF7, 0xE4, 0x58, 0x05, 0xB8, 0xB3, 0x45, 0x06)
    else if x < 0x80 then Entry(i, 0xD0, 0x2C, 0x1E, 0x8F, 0xCA, 0x3F, 0x0F, 0x02, 0xC1, 0xAF, 0xBD, 0x03, 0x01, 0x13, 0x8A, 0x6B)
    else if x < 0x90 then Entry(i, 0x3A, 0x91, 0x11, 0x41, 0x4F, 0x67, 0xDC, 0xEA, 0x97, 0xF2, 0xCF, 0xCE, 0xF0, 0xB4, 0xE6, 0x73)
    else if x < 0xA0 then Entry(i, 0x96, 0xAC, 0x74, 0x22, 0xE7, 0xAD, 0x35, 0x85, 0xE2, 0xF9, 0x37, 0xE8, 0x1C, 0x75, 0xDF, 0x6E)
    else if x < 0xB0 then Entry(i, 0x47, 0xF1, 0x1A, 0x71, 0x1D, 0x29, 0xC5, 0x89, 0x6F, 0xB7, 0x62, 0x0E, 0xAA, 0x18, 0xBE, 0x1B)
    else if x < 0xC0 then Entry(i, 0xFC, 0x56, 0x3E, 0x4B, 0xC6, 0xD2, 0x79, 0x20, 0x9A, 0xDB, 0xC0, 0xFE, 0x78, 0xCD, 0x5A, 0xF4)
    else if x < 0xD0 then Entry(i, 0x1F, 0xDD, 0xA8, 0x33, 0x88, 0x07, 0xC7, 0x31, 0xB1, 0x12, 0x10, 0x59, 0x27, 0x80, 0xEC, 0x5F)
    else if x < 0xE0 then Entry(i, 0x60, 0x51, 0x7F, 0xA9, 0x19, 0xB5, 0x4A, 0x0D, 0x2D, 0xE5, 0x7A, 0x9F, 0x93, 0xC9, 0x9C, 0xEF)
    else if x < 0xF0 then Entry(i, 0xA0, 0xE0, 0x3B, 0x4D, 0xAE, 0x2A, 0xF5, 0xB0, 0xC8, 0xEB, 0xBB, 0x3C, 0x83, 0x53, 0x99, 0x61)
    else Entry(i, 0x17, 0x2B, 0x04, 0x7E, 0xBA, 0x77, 0xD6, 0x26, 0xE1, 0x69, 0x14, 0x63, 0x55, 0x21, 0x0C, 0x7D)
  }

  /** The round constants; entry 0 is not used. */
  const RCON: seq<bv8> := [0x00, 0x01, 0x02, 0x04, 0x08, 0x10, 0x20, 0x40, 0x80, 0x1B, 0x36]

  // The tables are inverse to each other, a quarter at a time.
  lemma Quarter0(x: bv8) requires 0x00 <= x <= 0x3F ensures InvSbox(Sbox(x)) == x {}
  lemma InvQuarter0(x: bv8) requires 0x00 <= x <= 0x3F ensures Sbox(InvSbox(x)) == x {}
  lemma Quarter1(x: bv8) requires 0x40 <= x <= 0x7F ensures InvSbox(Sbox(x)) == x {}
  lemma InvQuarter1(x: bv8) requires 0x40 <= x <= 0x7F ensures Sbox(InvSbox(x)) == x {}
  lemma Quarter2(x: bv8) requires 0x80 <= x <= 0xBF ensures InvSbox(Sbox(x)) == x {}
  lemma InvQuarter2(x: bv8) requires 0x80 <= x <= 0xBF ensures Sbox(InvSbox(x)) == x {}
  lemma Quarter3(x: bv8) requires 0xC0 <= x <= 0xFF ensures InvSbox(Sbox(x)) == x {}
  lemma InvQuarter3(x: bv8) requires 0xC0 <= x <= 0xFF ensures Sbox(InvSbox(x)) == x {}

  /** Both tables are permutations of the bytes, and each undoes the other. */
  lemma TablesInverse(x: bv8)
    ensures InvSbox(Sbox(x)) == x && Sbox(InvSbox(x)) == x
  {
    hide Sbox, InvSbox;
    if x < 0x40 {
      Quarter0(x);
      InvQuarter0(x);
    } else if x < 0x80 {
      Quarter1(x);
      InvQuarter1(x);
    } else if x < 0xC0 {
      Quarter2(x);
      InvQuarter2(x);
    } else {
      Quarter3(x);
      InvQuarter3(x);
    }
  }
}
