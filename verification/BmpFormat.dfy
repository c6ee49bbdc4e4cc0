/** The BMP format field by field: what is in a file that was written, and what decides the reading. */
module BmpFormat {
  import opened Arithmetic
  import opened BitShift
  import opened Bmp
  import opened ByteArray
  import opened Options
  import opened PackedBitmap

  // ----- a file that was written -----

  lemma ZeroField(data: seq<byte>, at: nat, k: nat)
    requires At(data, at, LittleEndian(0, k))
    ensures at + k <= |data| && forall i :: at <= i < at + k ==> data[i] == 0
  {
    ZeroBytes(k);
    assert |LittleEndian(0, k)| == k;
    forall i | at <= i < at + k ensures data[i] == 0 {
      assert data[at..at + k][i - at] == LittleEndian(0, k)[i - at];
    }
  }

  lemma FileHeaderFields(data: seq<byte>, size: nat)
    requires At(data, 0, FileHeader(size)) && size < 0x1_0000_0000
    ensures |data| >= 14 && data[0] == 0x42 && data[1] == 0x4D
    ensures Field(data, 2, 4) == size && Field(data, 10, 4) == 62 && forall i :: 6 <= i < 10 ==> data[i] == 0
  {
    hide LittleEndian, At;
    var p: seq<byte> := [0x42, 0x4D];
    AtConcat(data, 0, p + LittleEndian(size, 4) + LittleEndian(0, 4), LittleEndian(HEADER, 4));
    AtConcat(data, 0, p + LittleEndian(size, 4), LittleEndian(0, 4));
    AtConcat(data, 0, p, LittleEndian(size, 4));
    Powers();
    FieldAt(data, 2, size, 4);
    FieldAt(data, 10, HEADER, 4);
    ZeroField(data, 6, 4);
    PairAt(data, p);
  }

  lemma PairAt(data: seq<byte>, p: seq<byte>)
    requires At(data, 0, p) && |p| == 2
    ensures |data| >= 2 && data[0] == p[0] && data[1] == p[1]
  {
    assert data[0..2][0] == data[0] && data[0..2][1] == data[1];
  }

  lemma FormatFields(data: seq<byte>, image: nat)
    requires At(data, 26, Format(image)) && image < 0x1_0000_0000
    ensures |data| >= 54 && Field(data, 26, 2) == 1 && Field(data, 28, 2) == 1 && Field(data, 34, 4) == image
    ensures (forall i :: 30 <= i < 34 ==> data[i] == 0) && (forall i :: 38 <= i < 54 ==> data[i] == 0)
  {
    hide LittleEndian, At;
    var (a, b, c, d) := (LittleEndian(1, 2), LittleEndian(0, 4), LittleEndian(image, 4), LittleEndian(0, 16));
    AtConcat(data, 26, a + a + b + c, d);
    AtConcat(data, 26, a + a + b, c);
    AtConcat(data, 26, a + a, b);
    AtConcat(data, 26, a, a);
    Powers();
    FieldAt(data, 26, 1, 2);
    FieldAt(data, 28, 1, 2);
    FieldAt(data, 34, image, 4);
    ZeroField(data, 30, 4);
    ZeroField(data, 38, 16);
  }

  /** All fields of the two headers and the palette, white before black. */
  lemma HeaderFields(img: Image)
    requires WellFormed(img) && Writable(img)
    ensures var data := Encode(img);
            && |data| == 62 + PaddedRow(img.width) * img.height && data[0] == 0x42 && data[1] == 0x4D
            && Field(data, 2, 4) == |data| && Field(data, 10, 4) == 62 && Field(data, 14, 4) == 40
            && Field(data, 18, 4) == img.width && Field(data, 22, 4) == img.height
            && Field(data, 26, 2) == 1 && Field(data, 28, 2) == 1 && Field(data, 34, 4) == |data| - 62
            && (forall i :: 6 <= i < 10 || 30 <= i < 34 || 38 <= i < 54 ==> data[i] == 0)
            && (forall i :: 54 <= i < 58 ==> data[i] == 255) && (forall i :: 58 <= i < 62 ==> data[i] == 0)
  {
    hide Encode, HeaderBytes, LittleEndian, ByteArray.Value, At, Power256, PaddedRow, AreaByte, Field, FileHeader, Extent, Format, Palette;
    var data := Encode(img);
    EncodeSplit(img);
    HeaderParts(data, img.width, img.height);
    FileHeaderFields(data, |data|);
    ExtentParts(data, 14, img.width, img.height);
    Powers();
    FieldAt(data, 14, 40, 4);
    FieldAt(data, 18, img.width, 4);
    FieldAt(data, 22, img.height, 4);
    FormatFields(data, |data| - 62);
    PaletteBytes(data);
  }

  lemma PaletteBytes(data: seq<byte>)
    requires At(data, 54, Palette())
    ensures |data| >= 62 && (forall i :: 54 <= i < 58 ==> data[i] == 255) && (forall i :: 58 <= i < 62 ==> data[i] == 0)
  {
    var p := Palette();
    forall i | 54 <= i < 62 ensures data[i] == p[i - 54] {
      assert data[54..62][i - 54] == data[i];
    }
  }

  /** A row takes its bytes, rounded up to four. */
  lemma RowLength(width: nat)
    ensures PaddedRow(width) == (width + 31) / 32 * 4
  {
    var bytes := (width + 7) / 8;
    assert (bytes + 3) / 4 == (width + 31) / 32;
  }

  /** Bit j, from the highest one, of byte c of row r of the pixel data: the pixel of the row, counted
      from the bottom, or 0 beyond the width. */
  lemma AreaBits(img: Image, r: nat, c: nat, j: nat)
    requires WellFormed(img) && r < img.height && c < PaddedRow(img.width) && j < 8
    ensures var at := 62 + (r * PaddedRow(img.width) + c);
            at < |Encode(img)|
            && Bit(AsBits(Encode(img)[at]), j) == (8 * c + j < img.width && img.rows[img.height - 1 - r][8 * c + j])
  {
    hide Encode, PackedByte, Bit, PaddedRow, AsByte, AsBits, HeaderBytes;
    EncodeSplit(img);
    var pad := PaddedRow(img.width);
    var row := img.rows[img.height - 1 - r];
    PlaceWithin(8 * c, r, pad, img.height);
    Divided(r * pad + c, pad, r, c);
    assert AreaByte(img, r * pad + c) == AsByte(PackedByte(row, c, img.width));
    PackedBit(row, c, img.width, j);
    ByteBits(PackedByte(row, c, img.width));
  }

  // ----- what decides the reading -----

  /** The files that are read: signature, header size, extents, one plane of one bit, no compression,
      and all rows there. */
  lemma AcceptedExactly(data: seq<byte>)
    ensures Decode(data).Picture? <==>
      |data| >= 54 && Field(data, 0, 2) == 0x4D42 && Field(data, 14, 4) >= 40
      && 0 < Field(data, 18, 4) < 0x8000_0000 && Field(data, 22, 4) != 0
      && Field(data, 26, 2) == 1 && Field(data, 28, 2) == 1 && Field(data, 30, 4) == 0
      && var (w, h) := (Field(data, 18, 4), Field(data, 22, 4));
         Field(data, 10, 4) + (w + 31) / 32 * 4 * Abs(Signed(h)) <= |data|
  {
    hide Field, PaddedRow, FileRow, SetIsDark;
    DecodeCases(data);
    if |data| >= 54 {
      FieldBound(data, 18);
      FieldBound(data, 22);
      var w := Signed(Field(data, 18, 4));
      if w > 0 { RowLength(w); }
    }
  }

  /** A set bit is a dark pixel unless there are two palette entries of which the first is not brighter. */
  lemma DarkExactly(data: seq<byte>)
    requires |data| >= 54
    ensures var p := (14 + Field(data, 14, 4)) % 0x1_0000_0000;
            SetIsDark(data) <==>
            |data| < p + 8
            || (data[p] as int + data[p + 1] as int + data[p + 2] as int) / 3
               > (data[p + 4] as int + data[p + 5] as int + data[p + 6] as int) / 3
  {
    hide Field;
  }

  /** The same file but for the sign of its height. */
  ghost predicate Flipped(data: seq<byte>, other: seq<byte>) {
    && |data| == |other| >= 54 && (forall i :: 0 <= i < |data| && !(22 <= i < 26) ==> data[i] == other[i])
    && Signed(Field(other, 22, 4)) == -Signed(Field(data, 22, 4))
    && Field(data, 10, 4) >= 26
  }

  lemma SameField(data: seq<byte>, other: seq<byte>, at: nat, k: nat)
    requires |data| == |other| && at + k <= |data| && (at + k <= 22 || at >= 26)
    requires forall i :: 0 <= i < |data| && !(22 <= i < 26) ==> data[i] == other[i]
    ensures Field(data, at, k) == Field(other, at, k)
  {
    assert data[at..at + k] == other[at..at + k];
  }

  lemma SameDark(data: seq<byte>, other: seq<byte>)
    requires Flipped(data, other) && Field(data, 14, 4) >= 40 && Refusal(data).None?
    requires (14 + Field(data, 14, 4)) % 0x1_0000_0000 >= 26
    ensures SetIsDark(data) == SetIsDark(other)
  {
    hide Field, Refusal;
    SameField(data, other, 14, 4);
  }

  lemma FlippedAccepted(data: seq<byte>, other: seq<byte>)
    requires Flipped(data, other) && Refusal(data).None?
    ensures Refusal(other).None? && Field(other, 10, 4) == Field(data, 10, 4) && Field(other, 18, 4) == Field(data, 18, 4)
    ensures Signed(Field(data, 22, 4)) != 0
  {
    hide Field, PaddedRow;
    SameField(data, other, 0, 2);
    SameField(data, other, 10, 4);
    SameField(data, other, 14, 4);
    SameField(data, other, 18, 4);
    SameField(data, other, 26, 2);
    SameField(data, other, 28, 2);
    SameField(data, other, 30, 4);
    FieldBound(data, 22);
    FieldBound(other, 22);
  }

  /** A negative height means that the rows come from the top: the image is that of the positive one
      upside down. */
  lemma TopDown(data: seq<byte>, other: seq<byte>)
    requires Flipped(data, other) && Decode(data).Picture? && (14 + Field(data, 14, 4)) % 0x1_0000_0000 >= 26
    ensures Decode(other).Picture?
    ensures var (a, b) := (Decode(data).img, Decode(other).img);
            a.width == b.width && a.height == b.height && |a.rows| == |b.rows| == a.height
            && forall y :: 0 <= y < a.height ==> b.rows[y] == a.rows[a.height - 1 - y]
  {
    hide Field, Refusal, PaddedRow, FileRow, SetIsDark, Signed;
    DecodeCases(data);
    DecodeCases(other);
    FlippedAccepted(data, other);
    SmallHeader(data);
    SameDark(data, other);
    var (a, b) := (Decode(data).img, Decode(other).img);
    var (w, h, offset, dark) := (a.width, a.height, Field(data, 10, 4), SetIsDark(data));
    forall y | 0 <= y < h ensures b.rows[y] == a.rows[h - 1 - y] {
      var s := Signed(Field(data, 22, 4));
      SameRow(data, other, offset, w, h, if s < 0 then h - 1 - y else y, dark);
    }
  }

  lemma SmallHeader(data: seq<byte>)
    requires Refusal(data).None?
    ensures Field(data, 14, 4) >= 40
  {
    hide Field, PaddedRow;
  }

  lemma SameRow(data: seq<byte>, other: seq<byte>, offset: nat, width: nat, height: nat, row: nat, dark: bool)
    requires |data| == |other| && offset >= 26 && row < height && offset + PaddedRow(width) * height <= |data|
    requires forall i :: 0 <= i < |data| && !(22 <= i < 26) ==> data[i] == other[i]
    ensures FileRow(data, offset, width, height, row, dark) == FileRow(other, offset, width, height, row, dark)
  {
    hide PaddedRow, Bit, AsBits;
    forall x | 0 <= x < width
      ensures FileRow(data, offset, width, height, row, dark)[x] == FileRow(other, offset, width, height, row, dark)[x]
    {
      PlaceWithin(x, row, PaddedRow(width), height);
    }
  }
}
