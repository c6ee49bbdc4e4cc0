/** One-bit images as BMP files. */
module Bmp {
  import opened Arithmetic
  import opened BitShift
  import opened ByteArray
  import opened Options
  import opened PackedBitmap

  const HEADER: nat := 62

  /** Rows in the file take a multiple of four bytes. */
  function PaddedRow(width: nat): (n: nat)
    ensures 8 * n >= width && (width > 0 ==> n >= 4)
  {
    RowBytesFit(width, 4);
    RowBytes(width, 4)
  }

  // ----- writing -----

  /** The byte at column `c` of a row, the pixels below `n` put in, the leftmost one highest. */
  function PackedByte(row: seq<bool>, c: nat, n: nat): bv8
    requires n <= |row|
  {
    if n == 0 then 0
    else if row[n - 1] && (n - 1) / 8 == c then Or(PackedByte(row, c, n - 1), Mask((n - 1) % 8))
    else PackedByte(row, c, n - 1)
  }

  function AsByte(b: bv8): byte {
    b as int
  }

  function AsBits(b: byte): bv8 {
    b as bv8
  }

  lemma ByteBits(b: bv8)
    ensures AsBits(AsByte(b)) == b
  {}

  /** Byte k of the pixel data, the bottom row first. */
  function AreaByte(img: Image, k: nat): byte
    requires WellFormed(img) && k < PaddedRow(img.width) * img.height
  {
    var pad := PaddedRow(img.width);
    assert pad > 0;
    QuotientBelow(k, pad, img.height);
    AsByte(PackedByte(img.rows[img.height - 1 - k / pad], k % pad, img.width))
  }

  function FileHeader(size: nat): (h: seq<byte>)
    ensures |h| == 14
  {
    [0x42, 0x4D] + LittleEndian(size, 4) + LittleEndian(0, 4) + LittleEndian(HEADER, 4)
  }

  function Extent(width: nat, height: nat): (h: seq<byte>)
    ensures |h| == 12
  {
    LittleEndian(40, 4) + LittleEndian(width, 4) + LittleEndian(height, 4)
  }

  function Format(image: nat): (h: seq<byte>)
    ensures |h| == 28
  {
    LittleEndian(1, 2) + LittleEndian(1, 2) + LittleEndian(0, 4) + LittleEndian(image, 4) + LittleEndian(0, 16)
  }

  /** White, then black. */
  function Palette(): (p: seq<byte>)
    ensures |p| == 8
  {
    [255, 255, 255, 255] + [0, 0, 0, 0]
  }

  function HeaderBytes(width: nat, height: nat): (h: seq<byte>)
    ensures |h| == HEADER
  {
    var image := PaddedRow(width) * height;
    FileHeader(HEADER + image) + Extent(width, height) + Format(image) + Palette()
  }

  function Encode(img: Image): seq<byte>
    requires WellFormed(img)
  {
    HeaderBytes(img.width, img.height)
    + seq(PaddedRow(img.width) * img.height, k requires 0 <= k < PaddedRow(img.width) * img.height => AreaByte(img, k))
  }

  /** The files whose sizes fit their fields. */
  predicate Writable(img: Image) {
    img.width < 0x8000_0000 && img.height < 0x8000_0000 && HEADER + PaddedRow(img.width) * img.height < 0x1_0000_0000
  }

  // ----- reading -----

  datatype Reason = TooSmall | BadSignature | BadInfoHeader | BadWidth | BadHeight | BadPlanes | BadDepth | Compressed | Truncated

  datatype Decoded = Picture(img: Image) | Rejected(reason: Reason)

  function Field(data: seq<byte>, at: nat, k: nat): (n: nat)
    requires at + k <= |data|
  {
    ByteArray.Value(data[at..at + k])
  }

  /** A field read as a signed number of 32 bits. */
  function Signed(n: nat): int {
    if n >= 0x8000_0000 then n - 0x1_0000_0000 else n
  }

  /** The brightness of a palette entry. */
  function Luminance(data: seq<byte>, at: nat): nat
    requires at + 3 <= |data|
  {
    var (r: int, g: int, b: int) := (data[at], data[at + 1], data[at + 2]);
    (r + g + b) / 3
  }

  /** Does a set bit mean dark? The palette decides, and without one it does.  Its place is computed
      in 32 unsigned bits. */
  predicate SetIsDark(data: seq<byte>)
    requires |data| >= 54
  {
    var palette := (14 + Field(data, 14, 4)) % 0x1_0000_0000;
    |data| >= palette + 8 ==> Luminance(data, palette) > Luminance(data, palette + 4)
  }

  function FilePixel(data: seq<byte>, offset: nat, pad: nat, row: nat, x: nat): bool
    requires offset + row * pad + x / 8 < |data|
  {
    Bit(AsBits(data[offset + row * pad + x / 8]), x % 8)
  }

  /** The checks before the pixels are read, in their order. */
  function Refusal(data: seq<byte>): (r: Option<Reason>)
    ensures r.None? ==> |data| >= 54 && Signed(Field(data, 18, 4)) > 0
    ensures r.None? ==>
              Field(data, 10, 4) + PaddedRow(Signed(Field(data, 18, 4))) * Abs(Signed(Field(data, 22, 4))) <= |data|
  {
    if |data| < 54 then Some(TooSmall)
    else if Field(data, 0, 2) != 0x4D42 then Some(BadSignature)
    else if Field(data, 14, 4) < 40 then Some(BadInfoHeader)
    else if Signed(Field(data, 18, 4)) <= 0 then Some(BadWidth)
    else if Field(data, 22, 4) == 0 then Some(BadHeight)
    else if Field(data, 26, 2) != 1 then Some(BadPlanes)
    else if Field(data, 28, 2) != 1 then Some(BadDepth)
    else if Field(data, 30, 4) != 0 then Some(Compressed)
    else if Field(data, 10, 4) + PaddedRow(Signed(Field(data, 18, 4))) * Abs(Signed(Field(data, 22, 4))) > |data| then
      Some(Truncated)
    else None
  }

  function Abs(x: int): nat {
    if x < 0 then -x else x
  }

  /** A negative height means rows from the top. */
  function Decode(data: seq<byte>): Decoded {
    match Refusal(data)
    case Some(reason) => Rejected(reason)
    case None =>
      var (width, signed) := (Signed(Field(data, 18, 4)), Signed(Field(data, 22, 4)));
      var height := Abs(signed);
      var dark := SetIsDark(data);
      Picture(Image(width, height, seq(height, y requires 0 <= y < height =>
        FileRow(data, Field(data, 10, 4), width, height, if signed < 0 then y else height - 1 - y, dark))))
  }

  function FileRow(data: seq<byte>, offset: nat, width: nat, height: nat, row: nat, dark: bool): (r: seq<bool>)
    requires row < height && offset + PaddedRow(width) * height <= |data|
    ensures |r| == width
  {
    seq(width, x requires 0 <= x < width =>
      PlaceWithin(x, row, PaddedRow(width), height);
      FilePixel(data, offset, PaddedRow(width), row, x) == dark)
  }

  // ----- what was written is read -----

  lemma {:induction false} PackedBit(row: seq<bool>, c: nat, n: nat, j: nat)
    requires n <= |row| && j < 8
    ensures Bit(PackedByte(row, c, n), j) == (8 * c + j < n && row[8 * c + j])
    decreases n
  {
    hide Bit, Or, Mask;
    if n == 0 {
      BitZero(j);
    } else {
      PackedBit(row, c, n - 1, j);
      MaskBits(j, (n - 1) % 8);
      BitOr(PackedByte(row, c, n - 1), Mask((n - 1) % 8), j);
    }
  }

  lemma FieldAt(data: seq<byte>, at: nat, n: nat, k: nat)
    requires n < Power256(k) && At(data, at, LittleEndian(n, k))
    ensures at + k <= |data| && Field(data, at, k) == n
  {
    LittleEndianValue(n, k);
  }

  lemma Powers()
    ensures Power256(4) == 0x1_0000_0000 && Power256(2) == 0x1_0000
  {
    assert Power256(2) == 256 * 256;
    assert Power256(4) == 256 * 256 * Power256(2);
  }

  lemma FileHeaderParts(data: seq<byte>, size: nat)
    requires At(data, 0, FileHeader(size))
    ensures At(data, 0, [0x42, 0x4D]) && At(data, 10, LittleEndian(HEADER, 4))
  {
    hide LittleEndian, At;
    var p: seq<byte> := [0x42, 0x4D];
    AtConcat(data, 0, p + LittleEndian(size, 4) + LittleEndian(0, 4), LittleEndian(HEADER, 4));
    AtConcat(data, 0, p + LittleEndian(size, 4), LittleEndian(0, 4));
    AtConcat(data, 0, p, LittleEndian(size, 4));
  }

  lemma ExtentParts(data: seq<byte>, at: nat, w: nat, h: nat)
    requires At(data, at, Extent(w, h))
    ensures At(data, at, LittleEndian(40, 4)) && At(data, at + 4, LittleEndian(w, 4)) && At(data, at + 8, LittleEndian(h, 4))
  {
    hide LittleEndian, At;
    AtConcat(data, at, LittleEndian(40, 4) + LittleEndian(w, 4), LittleEndian(h, 4));
    AtConcat(data, at, LittleEndian(40, 4), LittleEndian(w, 4));
  }

  lemma FormatParts(data: seq<byte>, at: nat, image: nat)
    requires At(data, at, Format(image))
    ensures At(data, at, LittleEndian(1, 2)) && At(data, at + 2, LittleEndian(1, 2)) && At(data, at + 4, LittleEndian(0, 4))
  {
    hide LittleEndian, At;
    var (a, b, c, d) := (LittleEndian(1, 2), LittleEndian(0, 4), LittleEndian(image, 4), LittleEndian(0, 16));
    AtConcat(data, at, a + a + b + c, d);
    AtConcat(data, at, a + a + b, c);
    AtConcat(data, at, a + a, b);
    AtConcat(data, at, a, a);
  }

  /** The parts of the header at their places. */
  lemma HeaderParts(data: seq<byte>, w: nat, h: nat)
    requires At(data, 0, HeaderBytes(w, h))
    ensures At(data, 0, FileHeader(HEADER + PaddedRow(w) * h)) && At(data, 14, Extent(w, h))
    ensures At(data, 26, Format(PaddedRow(w) * h)) && At(data, 54, Palette())
  {
    hide At, FileHeader, Extent, Format, Palette, PaddedRow;
    var image := PaddedRow(w) * h;
    var (a, b, c, d) := (FileHeader(HEADER + image), Extent(w, h), Format(image), Palette());
    AtConcat(data, 0, a + b + c, d);
    AtConcat(data, 0, a + b, c);
    AtConcat(data, 0, a, b);
  }

  lemma Signature(data: seq<byte>)
    requires At(data, 0, [0x42, 0x4D])
    ensures |data| >= 2 && Field(data, 0, 2) == 0x4D42
  {
    var s: seq<byte> := [0x42, 0x4D];
    assert s[1..] == [0x4D] && s[1..][1..] == [];
    assert ByteArray.Value(s) == 0x42 + 256 * ByteArray.Value(s[1..]);
  }

  lemma PaletteRead(data: seq<byte>)
    requires At(data, 54, Palette())
    ensures |data| >= HEADER && Luminance(data, 54) == 255 && Luminance(data, 58) == 0
  {
    var p := data[54..62];
    assert p[0] == 255 && p[1] == 255 && p[2] == 255 && p[4] == 0 && p[5] == 0 && p[6] == 0;
  }

  lemma EncodeSplit(img: Image)
    requires WellFormed(img)
    ensures var (data, n) := (Encode(img), PaddedRow(img.width) * img.height);
            |data| == HEADER + n && At(data, 0, HeaderBytes(img.width, img.height))
            && forall k :: 0 <= k < n ==> data[HEADER + k] == AreaByte(img, k)
  {
    hide HeaderBytes, AreaByte, PaddedRow;
    var data := Encode(img);
    assert data[0..HEADER] == HeaderBytes(img.width, img.height);
  }

  /** Nothing in a written file is refused, and a set bit means dark. */
  lemma EncodeAccepted(img: Image)
    requires WellFormed(img) && Writable(img) && img.width > 0 && img.height > 0
    ensures var data := Encode(img);
            Refusal(data).None? && SetIsDark(data)
            && Field(data, 18, 4) == img.width && Field(data, 22, 4) == img.height && Field(data, 10, 4) == HEADER
  {
    hide Encode, HeaderBytes, LittleEndian, ByteArray.Value, At, Power256, PaddedRow, AreaByte, Field, Luminance,
      FileHeader, Extent, Format, Palette;
    var data := Encode(img);
    EncodeSplit(img);
    HeaderParts(data, img.width, img.height);
    FileHeaderParts(data, HEADER + PaddedRow(img.width) * img.height);
    ExtentParts(data, 14, img.width, img.height);
    FormatParts(data, 26, PaddedRow(img.width) * img.height);
    Powers();
    Signature(data);
    FieldAt(data, 10, HEADER, 4);
    FieldAt(data, 14, 40, 4);
    FieldAt(data, 18, img.width, 4);
    FieldAt(data, 22, img.height, 4);
    FieldAt(data, 26, 1, 2);
    FieldAt(data, 28, 1, 2);
    FieldAt(data, 30, 0, 4);
    PaletteRead(data);
  }

  lemma ByteOf(img: Image, x: nat, y: nat)
    requires WellFormed(img) && x < img.width && y < img.height
    ensures var (pad, row) := (PaddedRow(img.width), img.height - 1 - y);
            row * pad + x / 8 < pad * img.height
            && AreaByte(img, row * pad + x / 8) == AsByte(PackedByte(img.rows[y], x / 8, img.width))
  {
    hide PackedByte, PaddedRow, AsByte;
    var (pad, row) := (PaddedRow(img.width), img.height - 1 - y);
    PlaceWithin(x, row, pad, img.height);
    Divided(row * pad + x / 8, pad, row, x / 8);
  }

  lemma PixelWritten(img: Image, x: nat, y: nat)
    requires WellFormed(img) && x < img.width && y < img.height
    ensures var (data, pad, row) := (Encode(img), PaddedRow(img.width), img.height - 1 - y);
            HEADER + row * pad + x / 8 < |data| && FilePixel(data, HEADER, pad, row, x) == img.rows[y][x]
  {
    hide Encode, PackedByte, Bit, PaddedRow, AsByte, AsBits, AreaByte, HeaderBytes;
    EncodeSplit(img);
    ByteOf(img, x, y);
    PackedBit(img.rows[y], x / 8, img.width, x % 8);
    ByteBits(PackedByte(img.rows[y], x / 8, img.width));
  }

  /** A file that was written gives the image back. */
  lemma EncodeDecode(img: Image)
    requires WellFormed(img) && Writable(img) && img.width > 0 && img.height > 0
    ensures Decode(Encode(img)) == Picture(img)
  {
    hide Encode, Refusal, SetIsDark, Field, FilePixel, PaddedRow;
    var data := Encode(img);
    EncodeAccepted(img);
    var (w, h) := (img.width, img.height);
    var out := Decode(data);
    assert out.Picture? && out.img.width == w && out.img.height == h && |out.img.rows| == h;
    forall y | 0 <= y < h ensures out.img.rows[y] == img.rows[y] {
      forall x | 0 <= x < w ensures out.img.rows[y][x] == img.rows[y][x] {
        PixelWritten(img, x, y);
      }
    }
    assert out.img.rows == img.rows;
  }

  // ----- the program -----

  /** A buffer whose first bytes are `p`, all others zero. */
  ghost predicate Built(s: seq<byte>, p: seq<byte>) {
    |p| <= |s| && s[..|p|] == p && forall k :: |p| <= k < |s| ==> s[k] == 0
  }

  /** `put`: an integer of k bytes, lowest first. */
  method Put(out: array<byte>, at: nat, v: nat, k: nat, ghost p: seq<byte>)
    requires at == |p| && Built(out[..], p) && at + k <= out.Length
    modifies out
    ensures Built(out[..], p + LittleEndian(v, k))
  {
    var left := v;
    var i := 0;
    ghost var done: seq<byte> := [];
    assert p + done == p;
    while i < k
      invariant i <= k && |done| == i && Built(out[..], p + done)
      invariant done + LittleEndian(left, k - i) == LittleEndian(v, k)
    {
      PutStep(left, k - i, done);
      ghost var before := out[..];
      var low: byte := left % 256;
      out[at + i] := low;
      BuiltStep(before, out[..], p + done, low);
      assert p + done + [low] == p + (done + [low]);
      done := done + [low];
      left := left / 256;
      i := i + 1;
    }
    assert done + [] == done;
  }

  lemma PutStep(left: nat, k: nat, done: seq<byte>)
    requires k > 0
    ensures done + LittleEndian(left, k) == done + [left % 256] + LittleEndian(left / 256, k - 1)
  {}

  lemma BuiltStep(before: seq<byte>, after: seq<byte>, p: seq<byte>, b: byte)
    requires Built(before, p) && |p| < |before| && after == before[|p| := b]
    ensures Built(after, p + [b])
  {}

  lemma {:induction false} ZeroBytes(k: nat)
    ensures forall i :: 0 <= i < k ==> LittleEndian(0, k)[i] == 0
  {
    if k > 0 { ZeroBytes(k - 1); }
  }

  /** Fields that stay zero. */
  lemma Skip(s: seq<byte>, p: seq<byte>, k: nat)
    requires Built(s, p) && |p| + k <= |s|
    ensures Built(s, p + LittleEndian(0, k))
  {
    ZeroBytes(k);
  }

  method PutHeader(out: array<byte>, width: nat, height: nat)
    requires out.Length == HEADER + PaddedRow(width) * height && Built(out[..], [])
    modifies out
    ensures Built(out[..], HeaderBytes(width, height))
  {
    hide LittleEndian, PaddedRow, Built;
    var image := PaddedRow(width) * height;
    ghost var p := PutFileHeader(out, HEADER + image);
    p := PutExtent(out, width, height, p);
    p := PutFormat(out, image, p);
    assert HeaderBytes(width, height) == p + Palette();
    PutPalette(out, p);
  }

  method PutFileHeader(out: array<byte>, size: nat) returns (ghost p: seq<byte>)
    requires out.Length >= HEADER && Built(out[..], [])
    modifies out
    ensures p == FileHeader(size) && Built(out[..], p)
  {
    hide LittleEndian, Built;
    var magic: nat := 0x4D42;
    MagicBytes();
    Put(out, 0, magic, 2, []);
    p := [0x42, 0x4D];
    assert [] + LittleEndian(magic, 2) == p;
    Put(out, 2, size, 4, p);
    p := p + LittleEndian(size, 4);
    Skip(out[..], p, 4);
    p := p + LittleEndian(0, 4);
    Put(out, 10, HEADER, 4, p);
    p := p + LittleEndian(HEADER, 4);
  }

  lemma MagicBytes()
    ensures LittleEndian(0x4D42, 2) == [0x42, 0x4D]
  {
    assert LittleEndian(0x4D42, 2) == [0x42] + LittleEndian(0x4D, 1);
  }

  method PutExtent(out: array<byte>, width: nat, height: nat, ghost before: seq<byte>) returns (ghost p: seq<byte>)
    requires out.Length >= HEADER && |before| == 14 && Built(out[..], before)
    modifies out
    ensures p == before + Extent(width, height) && Built(out[..], p)
  {
    hide LittleEndian, Built;
    Put(out, 14, 40, 4, before);
    p := before + LittleEndian(40, 4);
    Put(out, 18, width, 4, p);
    p := p + LittleEndian(width, 4);
    Put(out, 22, height, 4, p);
    p := p + LittleEndian(height, 4);
    assert p == before + Extent(width, height);
  }

  method PutFormat(out: array<byte>, image: nat, ghost before: seq<byte>) returns (ghost p: seq<byte>)
    requires out.Length >= HEADER && |before| == 26 && Built(out[..], before)
    modifies out
    ensures p == before + Format(image) && Built(out[..], p)
  {
    hide LittleEndian, Built;
    Put(out, 26, 1, 2, before);
    p := before + LittleEndian(1, 2);
    Put(out, 28, 1, 2, p);
    p := p + LittleEndian(1, 2);
    Put(out, 30, 0, 4, p);
    p := p + LittleEndian(0, 4);
    Put(out, 34, image, 4, p);
    p := p + LittleEndian(image, 4);
    Skip(out[..], p, 16);
    p := p + LittleEndian(0, 16);
    assert p == before + Format(image);
  }

  method PutPalette(out: array<byte>, ghost before: seq<byte>)
    requires out.Length >= HEADER && |before| == 54 && Built(out[..], before)
    modifies out
    ensures Built(out[..], before + Palette())
  {
    out[54], out[55], out[56], out[57] := 255, 255, 255, 255;
    out[58], out[59], out[60], out[61] := 0, 0, 0, 0;
  }

  /** Byte n of the file while the row that starts at `start` has its pixels below x. */
  ghost function RowByte(row: seq<bool>, start: nat, pad: nat, x: nat, n: nat, before: seq<byte>): byte
    requires x <= |row| && n < |before|
  {
    if start <= n < start + pad then AsByte(PackedByte(row, n - start, x)) else before[n]
  }

  lemma RowByteStep(row: seq<bool>, start: nat, pad: nat, x: nat, n: nat, before: seq<byte>)
    requires x < |row| && n < |before| && x / 8 < pad
    ensures RowByte(row, start, pad, x + 1, n, before) ==
      if row[x] && n == start + x / 8 then AsByte(Or(AsBits(RowByte(row, start, pad, x, n, before)), Mask(x % 8)))
      else RowByte(row, start, pad, x, n, before)
  {
    hide Or, Mask, AsByte, AsBits;
    if start <= n < start + pad {
      ByteBits(PackedByte(row, n - start, x));
    }
  }

  /** Row y of the file, which is row h - 1 - y of the image; its bytes were zero. */
  method PutRow(out: array<byte>, b: Bitmap, y: nat)
    requires b.Valid() && y < b.height && out.Length == HEADER + PaddedRow(b.width) * b.height
    requires var start := HEADER + y * PaddedRow(b.width);
             forall n :: start <= n < start + PaddedRow(b.width) && n < out.Length ==> out[n] == 0
    modifies out
    ensures var (pad, row) := (PaddedRow(b.width), b.Contents().rows[b.height - 1 - y]);
            forall n :: 0 <= n < out.Length ==> out[n] == RowByte(row, HEADER + y * pad, pad, b.width, n, old(out[..]))
  {
    hide RowByte, PaddedRow, AsByte, AsBits, Or, Mask, Bit;
    var width, height := b.width, b.height;
    var pad := PaddedRow(width);
    var start := HEADER + y * pad;
    ghost var row := b.Contents().rows[height - 1 - y];
    ghost var before := out[..];
    RowEmpty(row, start, pad, before);
    var x := 0;
    while x < width
      invariant x <= width
      invariant forall n :: 0 <= n < out.Length ==> out[n] == RowByte(row, start, pad, x, n, before)
    {
      PlaceWithin(x, y, pad, height);
      forall n | 0 <= n < out.Length {
        RowByteStep(row, start, pad, x, n, before);
      }
      assert row[x] == b.Pixel(x, height - 1 - y);
      if b.Pixel(x, height - 1 - y) {
        var at := start + x / 8;
        out[at] := AsByte(Or(AsBits(out[at]), Mask(x % 8)));
      }
      x := x + 1;
    }
  }

  lemma RowEmpty(row: seq<bool>, start: nat, pad: nat, before: seq<byte>)
    requires forall n :: start <= n < start + pad && n < |before| ==> before[n] == 0
    ensures forall n :: 0 <= n < |before| ==> RowByte(row, start, pad, 0, n, before) == before[n]
  {
    ZeroByte();
  }

  lemma ZeroByte()
    ensures AsByte(0) == 0
  {}

  lemma InRow(k: nat, pad: nat, y: nat)
    requires pad > 0
    ensures y * pad <= k < y * pad + pad <==> k / pad == y
    ensures k / pad == y ==> k % pad == k - y * pad
  {
    assert k == (k / pad) * pad + k % pad;
    if y * pad <= k < y * pad + pad { Divided(k, pad, y, k - y * pad); }
  }

  /** Byte n of the file with the first y rows written. */
  ghost function FileByte(img: Image, y: nat, n: nat): byte
    requires WellFormed(img) && n < HEADER + PaddedRow(img.width) * img.height
  {
    if n < HEADER then HeaderBytes(img.width, img.height)[n]
    else
      assert PaddedRow(img.width) > 0;
      if (n - HEADER) / PaddedRow(img.width) < y then AreaByte(img, n - HEADER) else 0
  }

  lemma FileByteStep(img: Image, y: nat, n: nat, before: seq<byte>)
    requires WellFormed(img) && y < img.height && n < HEADER + PaddedRow(img.width) * img.height == |before|
    requires before[n] == FileByte(img, y, n)
    ensures var pad := PaddedRow(img.width);
            FileByte(img, y + 1, n) == RowByte(img.rows[img.height - 1 - y], HEADER + y * pad, pad, img.width, n, before)
  {
    hide PaddedRow, PackedByte, AsByte, HeaderBytes;
    if n >= HEADER {
      assert PaddedRow(img.width) > 0;
      InRow(n - HEADER, PaddedRow(img.width), y);
    }
  }

  lemma RowStillEmpty(img: Image, y: nat, n: nat)
    requires WellFormed(img) && y < img.height && n < HEADER + PaddedRow(img.width) * img.height
    requires var pad := PaddedRow(img.width); HEADER + y * pad <= n < HEADER + y * pad + pad
    ensures FileByte(img, y, n) == 0
  {
    hide PaddedRow, AreaByte, HeaderBytes;
    InRow(n - HEADER, PaddedRow(img.width), y);
  }

  lemma FileBytesStart(img: Image, s: seq<byte>)
    requires WellFormed(img) && |s| == HEADER + PaddedRow(img.width) * img.height
    requires Built(s, HeaderBytes(img.width, img.height))
    ensures forall n :: 0 <= n < |s| ==> s[n] == FileByte(img, 0, n)
  {
    hide PaddedRow, AreaByte, HeaderBytes;
    assert forall n :: 0 <= n < HEADER ==> s[n] == s[..HEADER][n];
  }

  lemma FileBytesEnd(img: Image, s: seq<byte>)
    requires WellFormed(img) && |s| == HEADER + PaddedRow(img.width) * img.height
    requires forall n :: 0 <= n < |s| ==> s[n] == FileByte(img, img.height, n)
    ensures s == Encode(img)
  {
    hide PaddedRow, AreaByte, HeaderBytes;
    var e := Encode(img);
    forall n | 0 <= n < |s| ensures s[n] == e[n] {
      if n >= HEADER {
        assert PaddedRow(img.width) > 0;
        QuotientBelow(n - HEADER, PaddedRow(img.width), img.height);
      }
    }
  }

  /** `toBmp`: the header, the palette, and the rows from the bottom up. */
  method ToBmp(b: Bitmap) returns (out: array<byte>)
    requires b.Valid() && Writable(b.Contents())
    ensures fresh(out) && out[..] == Encode(b.Contents())
  {
    hide PaddedRow, HeaderBytes, FileByte, RowByte, Encode, Built;
    ghost var img := b.Contents();
    var pad := PaddedRow(b.width);
    out := new byte[HEADER + pad * b.height](_ => 0);
    AllZero(out[..]);
    PutHeader(out, b.width, b.height);
    FileBytesStart(img, out[..]);
    var y := 0;
    while y < b.height
      invariant y <= b.height
      invariant forall n :: 0 <= n < out.Length ==> out[n] == FileByte(img, y, n)
    {
      ghost var before := out[..];
      forall n | HEADER + y * pad <= n < HEADER + y * pad + pad && n < out.Length ensures out[n] == 0 {
        RowStillEmpty(img, y, n);
      }
      PutRow(out, b, y);
      forall n | 0 <= n < out.Length ensures out[n] == FileByte(img, y + 1, n) {
        FileByteStep(img, y, n, before);
      }
      y := y + 1;
    }
    FileBytesEnd(img, out[..]);
  }

  lemma AllZero(s: seq<byte>)
    requires forall n :: 0 <= n < |s| ==> s[n] == 0
    ensures Built(s, [])
  {}

  /** What an accepted file holds is an image that the bitmap can hold. */
  predicate Holdable(data: seq<byte>) {
    Refusal(data).None? ==> Fits(Signed(Field(data, 18, 4)), Abs(Signed(Field(data, 22, 4))), 1)
  }

  /** `fromBmp`: a refused file gives the reason, any other one a new bitmap. */
  method FromBmp(data: seq<byte>) returns (reason: Option<Reason>, b: Bitmap?)
    requires Holdable(data)
    ensures match Decode(data)
            case Rejected(why) => reason == Some(why)
            case Picture(img) => reason == None && b != null && fresh(b) && b.Valid() && b.Contents() == img
  {
    hide Field, Refusal, PaddedRow, SetIsDark, FileRow, Signed, Abs, RowBytes;
    DecodeCases(data);
    reason := Refusal(data);
    b := null;
    if reason.Some? {
      return;
    }
    var offset := Field(data, 10, 4);
    var width, signed := Signed(Field(data, 18, 4)), Signed(Field(data, 22, 4));
    var height := Abs(signed);
    HeightNotZero(data);
    var result := new Bitmap(width, height, 1);
    ReadRows(data, offset, result, signed < 0, SetIsDark(data));
    SamePixels(result, Decode(data).img);
    b := result;
  }

  lemma DecodeCases(data: seq<byte>)
    ensures Refusal(data).Some? ==> Decode(data) == Rejected(Refusal(data).value)
    ensures Refusal(data).None? ==>
              var (w, signed) := (Signed(Field(data, 18, 4)), Signed(Field(data, 22, 4)));
              var h := Abs(signed);
              Decode(data).Picture? && WellFormed(Decode(data).img) && Decode(data).img.width == w && Decode(data).img.height == h
              && forall y :: 0 <= y < h ==>
                   Decode(data).img.rows[y]
                   == FileRow(data, Field(data, 10, 4), w, h, if signed < 0 then y else h - 1 - y, SetIsDark(data))
  {
    hide Refusal, Field, SetIsDark, FileRow, PaddedRow;
  }

  lemma HeightNotZero(data: seq<byte>)
    requires Refusal(data).None?
    ensures Abs(Signed(Field(data, 22, 4))) > 0
  {
    hide Field, PaddedRow;
    FieldBound(data, 22);
  }

  /** All rows, from the top of the file or from its bottom. */
  method ReadRows(data: seq<byte>, offset: nat, b: Bitmap, topDown: bool, dark: bool)
    requires b.Valid() && offset + PaddedRow(b.width) * b.height <= |data|
    requires forall i: nat, j: nat :: b.Inside(i, j) ==> !b.Pixel(i, j)
    modifies b`pixelData
    ensures b.Valid()
    ensures forall i: nat, j: nat :: b.Inside(i, j) ==>
              b.Pixel(i, j) == FileRow(data, offset, b.width, b.height, if topDown then j else b.height - 1 - j, dark)[i]
  {
    hide PaddedRow, FileRow, Bit;
    var y := 0;
    while y < b.height
      invariant y <= b.height && b.Valid()
      invariant forall i: nat, j: nat :: b.Inside(i, j) ==>
                  b.Pixel(i, j) == (j < y && FileRow(data, offset, b.width, b.height, if topDown then j else b.height - 1 - j, dark)[i])
    {
      ReadRow(data, offset, b, y, if topDown then y else b.height - 1 - y, dark);
      y := y + 1;
    }
  }

  /** Row y of the image from a row of the file; its pixels were clear. */
  method ReadRow(data: seq<byte>, offset: nat, b: Bitmap, y: nat, row: nat, dark: bool)
    requires b.Valid() && y < b.height && row < b.height && offset + PaddedRow(b.width) * b.height <= |data|
    requires forall i: nat :: b.Inside(i, y) ==> !b.Pixel(i, y)
    modifies b`pixelData
    ensures b.Valid()
    ensures forall i: nat, j: nat :: b.Inside(i, j) ==>
              b.Pixel(i, j) == if j == y then FileRow(data, offset, b.width, b.height, row, dark)[i] else old(b.Pixel(i, j))
  {
    hide PaddedRow, FilePixel, Bit;
    var x := 0;
    while x < b.width
      invariant x <= b.width && b.Valid()
      invariant forall i: nat, j: nat :: b.Inside(i, j) ==>
                  b.Pixel(i, j) == if j == y then i < x && FileRow(data, offset, b.width, b.height, row, dark)[i]
                                   else old(b.Pixel(i, j))
    {
      PlaceWithin(x, row, PaddedRow(b.width), b.height);
      if FilePixel(data, offset, PaddedRow(b.width), row, x) == dark {
        var original := b.SetPixel(x, y, true);
      }
      x := x + 1;
    }
  }

  lemma FieldBound(data: seq<byte>, at: nat)
    requires at + 4 <= |data|
    ensures Field(data, at, 4) < 0x1_0000_0000
  {
    hide Power256;
    Powers();
    ValueBytes(data[at..at + 4]);
  }

  lemma NarrowRows(width: nat)
    ensures RowBytes(width, 1) <= PaddedRow(width)
  {}

  /** A file below 4 GiB holds no image beyond the limits. */
  lemma SmallEnough(data: seq<byte>)
    requires |data| < 0x1_0000_0000
    ensures Holdable(data)
  {
    if Refusal(data).None? { AcceptedFits(data); }
  }

  lemma AcceptedFits(data: seq<byte>)
    requires |data| < 0x1_0000_0000 && Refusal(data).None?
    ensures Fits(Signed(Field(data, 18, 4)), Abs(Signed(Field(data, 22, 4))), 1)
  {
    hide PaddedRow, RowBytes, Field;
    FieldBound(data, 18);
    var (w, h) := (Signed(Field(data, 18, 4)), Abs(Signed(Field(data, 22, 4))));
    NarrowRows(w);
    MulOrder(PaddedRow(w), 4, h);
    MulOrder(PaddedRow(w), RowBytes(w, 1), h);
  }

  lemma SamePixels(b: Bitmap, img: Image)
    requires b.Valid() && WellFormed(img) && b.width == img.width && b.height == img.height
    requires forall i: nat, j: nat :: b.Inside(i, j) ==> b.Pixel(i, j) == img.rows[j][i]
    ensures b.Contents() == img
  {
    var c := b.Contents();
    forall j | 0 <= j < img.height ensures c.rows[j] == img.rows[j] {
      assert forall i :: 0 <= i < img.width ==> c.rows[j][i] == b.Pixel(i, j);
    }
  }
}
