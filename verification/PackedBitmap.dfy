/** One-bit images: packed rows in memory, and the BMP file format. */
module PackedBitmap {
  import opened Arithmetic
  import opened BitShift
  import opened ByteArray
  import opened Options

  datatype Image = Image(width: nat, height: nat, rows: seq<seq<bool>>)

  predicate WellFormed(img: Image) {
    |img.rows| == img.height && forall y :: 0 <= y < |img.rows| ==> |img.rows[y]| == img.width
  }

  // ----- single bits of a byte -----

  function Clear(b: bv8, m: bv8): bv8 {
    b & !m
  }

  /** `put`: one bit of a byte, the highest one first, takes a value. */
  function SetBit(b: bv8, j: nat, value: bool): bv8
    requires j < 8
  {
    if value then Or(b, Mask(j)) else Clear(b, Mask(j))
  }

  lemma MaskBits(i: nat, j: nat)
    requires i < 8 && j < 8
    ensures Bit(Mask(j), i) == (i == j)
  {}

  lemma ClearBits(b: bv8, m: bv8, k: bv8)
    ensures k & m == 0 ==> (Clear(b, m) & k != 0) == (b & k != 0)
    ensures Clear(b, m) & m == 0
  {}

  lemma SetBitBits(b: bv8, j: nat, value: bool, i: nat)
    requires i < 8 && j < 8
    ensures Bit(SetBit(b, j, value), i) == if i == j then value else Bit(b, i)
  {
    hide Or, Clear, Mask;
    MaskBits(i, j);
    BitOr(b, Mask(j), i);
    ClearBits(b, Mask(j), Mask(i));
    SymmetricMask(i, j);
  }

  lemma SymmetricMask(i: nat, j: nat)
    requires i < 8 && j < 8
    ensures Mask(i) & Mask(j) == if i == j then Mask(i) else 0
  {}

  // ----- rows in memory -----

  /** The bytes of a row, rounded up to a multiple of `align`. */
  function RowBytes(width: nat, align: nat): nat
    requires align > 0
  {
    var bytes := (width + 7) / 8;
    if align > 1 then (bytes + align - 1) / align * align else bytes
  }

  lemma RowBytesFit(width: nat, align: nat)
    requires align > 0
    ensures 8 * RowBytes(width, align) >= width
    ensures RowBytes(width, align) % align == 0
  {
    var bytes := (width + 7) / 8;
    if align > 1 {
      var q := (bytes + align - 1) / align;
      assert bytes + align - 1 == q * align + (bytes + align - 1) % align;
      Divided(q * align, align, q, 0);
    }
  }

  /** And no row is longer than it needs to be. */
  lemma RowBytesLeast(width: nat, align: nat, n: nat)
    requires align > 0 && 8 * n >= width && n % align == 0
    ensures n >= RowBytes(width, align)
  {
    var bytes := (width + 7) / 8;
    assert n >= bytes;
    var (q, m) := ((bytes + align - 1) / align, n / align);
    assert n == m * align by { assert n == m * align + n % align; }
    assert q * align <= bytes + align - 1;
    assert (m + 1) * align == m * align + align;
    MulOrder(q, m + 1, align);
    MulOrder(m, q, align);
  }

  /** Different pixels lie in different bytes or at different bits. */
  lemma PlacesDiffer(x: nat, y: nat, x': nat, y': nat, rowBytes: nat)
    requires x / 8 < rowBytes && x' / 8 < rowBytes
    requires y * rowBytes + x / 8 == y' * rowBytes + x' / 8 && x % 8 == x' % 8
    ensures x == x' && y == y'
  {
    Divided(y * rowBytes + x / 8, rowBytes, y, x / 8);
    Divided(y' * rowBytes + x' / 8, rowBytes, y', x' / 8);
  }

  lemma PlaceWithin(x: nat, y: nat, rowBytes: nat, height: nat)
    requires x / 8 < rowBytes && y < height
    ensures y * rowBytes + x / 8 < rowBytes * height
  {
    NotNegative(height - 1 - y, rowBytes);
    assert rowBytes * height == y * rowBytes + rowBytes + (height - 1 - y) * rowBytes;
  }

  /** The largest extent and image that the header fields hold. */
  predicate Fits(width: nat, height: nat, align: nat)
    requires align > 0
  {
    width < 0x8000_0000 && height < 0x8000_0000 && RowBytes(width, align) * height < 0x1_0000_0000
  }

  class Bitmap {
    var width: nat
    var height: nat
    var rowAlign: nat
    var rowBytes: nat
    var pixelData: seq<bv8>

    ghost predicate Valid()
      reads this
    {
      rowAlign > 0 && 8 * rowBytes >= width && |pixelData| == rowBytes * height
    }

    predicate Inside(x: nat, y: nat)
      reads this
    {
      x < width && y < height
    }

    function Pixel(x: nat, y: nat): bool
      reads this
      requires Valid() && Inside(x, y)
    {
      PlaceWithin(x, y, rowBytes, height);
      Bit(pixelData[y * rowBytes + x / 8], 7 - x % 8)
    }

    ghost function Contents(): (img: Image)
      reads this
      requires Valid()
      ensures WellFormed(img) && img.width == width && img.height == height
    {
      Image(width, height, seq(height, y requires 0 <= y < height reads this requires Valid() =>
        seq(width, x requires 0 <= x < width reads this requires Valid() && 0 <= y < height => Pixel(x, y))))
    }

    /** An image of the given size, all pixels clear. */
    constructor (width: nat, height: nat, align: nat)
      requires align > 0 && Fits(width, height, align)
      ensures Valid() && rowAlign == align
      ensures this.width == (if height == 0 then 0 else width) && this.height == (if width == 0 then 0 else height)
      ensures forall x: nat, y: nat :: Inside(x, y) ==> !Pixel(x, y)
    {
      rowAlign := align;
      this.width := if height == 0 then 0 else width;
      this.height := if width == 0 then 0 else height;
      rowBytes := if width == 0 || height == 0 then 0 else RowBytes(width, align);
      pixelData := if width == 0 || height == 0 then [] else seq(RowBytes(width, align) * height, _ => 0);
      new;
      RowBytesFit(width, align);
      AllClear(this);
    }

    /** Outside of the image nothing is set. */
    method SetPixel(x: nat, y: nat, value: bool) returns (original: Option<bool>)
      requires Valid()
      modifies this`pixelData
      ensures Valid()
      ensures original == if Inside(x, y) then Some(old(Pixel(x, y))) else None
      ensures forall i: nat, j: nat :: Inside(i, j) ==> Pixel(i, j) == if i == x && j == y then value else old(Pixel(i, j))
    {
      if !Inside(x, y) {
        return None;
      }
      hide SetBit, Bit;
      var index, bit := y * rowBytes + x / 8, 7 - x % 8;
      PlaceWithin(x, y, rowBytes, height);
      ghost var before := pixelData;
      original := Some(Bit(pixelData[index], bit));
      pixelData := pixelData[index := SetBit(pixelData[index], bit, value)];
      forall i: nat, j: nat | Inside(i, j) ensures Pixel(i, j) == if i == x && j == y then value else old(Pixel(i, j)) {
        PlaceWithin(i, j, rowBytes, height);
        OnePixel(before, pixelData, x, y, value, i, j, rowBytes);
      }
    }

    method GetPixel(x: nat, y: nat) returns (pixel: Option<bool>)
      requires Valid()
      ensures pixel == if Inside(x, y) then Some(Pixel(x, y)) else None
    {
      pixel := if Inside(x, y) then Some(Pixel(x, y)) else None;
    }

    /** Another image is laid over this one at (x, y), as far as it reaches; `op` combines the pixels.
        Laid over itself, the image is read while it changes. */
    method Overlap(x: nat, y: nat, other: Bitmap, op: (bool, bool) -> bool)
      requires Valid() && other.Valid()
      modifies this`pixelData
      ensures Valid()
      ensures other != this ==> forall i: nat, j: nat :: Inside(i, j) ==>
                Pixel(i, j) == if i >= x && j >= y && other.Inside(i - x, j - y)
                               then op(old(Pixel(i, j)), other.Pixel(i - x, j - y)) else old(Pixel(i, j))
      ensures other == this ==> forall i: nat, j: nat :: Inside(i, j) ==>
                Pixel(i, j) == Smeared(old(Contents()), x, y, op, i, j)
    {
      hide Bit, Smeared, SmearedTo, Contents;
      ghost var img := Contents();
      if other == this {
        SmearedStart(this, x, y, op);
      }
      var j := 0;
      while j < other.height
        invariant j <= other.height && Valid()
        invariant other != this ==> forall p: nat, q: nat :: Inside(p, q) ==>
                    Pixel(p, q) == if p >= x && y <= q < y + j && p - x < other.width
                                   then op(old(Pixel(p, q)), other.Pixel(p - x, q - y)) else old(Pixel(p, q))
        invariant other == this ==> SmearedTo(img, x, y, op, 0, j)
      {
        OverlapRow(x, y, other, op, j, img);
        j := j + 1;
      }
      if other == this {
        SmearedEnd(this, img, x, y, op);
      }
    }

    /** All pixels up to column x + i of row y + j are smeared. */
    ghost predicate SmearedTo(img: Image, x: nat, y: nat, op: (bool, bool) -> bool, i: nat, j: nat)
      reads this
      requires Valid()
    {
      && WellFormed(img) && img.width == width && img.height == height
      && forall p: nat, q: nat :: Inside(p, q) ==>
           Pixel(p, q) == if p >= x && q >= y && (q < y + j || (q == y + j && p < x + i)) then Smeared(img, x, y, op, p, q)
                          else img.rows[q][p]
    }

    /** One pixel; nothing happens outside of the image. */
    method OverlapPixel(x: nat, y: nat, otherPixel: bool, op: (bool, bool) -> bool)
      requires Valid()
      modifies this`pixelData
      ensures Valid()
      ensures forall p: nat, q: nat :: Inside(p, q) ==>
                Pixel(p, q) == if p == x && q == y then op(old(Pixel(p, q)), otherPixel) else old(Pixel(p, q))
    {
      if x >= width || y >= height {
        return;
      }
      var pixel := Pixel(x, y);
      var result := op(pixel, otherPixel);
      if result != pixel {
        var original := SetPixel(x, y, result);
      }
    }

    /** Row j of the other image. */
    method OverlapRow(x: nat, y: nat, other: Bitmap, op: (bool, bool) -> bool, j: nat, ghost img: Image)
      requires Valid() && other.Valid() && j < other.height
      requires other == this ==> SmearedTo(img, x, y, op, 0, j)
      modifies this`pixelData
      ensures Valid()
      ensures other != this ==> forall p: nat, q: nat :: Inside(p, q) ==>
                Pixel(p, q) == if q == y + j && p >= x && p - x < other.width
                               then op(old(Pixel(p, q)), other.Pixel(p - x, j)) else old(Pixel(p, q))
      ensures other == this ==> SmearedTo(img, x, y, op, 0, j + 1)
    {
      hide Bit, Smeared;
      var i := 0;
      while i < other.width
        invariant i <= other.width && Valid()
        invariant other != this ==> forall p: nat, q: nat :: Inside(p, q) ==>
                    Pixel(p, q) == if q == y + j && x <= p < x + i
                                   then op(old(Pixel(p, q)), other.Pixel(p - x, j)) else old(Pixel(p, q))
        invariant other == this ==> SmearedTo(img, x, y, op, i, j)
      {
        if other == this && x + i < width && y + j < height {
          SmearedPixel(img, x, y, op, i, j);
        }
        OverlapPixel(x + i, y + j, other.Pixel(i, j), op);
        i := i + 1;
      }
    }
  }

  /** The pixels of an image laid over itself: the pixel that comes on top has been combined before,
      unless every pixel comes on top of itself. */
  function Smeared(img: Image, x: nat, y: nat, op: (bool, bool) -> bool, p: nat, q: nat): bool
    requires WellFormed(img) && p < img.width && q < img.height
    decreases p + q
  {
    if p < x || q < y then img.rows[q][p]
    else op(img.rows[q][p], if x == 0 && y == 0 then img.rows[q][p] else Smeared(img, x, y, op, p - x, q - y))
  }

  lemma SmearedStart(b: Bitmap, x: nat, y: nat, op: (bool, bool) -> bool)
    requires b.Valid()
    ensures b.SmearedTo(b.Contents(), x, y, op, 0, 0)
  {
    hide Bit, Smeared;
  }

  lemma SmearedEnd(b: Bitmap, img: Image, x: nat, y: nat, op: (bool, bool) -> bool)
    requires b.Valid() && b.SmearedTo(img, x, y, op, 0, b.height)
    ensures WellFormed(img) && img.width == b.width && img.height == b.height
    ensures forall i: nat, j: nat :: b.Inside(i, j) ==> b.Pixel(i, j) == Smeared(img, x, y, op, i, j)
  {
    hide Bit;
  }

  lemma SmearedPixel(img: Image, x: nat, y: nat, op: (bool, bool) -> bool, i: nat, j: nat)
    requires WellFormed(img) && x + i < img.width && y + j < img.height
    ensures Smeared(img, x, y, op, x + i, y + j)
            == op(img.rows[y + j][x + i], if x == 0 && y == 0 then img.rows[j][i] else Smeared(img, x, y, op, i, j))
    ensures i < x || j < y ==> Smeared(img, x, y, op, i, j) == img.rows[j][i]
  {}

  /** The byte that holds a pixel. */
  function Place(x: nat, y: nat, rowBytes: nat): nat {
    y * rowBytes + x / 8
  }

  /** Reading any pixel after setting any one: the new value at the same place, the old one elsewhere. */
  lemma OnePixel(before: seq<bv8>, after: seq<bv8>, x: nat, y: nat, value: bool, i: nat, j: nat, rowBytes: nat)
    requires x / 8 < rowBytes && i / 8 < rowBytes
    requires Place(x, y, rowBytes) < |before| && Place(i, j, rowBytes) < |before|
    requires after == before[Place(x, y, rowBytes) := SetBit(before[Place(x, y, rowBytes)], 7 - x % 8, value)]
    ensures Bit(after[Place(i, j, rowBytes)], 7 - i % 8)
            == if i == x && j == y then value else Bit(before[Place(i, j, rowBytes)], 7 - i % 8)
  {
    hide SetBit, Bit, Place;
    SamePlace(x, y, i, j, rowBytes);
    OneBit(before, after, Place(x, y, rowBytes), 7 - x % 8, value, Place(i, j, rowBytes), 7 - i % 8);
  }

  lemma SamePlace(x: nat, y: nat, i: nat, j: nat, rowBytes: nat)
    requires x / 8 < rowBytes && i / 8 < rowBytes
    ensures Place(i, j, rowBytes) == Place(x, y, rowBytes) && 7 - i % 8 == 7 - x % 8 <==> i == x && j == y
  {
    if j * rowBytes + i / 8 == y * rowBytes + x / 8 && i % 8 == x % 8 { PlacesDiffer(i, j, x, y, rowBytes); }
  }

  lemma OneBit(before: seq<bv8>, after: seq<bv8>, k: nat, bit: nat, value: bool, n: nat, other: nat)
    requires k < |before| && n < |before| && bit < 8 && other < 8
    requires after == before[k := SetBit(before[k], bit, value)]
    ensures Bit(after[n], other) == if n == k && other == bit then value else Bit(before[n], other)
  {
    hide SetBit, Bit;
    SetBitBits(before[k], bit, value, other);
  }

  lemma AllClear(b: Bitmap)
    requires b.Valid() && forall k :: 0 <= k < |b.pixelData| ==> b.pixelData[k] == 0
    ensures forall x: nat, y: nat :: b.Inside(x, y) ==> !b.Pixel(x, y)
  {
    hide Bit;
    forall x: nat, y: nat | b.Inside(x, y) ensures !b.Pixel(x, y) {
      PlaceWithin(x, y, b.rowBytes, b.height);
      BitZero(7 - x % 8);
    }
  }
}
