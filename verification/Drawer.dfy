/** Bresenham's line on a raster target, in the machine's integers. */
module Drawer {

  newtype int32 = x: int | -0x8000_0000 <= x < 0x8000_0000

  datatype Point = Point(x: int, y: int)

  predicate Fits32(n: int) {
    -0x8000_0000 <= n < 0x8000_0000
  }

  /** Extents of lines on which all intermediate values fit 32 bits: all diagonals, straight lines up
      to half of the range, and the others as far as twice the error and the error after its
      decrease stay in range. */
  predicate Representable(dx: nat, dy: nat) {
    Fits32(dx) && Fits32(dy) &&
    if dx == dy then true
    else if dy == 0 then dx < 0x4000_0000
    else if dx == 0 then dy <= 0x4000_0000
    else if dx > dy then 3 * dx - 2 * dy <= 0x8000_0000 && 4 * dy - dx <= 0x1_0000_0000
    else 3 * dy - 2 * dx <= 0x8000_0001 && 3 * dy <= 0x1_0000_0000
  }

  function Abs(x: int): nat {
    if x < 0 then -x else x
  }

  function Max(a: int, b: int): int {
    if a < b then b else a
  }

  function Direction(from: int, to: int): int {
    if from < to then 1 else -1
  }

  // ----- the ideal line -----

  /** k * minor / major rounded to the nearest integer, halves downward. */
  function Rounded(k: nat, minor: nat, major: nat): nat
    requires major > 0
  {
    (2 * k * minor + major - 1) / (2 * major)
  }

  /** The number of steps along the longer extent. */
  function Steps(x0: int, y0: int, x1: int, y1: int): nat {
    Max(Abs(x1 - x0), Abs(y1 - y0))
  }

  lemma ExtentsWithin(x0: int, y0: int, x1: int, y1: int)
    ensures Abs(x1 - x0) <= Steps(x0, y0, x1, y1) && Abs(y1 - y0) <= Steps(x0, y0, x1, y1)
  {}

  /** The k-th point: k steps along the longer extent, and the nearest one on the other. */
  function LinePoint(x0: int, y0: int, x1: int, y1: int, k: nat): Point
  {
    var (dx, dy) := (Abs(x1 - x0), Abs(y1 - y0));
    var (sx, sy) := (Direction(x0, x1), Direction(y0, y1));
    if Max(dx, dy) == 0 then Point(x0, y0)
    else if dx >= dy then Point(x0 + sx * k, y0 + sy * Rounded(k, dy, dx))
    else Point(x0 + sx * Rounded(k, dx, dy), y0 + sy * k)
  }

  function Line(x0: int, y0: int, x1: int, y1: int): (points: seq<Point>)
    ensures |points| == Steps(x0, y0, x1, y1) + 1
  {
    seq(Steps(x0, y0, x1, y1) + 1, k requires 0 <= k => LinePoint(x0, y0, x1, y1, k))
  }

  /** `m` is within half a unit of k * minor / major, exactly half a unit only below it. */
  predicate Nearest(k: int, m: int, minor: int, major: int) {
    -major <= 2 * (m * major - k * minor) < major
  }

  /** The rounded value is the one nearest integer. */
  lemma RoundedNearest(k: nat, m: int, minor: nat, major: nat)
    requires major > 0
    ensures m == Rounded(k, minor, major) <==> Nearest(k, m, minor, major)
  {
    var n := 2 * (k * minor) + major - 1;
    var q := n / (2 * major);
    assert 2 * k * minor == 2 * (k * minor);
    assert n == 2 * major * q + n % (2 * major);
    assert 2 * major * q == 2 * (q * major);
    if m < q {
      MulMonotone(m + 1, q, major);
    } else if m > q {
      MulMonotone(q + 1, m, major);
    }
  }

  lemma MulMonotone(a: int, b: int, c: int)
    requires a <= b && c >= 0
    ensures a * c <= b * c && (a - 1) * c == a * c - c
  {}

  lemma RoundedEnds(a: nat, b: nat)
    requires b <= a && a > 0
    ensures Rounded(0, b, a) == 0 && Rounded(a, b, a) == b
  {
    RoundedNearest(0, 0, b, a);
    RoundedNearest(a, b, b, a);
    assert b * a == a * b;
  }

  /** From one column to the next, the rounded value stays or grows by one. */
  lemma RoundedStep(k: nat, b: nat, a: nat)
    requires b <= a && a > 0
    ensures Rounded(k, b, a) <= Rounded(k + 1, b, a) <= Rounded(k, b, a) + 1
  {
    var m := Rounded(k, b, a);
    RoundedNearest(k, m, b, a);
    Distribute(k, m, b, a);
    RoundedNearest(k + 1, m, b, a);
    RoundedNearest(k + 1, m + 1, b, a);
  }

  lemma Distribute(k: int, m: int, b: int, a: int)
    ensures (k + 1) * b == k * b + b && (m + 1) * a == m * a + a
  {}

  // ----- one step of the loop -----

  /** The accumulated error after `i` steps in x and `j` steps in y. */
  function Error(i: int, j: int, dx: int, dy: int): int {
    j * dx - i * dy + dx - dy
  }

  /** On a flat line every step moves in x, and the step in y keeps to the nearest row. */
  lemma FlatStep(k: nat, dx: nat, dy: nat)
    requires dy <= dx && k < dx
    ensures var j := Rounded(k, dy, dx); var e2 := 2 * Error(k, j, dx, dy);
            e2 > -(dy as int) && (e2 < dx <==> Rounded(k + 1, dy, dx) == j + 1)
            && Rounded(k + 1, dy, dx) - j in {0, 1}
            && dx - 2 * dy <= e2 < 3 * dx - 2 * dy
            && (dx == dy ==> e2 == 0) && (dy == 0 ==> e2 == 2 * dx)
  {
    hide Rounded;
    var j := Rounded(k, dy, dx);
    RoundedNearest(k, j, dy, dx);
    RoundedStep(k, dy, dx);
    RoundedNearest(k + 1, j, dy, dx);
    RoundedNearest(k + 1, j + 1, dy, dx);
    Distribute(k, j, dy, dx);
    if dx == dy {
      RoundedNearest(k, k, dy, dx);
    }
    if dy == 0 {
      RoundedNearest(k, 0, dy, dx);
    }
  }

  /** On a steep line the roles of x and y are exchanged. */
  lemma SteepStep(k: nat, dx: nat, dy: nat)
    requires dx < dy && k < dy
    ensures var i := Rounded(k, dx, dy); var e2 := 2 * Error(i, k, dx, dy);
            e2 < dx && (e2 > -(dy as int) <==> Rounded(k + 1, dx, dy) == i + 1)
            && Rounded(k + 1, dx, dy) - i in {0, 1}
            && 2 * dx - 3 * dy < e2 <= 2 * dx - dy
            && (dx == 0 ==> e2 == -2 * dy)
  {
    hide Rounded;
    var i := Rounded(k, dx, dy);
    RoundedNearest(k, i, dx, dy);
    RoundedStep(k, dx, dy);
    RoundedNearest(k + 1, i, dx, dy);
    RoundedNearest(k + 1, i + 1, dx, dy);
    Distribute(k, i, dx, dy);
    if dx == 0 {
      RoundedNearest(k, 0, dx, dy);
    }
  }

  // ----- the points of a line -----

  predicate Neighbours(p: Point, q: Point) {
    p != q && -1 <= p.x - q.x <= 1 && -1 <= p.y - q.y <= 1
  }

  /** The line runs from its start to its end over max(dx, dy) + 1 points, each next to the one
      before, and stays within half a pixel of the ideal line. */
  lemma LineShape(x0: int, y0: int, x1: int, y1: int)
    ensures var line := Line(x0, y0, x1, y1); var n := Steps(x0, y0, x1, y1);
            line[0] == Point(x0, y0) && line[n] == Point(x1, y1)
            && forall k :: 0 <= k < n ==> Neighbours(line[k], line[k + 1])
    ensures var line := Line(x0, y0, x1, y1);
            forall k :: 0 <= k < |line| ==> WithinHalf(line[k], x0, y0, x1, y1)
  {
    hide Rounded;
    var line := Line(x0, y0, x1, y1);
    var n := Steps(x0, y0, x1, y1);
    var (dx, dy) := (Abs(x1 - x0), Abs(y1 - y0));
    if n > 0 {
      if dx >= dy { RoundedEnds(dx, dy); } else { RoundedEnds(dy, dx); }
      forall k | 0 <= k < n ensures Neighbours(line[k], line[k + 1]) {
        if dx >= dy { RoundedStep(k, dy, dx); } else { RoundedStep(k, dx, dy); }
      }
    }
    forall k | 0 <= k <= n ensures WithinHalf(line[k], x0, y0, x1, y1) {
      LinePointWithin(x0, y0, x1, y1, k);
    }
  }

  /** Twice the distance to the ideal line, measured along the shorter extent and scaled by the
      longer one, is at most the longer one. */
  predicate WithinHalf(p: Point, x0: int, y0: int, x1: int, y1: int) {
    2 * Abs((p.y - y0) * (x1 - x0) - (p.x - x0) * (y1 - y0)) <= Steps(x0, y0, x1, y1)
  }

  lemma LinePointWithin(x0: int, y0: int, x1: int, y1: int, k: nat)
    requires k <= Steps(x0, y0, x1, y1)
    ensures WithinHalf(LinePoint(x0, y0, x1, y1, k), x0, y0, x1, y1)
  {
    hide Rounded;
    var (dx, dy) := (Abs(x1 - x0), Abs(y1 - y0));
    if dx >= dy && dx > 0 {
      RoundedNearest(k, Rounded(k, dy, dx), dy, dx);
      NearWithin(x0, y0, x1, y1, k, Rounded(k, dy, dx));
    } else if dy > dx {
      RoundedNearest(k, Rounded(k, dx, dy), dx, dy);
      NearWithin(x0, y0, x1, y1, Rounded(k, dx, dy), k);
    }
  }

  lemma Extent(from: int, to: int)
    ensures to - from == Direction(from, to) * Abs(to - from)
    ensures Direction(from, to) == 1 || Direction(from, to) == -1
  {}

  /** i steps along x and j along y, near the ideal line in whole steps, are near it on the plane. */
  lemma NearWithin(x0: int, y0: int, x1: int, y1: int, i: nat, j: nat)
    requires var (dx, dy) := (Abs(x1 - x0), Abs(y1 - y0));
             2 * Abs(j * dx - i * dy) <= Steps(x0, y0, x1, y1)
    ensures WithinHalf(Point(x0 + Direction(x0, x1) * i, y0 + Direction(y0, y1) * j), x0, y0, x1, y1)
  {
    hide Direction, Steps, Max;
    var (dx, dy) := (Abs(x1 - x0), Abs(y1 - y0));
    var (sx, sy) := (Direction(x0, x1), Direction(y0, y1));
    Extent(x0, x1);
    Extent(y0, y1);
    Signs(sx, sy, j, dx, i, dy);
    var z := j * dx - i * dy;
    assert Abs(sx * sy * z) == Abs(z) by { assert sx * sy * z == z || sx * sy * z == -z; }
  }

  lemma Signs(sx: int, sy: int, m: int, dx: int, k: int, dy: int)
    requires (sx == 1 || sx == -1) && (sy == 1 || sy == -1)
    ensures (sy * m) * (sx * dx) - (sx * k) * (sy * dy) == sx * sy * (m * dx - k * dy)
    ensures sx * sy == 1 || sx * sy == -1
  {}

  // ----- drawing -----

  /** A raster target with the pen that draws on it. */
  class Canvas<Pixel(0)> {
    const pixels: array2<Pixel>
    var color: Pixel

    constructor (width: nat, height: nat, blank: Pixel, color: Pixel)
      ensures pixels.Length0 == width && pixels.Length1 == height && this.color == color && fresh(pixels)
      ensures forall x, y :: 0 <= x < width && 0 <= y < height ==> pixels[x, y] == blank
    {
      pixels := new Pixel[width, height]((x, y) => blank);
      this.color := color;
    }

    predicate InBounds(x: int, y: int) {
      0 <= x < pixels.Length0 && 0 <= y < pixels.Length1
    }

    /** Points outside the target are clipped. */
    method Plot(x: int32, y: int32)
      modifies pixels
      ensures forall i, j :: InBounds(i, j) ==>
                pixels[i, j] == if i == x as int && j == y as int then color else old(pixels[i, j])
    {
      if InBounds(x as int, y as int) {
        pixels[x, y] := color;
      }
    }

    /** Exactly the points of the line that lie on the target take the color of the pen. */
    method DrawLine(x0: int32, y0: int32, x1: int32, y1: int32) returns (ghost points: seq<Point>)
      requires InRange(Abs(x1 as int - x0 as int), Abs(y1 as int - y0 as int))
      modifies pixels
      ensures points == Line(x0 as int, y0 as int, x1 as int, y1 as int)
      ensures forall i, j :: InBounds(i, j) ==>
                pixels[i, j] == if Point(i, j) in points then color else old(pixels[i, j])
    {
      hide Rounded, At, Line, Steps, LinePoint, ErrorAt;
      ghost var a0, b0, a1, b1 := x0 as int, y0 as int, x1 as int, y1 as int;
      ghost var line := Line(a0, b0, a1, b1);
      ghost var n := Steps(a0, b0, a1, b1);
      ExtentsWithin(a0, b0, a1, b1);
      var dx := Distance(x0, x1);
      var dy := Distance(y0, y1);
      var sx: int32 := if x0 < x1 then 1 else -1;
      var sy: int32 := if y0 < y1 then 1 else -1;
      var err := dx - dy;
      var x, y := x0, y0;
      LineStart(a0, b0, a1, b1);
      points := [];
      while true
        invariant |points| <= n && points == line[..|points|]
        invariant At(a0, b0, a1, b1, |points|, x as int, y as int, err as int)
        invariant forall i, j :: InBounds(i, j) ==>
                    pixels[i, j] == if Point(i, j) in points then color else old(pixels[i, j])
        decreases n - |points|
      {
        Plot(x, y);
        points := points + [Point(x as int, y as int)];
        AtPoint(a0, b0, a1, b1, |points| - 1, x as int, y as int, err as int);
        if x == x1 && y == y1 {
          break;
        }
        AtStep(a0, b0, a1, b1, |points| - 1, x as int, y as int, err as int);
        AtBetween(a0, b0, a1, b1, |points|, NextX(x as int, err as int, dx as int, dy as int, sx as int),
                  NextY(y as int, err as int, dx as int, dy as int, sy as int), NextError(err as int, dx as int, dy as int));
        var e2 := 2 * err;
        if e2 > -dy {
          err := err - dy;
          x := x + sx;
        }
        if e2 < dx {
          err := err + dx;
          y := y + sy;
        }
      }
    }

    static method Distance(a: int32, b: int32) returns (d: int32)
      requires Fits32(Abs(b as int - a as int))
      ensures d as int == Abs(b as int - a as int)
    {
      d := b - a;
      if d < 0 {
        d := -d;
      }
    }
  }

  /** The state of the loop before it plots the k-th point. */
  ghost predicate At(x0: int, y0: int, x1: int, y1: int, k: nat, x: int, y: int, err: int) {
    var (dx, dy) := (Abs(x1 - x0), Abs(y1 - y0));
    var (i, j) := if dx >= dy then (k, if dx == 0 then 0 else Rounded(k, dy, dx)) else (Rounded(k, dx, dy), k);
    x == x0 + Direction(x0, x1) * i && y == y0 + Direction(y0, y1) * j && err == Error(i, j, dx, dy)
  }

  lemma LineStart(x0: int, y0: int, x1: int, y1: int)
    ensures At(x0, y0, x1, y1, 0, x0, y0, Abs(x1 - x0) - Abs(y1 - y0))
  {
    hide Rounded;
    var (dx, dy) := (Abs(x1 - x0), Abs(y1 - y0));
    if dx >= dy && dx > 0 { RoundedEnds(dx, dy); }
    if dx < dy { RoundedEnds(dy, dx); }
  }

  /** The point to be plotted is the next one of the line, and the loop ends on the last one only. */
  lemma AtPoint(x0: int, y0: int, x1: int, y1: int, k: nat, x: int, y: int, err: int)
    requires k <= Steps(x0, y0, x1, y1) && At(x0, y0, x1, y1, k, x, y, err)
    ensures Line(x0, y0, x1, y1)[k] == Point(x, y)
    ensures (x == x1 && y == y1) <==> k == Steps(x0, y0, x1, y1)
  {
    hide Rounded;
    var (dx, dy) := (Abs(x1 - x0), Abs(y1 - y0));
    if dx >= dy && dx > 0 { RoundedEnds(dx, dy); }
    if dx < dy { RoundedEnds(dy, dx); }
  }

  // The three assignments of the loop body.
  function NextX(x: int, err: int, dx: int, dy: int, sx: int): int {
    if 2 * err > -dy then x + sx else x
  }

  function NextY(y: int, err: int, dx: int, dy: int, sy: int): int {
    if 2 * err < dx then y + sy else y
  }

  function NextError(err: int, dx: int, dy: int): int {
    err - (if 2 * err > -dy then dy else 0) + (if 2 * err < dx then dx else 0)
  }

  /** The intermediate values of a step are in range. */
  predicate ErrorsFit(err: int, dx: int, dy: int) {
    Fits32(2 * err) && Fits32(NextError(err, dx, dy)) && (2 * err > -dy ==> Fits32(err - dy))
  }

  /** The error before the k-th point is plotted. */
  function ErrorAt(k: nat, dx: nat, dy: nat): int
    requires Max(dx, dy) > 0
  {
    if dx >= dy then Error(k, Rounded(k, dy, dx), dx, dy) else Error(Rounded(k, dx, dy), k, dx, dy)
  }

  /** No intermediate value of the whole run leaves 32 bits. */
  ghost predicate InRange(dx: nat, dy: nat) {
    Fits32(dx) && Fits32(dy) && forall k: nat :: k < Max(dx, dy) ==> ErrorsFit(ErrorAt(k, dx, dy), dx, dy)
  }

  /** A condition on the extents that ensures it. */
  lemma RepresentableInRange(dx: nat, dy: nat)
    requires Representable(dx, dy)
    ensures InRange(dx, dy)
  {
    hide Rounded, Error, ErrorsFit;
    forall k: nat | k < Max(dx, dy) ensures ErrorsFit(ErrorAt(k, dx, dy), dx, dy) {
      if dx >= dy { FlatFits(k, dx, dy); } else { SteepFits(k, dx, dy); }
    }
  }

  lemma FlatFits(k: nat, dx: nat, dy: nat)
    requires Representable(dx, dy) && dy <= dx && k < dx
    ensures ErrorsFit(Error(k, Rounded(k, dy, dx), dx, dy), dx, dy)
  {
    hide Rounded, Error;
    FlatStep(k, dx, dy);
  }

  lemma SteepFits(k: nat, dx: nat, dy: nat)
    requires Representable(dx, dy) && dx < dy && k < dy
    ensures ErrorsFit(Error(Rounded(k, dx, dy), k, dx, dy), dx, dy)
  {
    hide Rounded, Error;
    SteepStep(k, dx, dy);
  }

  lemma AtFits(x0: int, y0: int, x1: int, y1: int, k: nat, x: int, y: int, err: int)
    requires k < Steps(x0, y0, x1, y1) && At(x0, y0, x1, y1, k, x, y, err)
    requires InRange(Abs(x1 - x0), Abs(y1 - y0))
    ensures ErrorsFit(err, Abs(x1 - x0), Abs(y1 - y0))
  {
    hide Rounded, Error, ErrorsFit;
    assert err == ErrorAt(k, Abs(x1 - x0), Abs(y1 - y0));
  }

  /** One step of the loop, with all intermediate values in range. */
  lemma AtStep(x0: int, y0: int, x1: int, y1: int, k: nat, x: int, y: int, err: int)
    requires k < Steps(x0, y0, x1, y1) && At(x0, y0, x1, y1, k, x, y, err)
    requires InRange(Abs(x1 - x0), Abs(y1 - y0))
    ensures var (dx, dy) := (Abs(x1 - x0), Abs(y1 - y0));
            At(x0, y0, x1, y1, k + 1, NextX(x, err, dx, dy, Direction(x0, x1)),
               NextY(y, err, dx, dy, Direction(y0, y1)), NextError(err, dx, dy))
    ensures ErrorsFit(err, Abs(x1 - x0), Abs(y1 - y0))
    ensures k + 1 <= Steps(x0, y0, x1, y1)
  {
    hide Rounded, Error, ErrorsFit, InRange, ErrorAt;
    var (dx, dy) := (Abs(x1 - x0), Abs(y1 - y0));
    AtFits(x0, y0, x1, y1, k, x, y, err);
    if dx >= dy {
      FlatStep(k, dx, dy);
      ErrorStep(k, Rounded(k, dy, dx), dx, dy);
    } else {
      SteepStep(k, dx, dy);
      ErrorStep(Rounded(k, dx, dy), k, dx, dy);
    }
  }

  predicate Between(a: int, x: int, b: int) {
    a <= x <= b || b <= x <= a
  }

  lemma RoundedBounded(k: nat, b: nat, a: nat)
    requires k <= a && b <= a && a > 0
    ensures Rounded(k, b, a) <= b
  {
    hide Rounded;
    var m := Rounded(k, b, a);
    RoundedNearest(k, m, b, a);
    assert k * b <= b * a by { MulMonotone(k, a, b); }
    if m >= b + 1 {
      MulMonotone(b + 1, m, a);
    }
  }

  /** The loop never leaves the rectangle that the end points span. */
  lemma AtBetween(x0: int, y0: int, x1: int, y1: int, k: nat, x: int, y: int, err: int)
    requires k <= Steps(x0, y0, x1, y1) && At(x0, y0, x1, y1, k, x, y, err)
    ensures Between(x0, x, x1) && Between(y0, y, y1)
  {
    hide Rounded;
    var (dx, dy) := (Abs(x1 - x0), Abs(y1 - y0));
    if dx >= dy && dx > 0 { RoundedBounded(k, dy, dx); }
    if dx < dy { RoundedBounded(k, dx, dy); }
  }

  lemma ErrorStep(i: int, j: int, dx: int, dy: int)
    ensures Error(i + 1, j, dx, dy) == Error(i, j, dx, dy) - dy
    ensures Error(i, j + 1, dx, dy) == Error(i, j, dx, dy) + dx
    ensures Error(i + 1, j + 1, dx, dy) == Error(i, j, dx, dy) - dy + dx
  {}
}
