/** The line rasterizer plotLine of bresenham.c. */
module BresenhamLines {
  function Abs(x: int): int { if x < 0 then -x else x }

  function Max(x: int, y: int): int { if x < y then y else x }

  datatype Pixel = Pixel(x: int, y: int)

  /** Twice the distance from the ideal line, along the minor axis and in units of the length of the major axis: after i
      steps in x and j steps in y of a line that is a wide and b high. At most a means at most half a pixel. */
  ghost predicate NearLine(a: int, b: int, i: int, j: int) {
    Abs(2 * (j * a - i * b)) <= Max(a, b)
  }

  /** The error value: the deviation j * a - i * b of the pixel that a step in both directions would lead to. */
  ghost function Err(a: int, b: int, i: int, j: int): int {
    (j + 1) * a - (i + 1) * b
  }

  lemma ErrSteps(a: int, b: int, i: int, j: int)
    ensures Err(a, b, i + 1, j) == Err(a, b, i, j) - b
    ensures Err(a, b, i, j + 1) == Err(a, b, i, j) + a
    ensures Err(a, b, i + 1, j + 1) == Err(a, b, i, j) - b + a
    ensures Err(a, b, i, j) == j * a - i * b + a - b
  {
  }

  lemma Farther(n: int, a: int)
    requires n >= 1 && a >= 0
    ensures n * a >= a
  {
  }

  /** Where one side is done and the other is not, the deviation points away from the side that is done. */
  lemma SideDone(a: int, b: int, i: int, j: int)
    requires 0 <= a && 0 <= b
    ensures j == b && i < a ==> j * a - i * b >= b
    ensures i == a && j < b ==> j * a - i * b <= -a
  {
    if j == b && i < a {
      Distribute(a, i, b);
      Farther(a - i, b);
    }
    if i == a && j < b {
      Distribute(b, j, a);
      Farther(b - j, a);
    }
  }

  lemma Distribute(x: int, y: int, z: int)
    ensures x * z - y * z == (x - y) * z
  {
  }

  /** The coordinate after i steps from x0 towards x1. */
  function Along(x0: int, x1: int, i: int): int { if x0 < x1 then x0 + i else x0 - i }

  /** A next pixel: one step along the longer side, and perhaps one along the other. */
  ghost predicate NextTo(i: int, j: int, k: int, l: int, wide: bool) {
    && (k == i || k == i + 1) && (l == j || l == j + 1)
    && (if wide then k == i + 1 else l == j + 1)
  }

  /** One turn of the loop: the line goes a step along its longer side, and along the other if that leaves it within
      half a pixel. */
  lemma Turn(a: int, b: int, i: int, j: int, err: int)
    requires NearLine(a, b, i, j) && 0 <= i <= a && 0 <= j <= b && err == Err(a, b, i, j)
    requires i != a || j != b
    ensures 2 * err >= -b ==> i < a
    ensures 2 * err <= a ==> j < b
    ensures if a >= b then 2 * err >= -b else 2 * err <= a
    ensures NearLine(a, b, if 2 * err >= -b then i + 1 else i, if 2 * err <= a then j + 1 else j)
  {
    var d := j * a - i * b;
    ErrSteps(a, b, i, j);
    DeviationSteps(a, b, i, j);
    SideDone(a, b, i, j);
    TurnBy(a, b, i, j, d, err);
  }

  lemma DeviationSteps(a: int, b: int, i: int, j: int)
    ensures (j + 1) * a - i * b == j * a - i * b + a
    ensures j * a - (i + 1) * b == j * a - i * b - b
    ensures (j + 1) * a - (i + 1) * b == j * a - i * b + a - b
  {
  }

  /** The same with the deviation d instead of the products. */
  lemma TurnBy(a: int, b: int, i: int, j: int, d: int, err: int)
    requires 0 <= i <= a && 0 <= j <= b && (i != a || j != b) && err == d + a - b && Abs(2 * d) <= Max(a, b)
    requires (j == b && i < a ==> d >= b) && (i == a && j < b ==> d <= -a)
    ensures 2 * err >= -b ==> i < a
    ensures 2 * err <= a ==> j < b
    ensures if a >= b then 2 * err >= -b else 2 * err <= a
    ensures Abs(2 * (d + (if 2 * err <= a then a else 0) - if 2 * err >= -b then b else 0)) <= Max(a, b)
  {
  }

  /** Every pixel is near the ideal line, and leads to the next one. */
  ghost predicate Drawn(pixels: seq<Pixel>, x0: int, y0: int, a: int, b: int) {
    && (forall k | 0 <= k < |pixels| :: NearLine(a, b, Abs(pixels[k].x - x0), Abs(pixels[k].y - y0)))
    && (forall k, l | 0 <= k < l < |pixels| && l == k + 1 :: LeadsTo(pixels[k], pixels[l], x0, y0, a >= b))
  }

  ghost predicate LeadsTo(p: Pixel, q: Pixel, x0: int, y0: int, wide: bool) {
    NextTo(Abs(p.x - x0), Abs(p.y - y0), Abs(q.x - x0), Abs(q.y - y0), wide)
  }

  lemma DrawnMore(pixels: seq<Pixel>, p: Pixel, x0: int, y0: int, a: int, b: int)
    requires Drawn(pixels, x0, y0, a, b) && NearLine(a, b, Abs(p.x - x0), Abs(p.y - y0))
    requires pixels != [] ==> LeadsTo(pixels[|pixels| - 1], p, x0, y0, a >= b)
    ensures Drawn(pixels + [p], x0, y0, a, b)
  {
    hide NearLine, LeadsTo;
  }

  /** The pixels run from one end to the other without a gap, as many as the longer side has, each within half a pixel
      of the ideal line. */
  method PlotLine(x0: int, y0: int, x1: int, y1: int) returns (pixels: seq<Pixel>)
    ensures |pixels| == Max(Abs(x1 - x0), Abs(y1 - y0)) + 1
    ensures pixels[0] == Pixel(x0, y0) && pixels[|pixels| - 1] == Pixel(x1, y1)
    ensures Drawn(pixels, x0, y0, Abs(x1 - x0), Abs(y1 - y0))
  {
    hide NearLine, Drawn, Err;
    var x, y := x0, y0;
    var dx: int, sx: int := Abs(x1 - x0), if x0 < x1 then 1 else -1;
    var dy: int, sy: int := -Abs(y1 - y0), if y0 < y1 then 1 else -1;
    var err := dx + dy;
    pixels := [];
    ghost var a: int, b: int := dx, -dy;
    ghost var i: int, j: int := 0, 0;
    Begin(x0, y0, a, b);
    while true
      invariant 0 <= i <= a && 0 <= j <= b && x == Along(x0, x1, i) && y == Along(y0, y1, j)
      invariant err == Err(a, b, i, j) && NearLine(a, b, i, j)
      invariant |pixels| == if a >= b then i else j
      invariant |pixels| == 0 ==> i == 0 && j == 0
      invariant |pixels| > 0 ==> pixels[0] == Pixel(x0, y0) && LeadsTo(pixels[|pixels| - 1], Pixel(x, y), x0, y0, a >= b)
      invariant Drawn(pixels, x0, y0, a, b)
      decreases a + b - i - j
    {
      assert Abs(x - x0) == i && Abs(y - y0) == j;
      if i != a || j != b { Turn(a, b, i, j, err); }
      ErrSteps(a, b, i, j);
      DrawnMore(pixels, Pixel(x, y), x0, y0, a, b);
      pixels := pixels + [Pixel(x, y)];
      var e2 := 2 * err;
      if e2 >= dy {
        if x == x1 {
          break;
        }
        err := err + dy;
        x := x + sx;
        i := i + 1;
      }
      if e2 <= dx {
        if y == y1 {
          break;
        }
        err := err + dx;
        y := y + sy;
        j := j + 1;
      }
    }
  }

  /** The longest side for which 32 bits are enough. */
  const LONGEST: int := 0x7FFF_FFFF / 3

  /** Up to there no value that a turn computes leaves the 32-bit range. */
  lemma NoOverflow(a: int, b: int, i: int, j: int)
    requires 0 <= a <= LONGEST && 0 <= b <= LONGEST && NearLine(a, b, i, j)
    ensures var err := Err(a, b, i, j);
      && Abs(2 * err) <= 0x7FFF_FFFF && Abs(err - b) <= 0x7FFF_FFFF && Abs(err + a) <= 0x7FFF_FFFF && Abs(err - b + a) <= 0x7FFF_FFFF
  {
  }

  lemma Begin(x0: int, y0: int, a: int, b: int)
    requires 0 <= a && 0 <= b
    ensures NearLine(a, b, 0, 0) && Err(a, b, 0, 0) == a - b && Drawn([], x0, y0, a, b)
  {
  }
}
