/** Row-major pixel buffers: the byte buffers that the painters overwrite slice
    by slice, seen three bytes (one pixel) at a time. */
module Pixels {
  import opened Arith

  datatype Rgb = Rgb(red: int, green: int, blue: int)

  const WHITE := Rgb(255, 255, 255)

  /** Position of column `x` of row `y` in a buffer `width` pixels wide. */
  function At(width: int, x: int, y: int): int {
    y * width + x
  }

  ghost predicate Inside(width: int, height: int, x: int, y: int) {
    0 <= x < width && 0 <= y < height
  }

  lemma AtInRange(width: int, height: int, x: int, y: int)
    requires Inside(width, height, x, y)
    ensures 0 <= At(width, x, y) < width * height
  {
    MulMonotone(y, height - 1, width);
    MulNonNegative(y, width);
    DistributeMinus(width, height, 1);
  }

  lemma AtInjective(width: int, x: int, y: int, x': int, y': int)
    requires 0 <= x < width && 0 <= x' < width
    requires At(width, x, y) == At(width, x', y')
    ensures x == x' && y == y'
  {
    Commute(y, width);
    Commute(y', width);
    QuotientUnique(At(width, x, y), width, y, x, y', x');
  }

  lemma AtStep(width: int, x: int, y: int, k: int)
    ensures At(width, x + k, y) == At(width, x, y) + k
  {}

  /** The canvas shows `picture`. */
  ghost predicate Shows(pixels: seq<Rgb>, width: int, height: int, picture: (int, int) -> Rgb) {
    && |pixels| == width * height
    && forall x, y :: Inside(width, height, x, y) ==>
         0 <= At(width, x, y) < |pixels| && pixels[At(width, x, y)] == picture(x, y)
  }

  /** Row `y`, columns `[x, x + n)` of the buffer take one colour: a slice assignment. */
  method FillRow(pixels: array<Rgb>, width: int, height: int, x: int, y: int, n: int, colour: Rgb,
                 ghost picture: (int, int) -> Rgb)
    returns (ghost shown: (int, int) -> Rgb)
    requires Shows(pixels[..], width, height, picture)
    requires 0 <= x && 0 <= n && x + n <= width && 0 <= y < height
    modifies pixels
    ensures Shows(pixels[..], width, height, shown)
    ensures forall u, v :: shown(u, v) == if v == y && x <= u < x + n then colour else picture(u, v)
  {
    shown := (u, v) => if v == y && x <= u < x + n then colour else picture(u, v);
    var start := At(width, x, y);
    if n > 0 {
      AtInRange(width, height, x, y);
      AtInRange(width, height, x + n - 1, y);
      AtStep(width, x, y, n - 1);
    }
    for k := 0 to n
      invariant forall p :: 0 <= p < pixels.Length ==>
                  pixels[p] == if start <= p < start + k then colour else old(pixels[p])
    {
      pixels[start + k] := colour;
    }
    forall u, v | Inside(width, height, u, v)
      ensures 0 <= At(width, u, v) < pixels.Length && pixels[At(width, u, v)] == shown(u, v)
    {
      assert old(pixels[..])[At(width, u, v)] == picture(u, v);
      RowSpan(width, x, y, n, u, v);
    }
  }

  lemma RowSpan(width: int, x: int, y: int, n: int, u: int, v: int)
    requires 0 <= x && 0 <= n && x + n <= width && 0 <= u < width
    ensures At(width, x, y) <= At(width, u, v) < At(width, x, y) + n <==> v == y && x <= u < x + n
  {
    if At(width, x, y) <= At(width, u, v) < At(width, x, y) + n {
      var k := At(width, u, v) - At(width, x, y);
      AtStep(width, x, y, k);
      AtInjective(width, u, v, x + k, y);
    }
    if v == y {
      AtStep(width, x, y, u - x);
    }
  }

  predicate InRectangle(x: int, y: int, w: int, h: int, u: int, v: int) {
    x <= u < x + w && y <= v < y + h
  }

  method Rectangle(pixels: array<Rgb>, width: int, height: int, x: int, y: int, w: int, h: int, colour: Rgb,
                   ghost picture: (int, int) -> Rgb)
    returns (ghost shown: (int, int) -> Rgb)
    requires Shows(pixels[..], width, height, picture)
    requires 0 <= x && 0 <= w && x + w <= width && 0 <= y && 0 <= h && y + h <= height
    modifies pixels
    ensures Shows(pixels[..], width, height, shown)
    ensures forall u, v :: shown(u, v) == if InRectangle(x, y, w, h, u, v) then colour else picture(u, v)
  {
    shown := picture;
    for row := y to y + h
      invariant Shows(pixels[..], width, height, shown)
      invariant forall u, v :: shown(u, v) == if InRectangle(x, y, w, row - y, u, v) then colour else picture(u, v)
    {
      shown := FillRow(pixels, width, height, x, row, w, colour, shown);
    }
  }
}
