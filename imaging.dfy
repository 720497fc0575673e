/**
 * The part of the imaging library (PIL) that the vector composer relies on,
 * stated on values: single-band 8-bit planes, the per-pixel `ImageChops`
 * operators, `Image.new` with a uniform colour, and `crop`.
 *
 * A plane is a sequence of rows; `p[y][x]` is the pixel in column x of row y.
 */
module Imaging {

  /** An 8-bit sample, the value range of an 'L' band. */
  type Level = x: int | 0 <= x <= 255

  type Plane = seq<seq<Level>>

  /** How the library stores an integer in an 8-bit band: clamped to 0..255. */
  function Clamp(v: int): (r: Level)
    ensures 0 <= v <= 255 ==> r == v
    ensures v < 0 ==> r == 0
    ensures v > 255 ==> r == 255
  {
    if v < 0 then 0 else if v > 255 then 255 else v
  }

  ghost predicate IsPlane(p: Plane, width: nat, height: nat) {
    |p| == height && forall y :: 0 <= y < height ==> |p[y]| == width
  }

  /** `Image.new('L', (width, height), v)`. */
  function Uniform(width: nat, height: nat, v: Level): (p: Plane)
    ensures IsPlane(p, width, height)
    ensures forall y, x :: 0 <= y < height && 0 <= x < width ==> p[y][x] == v
  {
    seq(height, y => seq(width, x => v))
  }

  /** The binary `ImageChops` operators the compositor uses. */
  datatype Chop = Difference | Lighter | Subtract | Darker

  /** One pixel of `ImageChops.<op>(a, b)`; `subtract` uses scale 1 and offset 0. */
  function ChopLevel(op: Chop, a: Level, b: Level): Level {
    match op
    case Difference => if a >= b then a - b else b - a
    case Lighter => if a >= b then a else b
    case Subtract => if a >= b then a - b else 0
    case Darker => if a <= b then a else b
  }

  /** `ImageChops.invert` on one pixel. */
  function InvertLevel(a: Level): Level {
    255 - a
  }

  /** `ImageChops.<op>(a, b)` on two planes of the same size. */
  function Chops(op: Chop, a: Plane, b: Plane, width: nat, height: nat): (r: Plane)
    requires IsPlane(a, width, height) && IsPlane(b, width, height)
    ensures IsPlane(r, width, height)
    ensures forall y, x :: 0 <= y < height && 0 <= x < width ==>
              r[y][x] == ChopLevel(op, a[y][x], b[y][x])
  {
    seq(height, y requires 0 <= y < height =>
      seq(width, x requires 0 <= x < width => ChopLevel(op, a[y][x], b[y][x])))
  }

  /** `ImageChops.invert(a)`. */
  function Invert(a: Plane, width: nat, height: nat): (r: Plane)
    requires IsPlane(a, width, height)
    ensures IsPlane(r, width, height)
    ensures forall y, x :: 0 <= y < height && 0 <= x < width ==> r[y][x] == InvertLevel(a[y][x])
  {
    seq(height, y requires 0 <= y < height =>
      seq(width, x requires 0 <= x < width => InvertLevel(a[y][x])))
  }

  /** A crop box `(left, upper, right, lower)` in canvas pixels. */
  datatype Box = Box(left: int, top: int, right: int, bottom: int) {
    function Width(): nat {
      if right > left then right - left else 0
    }
    function Height(): nat {
      if bottom > top then bottom - top else 0
    }
  }

  /**
   * `p.crop(box)`: the result is `box.Width()` by `box.Height()`; a pixel whose
   * canvas position lies outside `p` is 0, as the library fills it.
   */
  function Crop(p: Plane, width: nat, height: nat, box: Box): (r: Plane)
    requires IsPlane(p, width, height)
    ensures IsPlane(r, box.Width(), box.Height())
    ensures forall y, x :: 0 <= y < box.Height() && 0 <= x < box.Width() ==>
              r[y][x] == (if 0 <= box.top + y < height && 0 <= box.left + x < width
                          then p[box.top + y][box.left + x] else 0)
  {
    seq(box.Height(), y =>
      seq(box.Width(), x =>
        if 0 <= box.top + y < height && 0 <= box.left + x < width
        then p[box.top + y][box.left + x] else 0))
  }

  /** Two planes of the same size are equal when they agree at every pixel. */
  lemma PlaneExtensionality(p: Plane, q: Plane, width: nat, height: nat)
    requires IsPlane(p, width, height) && IsPlane(q, width, height)
    requires forall y, x :: 0 <= y < height && 0 <= x < width ==> p[y][x] == q[y][x]
    ensures p == q
  {
    forall y | 0 <= y < height ensures p[y] == q[y] {
      assert |p[y]| == |q[y]| == width;
      forall x | 0 <= x < width ensures p[y][x] == q[y][x] {
      }
    }
  }
}
