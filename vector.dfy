/**
 * The vector-mask compositor of the layer composer: the SVG-style token list
 * a sub-path is drawn from, the per-sub-path plane, and the boolean fold of the
 * planes into one grayscale mask cropped to the layer.
 */
module Vector {
  import opened Imaging

  /**
   * A knot coordinate as the document stores it, normalised to [0, 1]:
   * `.0` is the vertical component and `.1` the horizontal one.
   */
  type Point = (real, real)

  /** A bezier knot: its anchor and the handles entering and leaving it. */
  datatype Knot = Knot(preceding: Point, anchor: Point, leaving: Point)

  /** One contour of a vector mask with its boolean operation code. */
  datatype Subpath = Subpath(knots: seq<Knot>, closed: bool, operation: int)

  type Bit = b: int | 0 <= b <= 1

  datatype VectorMask = VectorMask(initialFillRule: Bit, paths: seq<Subpath>)

  /** One item of the symbol sequence: a path command or a number. */
  datatype Token = Command(c: char) | Number(v: real)

  /** Python's `s[1:]`. */
  function Tail<T>(s: seq<T>): seq<T> {
    if s == [] then [] else s[1..]
  }

  /** Python's `s[0:1]`. */
  function Front<T>(s: seq<T>): seq<T> {
    if s == [] then [] else s[..1]
  }

  /** Python's `zip(a, b)`. */
  function Zip<T>(a: seq<T>, b: seq<T>): (r: seq<(T, T)>)
    ensures |r| == if |a| <= |b| then |a| else |b|
    ensures forall i :: 0 <= i < |r| ==> r[i] == (a[i], b[i])
  {
    seq(if |a| <= |b| then |a| else |b|, i requires 0 <= i < |a| && i < |b| => (a[i], b[i]))
  }

  /** How many curve segments a path of `n` knots has. */
  function SegmentCount(n: nat, closed: bool): nat {
    if n == 0 then 0 else if closed then n else n - 1
  }

  /** The index after k among n knots, wrapping to 0 after the last. */
  function Successor(k: nat, n: nat): nat {
    if k + 1 < n then k + 1 else 0
  }

  /**
   * The pairs of consecutive knots the generator walks: every knot with its
   * successor, and for a closed path the last knot with the first.
   */
  function Segments(knots: seq<Knot>, closed: bool): (r: seq<(Knot, Knot)>)
    ensures |r| == SegmentCount(|knots|, closed)
    ensures forall k :: 0 <= k < |r| ==> r[k] == (knots[k], knots[Successor(k, |knots|)])
  {
    if closed then Zip(knots, Tail(knots) + Front(knots)) else Zip(knots, Tail(knots))
  }

  /** The horizontal canvas coordinate of a knot point: its second component times the width. */
  function X(p: Point, width: int): real {
    p.1 * width as real
  }

  /** The vertical canvas coordinate of a knot point: its first component times the height. */
  function Y(p: Point, height: int): real {
    p.0 * height as real
  }

  /** The six numbers of one cubic segment from `p1` to `p2`. */
  function SegmentTokens(p1: Knot, p2: Knot, width: int, height: int): seq<Token> {
    [ Number(X(p1.leaving, width)), Number(Y(p1.leaving, height)),
      Number(X(p2.preceding, width)), Number(Y(p2.preceding, height)),
      Number(X(p2.anchor, width)), Number(Y(p2.anchor, height)) ]
  }

  function CurveTokens(segments: seq<(Knot, Knot)>, width: int, height: int): (r: seq<Token>)
    ensures |r| == 6 * |segments|
  {
    if segments == [] then []
    else SegmentTokens(segments[0].0, segments[0].1, width, height)
         + CurveTokens(segments[1..], width, height)
  }

  /** `_generate_symbol(path, width, height, command)`. */
  function GenerateSymbol(path: Subpath, width: int, height: int, command: char := 'C'): seq<Token> {
    if |path.knots| == 0 then []
    else
      [ Command('M'),
        Number(X(path.knots[0].anchor, width)),
        Number(Y(path.knots[0].anchor, height)),
        Command(command) ]
      + CurveTokens(Segments(path.knots, path.closed), width, height)
      + (if path.closed then [Command('Z')] else [])
  }

  lemma MiddleSlice<T>(a: seq<T>, b: seq<T>, c: seq<T>, i: nat, j: nat)
    requires i <= j <= |b|
    ensures (a + (b + c))[|a| + i .. |a| + j] == b[i..j]
  {
    assert (a + (b + c))[|a|..] == b + c;
    assert (b + c)[i..j] == b[i..j];
  }

  /** Segment k of the curve tokens is the k-th block of six. */
  lemma {:induction false} CurveTokensAt(segments: seq<(Knot, Knot)>, width: int, height: int)
    ensures forall k :: 0 <= k < |segments| ==>
              CurveTokens(segments, width, height)[6 * k .. 6 * k + 6]
              == SegmentTokens(segments[k].0, segments[k].1, width, height)
  {
    if segments != [] {
      var head := SegmentTokens(segments[0].0, segments[0].1, width, height);
      var rest := CurveTokens(segments[1..], width, height);
      CurveTokensAt(segments[1..], width, height);
      assert CurveTokens(segments, width, height) == head + rest;
      forall k | 0 <= k < |segments|
        ensures CurveTokens(segments, width, height)[6 * k .. 6 * k + 6]
                == SegmentTokens(segments[k].0, segments[k].1, width, height)
      {
        if k == 0 {
          assert (head + rest)[0..6] == head;
        } else {
          assert (head + rest)[6 * k .. 6 * k + 6] == rest[6 * (k - 1) .. 6 * (k - 1) + 6];
          assert segments[1..][k - 1] == segments[k];
        }
      }
    }
  }

  function Header(path: Subpath, width: int, height: int, command: char): seq<Token>
    requires path.knots != []
  {
    [ Command('M'), Number(X(path.knots[0].anchor, width)),
      Number(Y(path.knots[0].anchor, height)), Command(command) ]
  }

  function Closing(closed: bool): seq<Token> {
    if closed then [Command('Z')] else []
  }

  lemma SymbolParts(path: Subpath, width: int, height: int, command: char)
    requires path.knots != []
    ensures GenerateSymbol(path, width, height, command)
            == Header(path, width, height, command)
               + (CurveTokens(Segments(path.knots, path.closed), width, height) + Closing(path.closed))
  {
    var tokens := GenerateSymbol(path, width, height, command);
    var head := Header(path, width, height, command);
    assert tokens[0] == head[0] && tokens[1] == head[1] && tokens[2] == head[2] && tokens[3] == head[3];
  }

  /** Segment k of a non-empty path's tokens starts at 4 + 6k and runs from knot k to its successor. */
  lemma SymbolSegment(path: Subpath, width: int, height: int, command: char, k: nat)
    requires k < SegmentCount(|path.knots|, path.closed)
    ensures GenerateSymbol(path, width, height, command)[4 + 6 * k .. 10 + 6 * k]
            == SegmentTokens(path.knots[k], path.knots[Successor(k, |path.knots|)], width, height)
  {
    var segments := Segments(path.knots, path.closed);
    var curve := CurveTokens(segments, width, height);
    SymbolParts(path, width, height, command);
    CurveTokensAt(segments, width, height);
    var lo := 6 * k;
    MiddleSlice(Header(path, width, height, command), curve, Closing(path.closed), lo, lo + 6);
    assert 10 + 6 * k == 4 + lo + 6;
  }

  /**
   * The token list of a sub-path: nothing for an empty path; otherwise `M x0 y0
   * <command>`, six numbers per segment (leaving handle of the first knot,
   * preceding handle and anchor of the second, each as horizontal*width then
   * vertical*height), and a final `Z` exactly when the path is closed.
   */
  lemma GenerateSymbolShape(path: Subpath, width: int, height: int, command: char)
    ensures path.knots == [] ==> GenerateSymbol(path, width, height, command) == []
    ensures path.knots != [] ==>
              |GenerateSymbol(path, width, height, command)|
              == 4 + 6 * SegmentCount(|path.knots|, path.closed) + (if path.closed then 1 else 0)
    ensures path.knots != [] ==>
              GenerateSymbol(path, width, height, command)[..4]
              == [ Command('M'), Number(X(path.knots[0].anchor, width)),
                   Number(Y(path.knots[0].anchor, height)), Command(command) ]
    ensures forall k :: 0 <= k < SegmentCount(|path.knots|, path.closed) ==>
              GenerateSymbol(path, width, height, command)[4 + 6 * k .. 10 + 6 * k]
              == [ Number(X(path.knots[k].leaving, width)),
                   Number(Y(path.knots[k].leaving, height)),
                   Number(X(path.knots[Successor(k, |path.knots|)].preceding, width)),
                   Number(Y(path.knots[Successor(k, |path.knots|)].preceding, height)),
                   Number(X(path.knots[Successor(k, |path.knots|)].anchor, width)),
                   Number(Y(path.knots[Successor(k, |path.knots|)].anchor, height)) ]
    ensures path.knots != [] ==>
              GenerateSymbol(path, width, height, command)[4 + 6 * SegmentCount(|path.knots|, path.closed) ..]
              == (if path.closed then [Command('Z')] else [])
  {
    if path.knots != [] {
      var head := Header(path, width, height, command);
      var curve := CurveTokens(Segments(path.knots, path.closed), width, height);
      var tokens := GenerateSymbol(path, width, height, command);
      SymbolParts(path, width, height, command);
      assert tokens[..4] == head;
      assert tokens[4 + |curve| ..] == Closing(path.closed);
      forall k | 0 <= k < SegmentCount(|path.knots|, path.closed)
        ensures tokens[4 + 6 * k .. 10 + 6 * k]
                == SegmentTokens(path.knots[k], path.knots[Successor(k, |path.knots|)], width, height)
      {
        SymbolSegment(path, width, height, command, k);
      }
    }
  }

  /** Coverage of pixel (x, y) by the filled symbol, as the path-fill backend draws it. */
  type Rasterizer = (seq<Token>, int, int) -> Level

  /** `_draw_subpath`: a width by height plane holding the backend's fill of the symbol. */
  function DrawSubpath(path: Subpath, width: nat, height: nat, fill: Rasterizer): (p: Plane)
    ensures IsPlane(p, width, height)
    ensures forall y, x :: 0 <= y < height && 0 <= x < width ==>
              p[y][x] == fill(GenerateSymbol(path, width, height), x, y)
  {
    var symbol := GenerateSymbol(path, width, height);
    seq(height, y => seq(width, x => fill(symbol, x, y)))
  }

  // ---------------------------------------------------------------------------
  // Per-pixel reference for the compositor
  // ---------------------------------------------------------------------------

  /**
   * One sub-path's effect on one accumulator pixel: code 0 difference, 1
   * lighter, 2 subtract and 3 darker, the last two on the inverted
   * accumulator when this is the first sub-path; any other code changes nothing.
   */
  function ApplyOperation(acc: Level, operation: int, cover: Level, first: bool): Level {
    if operation == 0 then ChopLevel(Difference, acc, cover)
    else if operation == 1 then ChopLevel(Lighter, acc, cover)
    else if operation == 2 then ChopLevel(Subtract, if first then InvertLevel(acc) else acc, cover)
    else if operation == 3 then ChopLevel(Darker, if first then InvertLevel(acc) else acc, cover)
    else acc
  }

  /** The fold of a pixel's sub-path covers into the accumulator; `first` holds before the first only. */
  function Combine(acc: Level, operations: seq<int>, covers: seq<Level>, first: bool): Level
    requires |operations| == |covers|
    decreases |operations|
  {
    if operations == [] then acc
    else Combine(ApplyOperation(acc, operations[0], covers[0], first),
                 operations[1..], covers[1..], false)
  }

  /** Extending the fold by one sub-path applies it last, with `first` only if it is the only one. */
  lemma {:induction false} CombineSnoc(acc: Level, operations: seq<int>, covers: seq<Level>,
                                       first: bool, operation: int, cover: Level)
    requires |operations| == |covers|
    ensures Combine(acc, operations + [operation], covers + [cover], first)
            == ApplyOperation(Combine(acc, operations, covers, first), operation, cover,
                              first && operations == [])
    decreases |operations|
  {
    if operations != [] {
      var next := ApplyOperation(acc, operations[0], covers[0], first);
      assert (operations + [operation])[1..] == operations[1..] + [operation];
      assert (covers + [cover])[1..] == covers[1..] + [cover];
      CombineSnoc(next, operations[1..], covers[1..], false, operation, cover);
    }
  }

  /** Sub-paths whose code is outside 0..3 leave the accumulator as it is. */
  lemma {:induction false} CombineIgnoresUnknown(acc: Level, operations: seq<int>,
                                                 covers: seq<Level>, first: bool)
    requires |operations| == |covers|
    requires forall k :: 0 <= k < |operations| ==> !(0 <= operations[k] <= 3)
    ensures Combine(acc, operations, covers, first) == acc
    decreases |operations|
  {
    if operations != [] {
      CombineIgnoresUnknown(acc, operations[1..], covers[1..], false);
    }
  }

  // ---------------------------------------------------------------------------
  // The same fold in set algebra, for purely binary planes
  // ---------------------------------------------------------------------------

  type Region = set<(int, int)>

  /** One boolean path operation on regions; `canvas` is the complement's universe. */
  function RegionOperation(acc: Region, operation: int, area: Region, first: bool, canvas: Region): Region {
    if operation == 0 then (acc - area) + (area - acc)
    else if operation == 1 then acc + area
    else if operation == 2 then (if first then canvas - acc else acc) - area
    else if operation == 3 then (if first then canvas - acc else acc) * area
    else acc
  }

  function RegionFold(acc: Region, operations: seq<int>, areas: seq<Region>, first: bool, canvas: Region): Region
    requires |operations| == |areas|
    decreases |operations|
  {
    if operations == [] then acc
    else RegionFold(RegionOperation(acc, operations[0], areas[0], first, canvas),
                    operations[1..], areas[1..], false, canvas)
  }

  function LevelOf(b: bool): Level {
    if b then 255 else 0
  }

  /**
   * For a point of the canvas whose accumulator and covers are all 0 or 255,
   * the pixel fold is 255 exactly when the point is in the region fold.
   */
  lemma {:induction false} CombineIsRegionFold(pt: (int, int), acc: Region, operations: seq<int>,
                                               areas: seq<Region>, first: bool, canvas: Region)
    requires |operations| == |areas|
    requires pt in canvas
    ensures Combine(LevelOf(pt in acc), operations, seq(|areas|, k requires 0 <= k < |areas| => LevelOf(pt in areas[k])), first)
            == LevelOf(pt in RegionFold(acc, operations, areas, first, canvas))
    decreases |operations|
  {
    var covers := seq(|areas|, k requires 0 <= k < |areas| => LevelOf(pt in areas[k]));
    if operations != [] {
      var next := RegionOperation(acc, operations[0], areas[0], first, canvas);
      assert ApplyOperation(LevelOf(pt in acc), operations[0], covers[0], first) == LevelOf(pt in next);
      CombineIsRegionFold(pt, next, operations[1..], areas[1..], false, canvas);
      assert covers[1..] == seq(|areas[1..]|, k requires 0 <= k < |areas[1..]| => LevelOf(pt in areas[1..][k]));
    }
  }

  // ---------------------------------------------------------------------------
  // The compositor
  // ---------------------------------------------------------------------------

  /** The plane each sub-path is drawn into, in order. */
  function Planes(mask: VectorMask, width: nat, height: nat, fill: Rasterizer): (r: seq<Plane>)
    ensures |r| == |mask.paths|
    ensures forall k :: 0 <= k < |r| ==> r[k] == DrawSubpath(mask.paths[k], width, height, fill)
  {
    seq(|mask.paths|, k requires 0 <= k < |mask.paths| => DrawSubpath(mask.paths[k], width, height, fill))
  }

  function Operations(mask: VectorMask): (r: seq<int>)
    ensures |r| == |mask.paths|
    ensures forall k :: 0 <= k < |r| ==> r[k] == mask.paths[k].operation
  {
    seq(|mask.paths|, k requires 0 <= k < |mask.paths| => mask.paths[k].operation)
  }

  /** The values the planes hold at one pixel, in sub-path order. */
  function Column(planes: seq<Plane>, width: nat, height: nat, y: int, x: int): (r: seq<Level>)
    requires forall k :: 0 <= k < |planes| ==> IsPlane(planes[k], width, height)
    requires 0 <= y < height && 0 <= x < width
    ensures |r| == |planes|
    ensures forall k :: 0 <= k < |r| ==> assert IsPlane(planes[k], width, height); r[k] == planes[k][y][x]
  {
    seq(|planes|, k requires 0 <= k < |planes| =>
      assert IsPlane(planes[k], width, height); planes[k][y][x])
  }

  /** The uncropped mask at canvas pixel (x, y): the fold of its column, starting from the fill rule. */
  function MaskPixel(mask: VectorMask, width: nat, height: nat, fill: Rasterizer, y: int, x: int): Level
    requires 0 <= y < height && 0 <= x < width
  {
    Combine(255 * mask.initialFillRule, Operations(mask),
            Column(Planes(mask, width, height, fill), width, height, y, x), true)
  }

  /** `acc` holds, at every canvas pixel, the fold of the first `i` sub-paths. */
  ghost predicate FoldedUpTo(acc: Plane, start: Level, operations: seq<int>, planes: seq<Plane>,
                             i: nat, width: nat, height: nat)
    requires i <= |operations| == |planes|
    requires forall k :: 0 <= k < |planes| ==> IsPlane(planes[k], width, height)
  {
    && IsPlane(acc, width, height)
    && forall y, x :: 0 <= y < height && 0 <= x < width ==>
         acc[y][x] == Combine(start, operations[..i], Column(planes[..i], width, height, y, x), true)
  }

  /** `next` is `acc` with one sub-path's plane folded in at every pixel. */
  ghost predicate Applied(acc: Plane, next: Plane, operation: int, plane: Plane, first: bool,
                          width: nat, height: nat)
  {
    && IsPlane(acc, width, height) && IsPlane(plane, width, height) && IsPlane(next, width, height)
    && forall y, x :: 0 <= y < height && 0 <= x < width ==>
         next[y][x] == ApplyOperation(acc[y][x], operation, plane[y][x], first)
  }

  /** Folding plane i into a plane folded up to i gives one folded up to i + 1. */
  lemma FoldStep(acc: Plane, next: Plane, start: Level, operations: seq<int>, planes: seq<Plane>,
                 i: nat, width: nat, height: nat)
    requires i < |operations| == |planes|
    requires forall k :: 0 <= k < |planes| ==> IsPlane(planes[k], width, height)
    requires FoldedUpTo(acc, start, operations, planes, i, width, height)
    requires Applied(acc, next, operations[i], planes[i], i == 0, width, height)
    ensures FoldedUpTo(next, start, operations, planes, i + 1, width, height)
  {
    forall y, x | 0 <= y < height && 0 <= x < width
      ensures next[y][x] == Combine(start, operations[..i + 1],
                                    Column(planes[..i + 1], width, height, y, x), true)
    {
      var column := Column(planes[..i], width, height, y, x);
      assert operations[..i + 1] == operations[..i] + [operations[i]];
      assert Column(planes[..i + 1], width, height, y, x) == column + [planes[i][y][x]];
      CombineSnoc(start, operations[..i], column, true, operations[i], planes[i][y][x]);
    }
  }

  /** `acc` holds, at every canvas pixel, the fold of the first `i` sub-paths of `mask`. */
  ghost predicate MaskFoldedUpTo(acc: Plane, mask: VectorMask, width: nat, height: nat, fill: Rasterizer, i: nat)
    requires i <= |mask.paths|
  {
    FoldedUpTo(acc, 255 * mask.initialFillRule, Operations(mask), Planes(mask, width, height, fill), i, width, height)
  }

  /** Before the loop, the uniform start plane is the empty fold. */
  lemma FoldStart(mask: VectorMask, width: nat, height: nat, fill: Rasterizer)
    ensures MaskFoldedUpTo(Uniform(width, height, 255 * mask.initialFillRule), mask, width, height, fill, 0)
  {
  }

  /** One turn of the compositor loop extends the fold by sub-path i. */
  lemma MaskFoldStep(acc: Plane, next: Plane, mask: VectorMask, width: nat, height: nat, fill: Rasterizer, i: nat)
    requires i < |mask.paths|
    requires MaskFoldedUpTo(acc, mask, width, height, fill, i)
    requires Applied(acc, next, mask.paths[i].operation, DrawSubpath(mask.paths[i], width, height, fill),
                     i == 0, width, height)
    ensures MaskFoldedUpTo(next, mask, width, height, fill, i + 1)
  {
    FoldStep(acc, next, 255 * mask.initialFillRule, Operations(mask), Planes(mask, width, height, fill),
             i, width, height);
  }

  /** The body of the compositor loop: fold one sub-path's plane into the accumulator. */
  method CombineSubpath(acc: Plane, operation: int, plane: Plane, first: bool, width: nat, height: nat)
    returns (next: Plane)
    requires IsPlane(acc, width, height) && IsPlane(plane, width, height)
    ensures Applied(acc, next, operation, plane, first, width, height)
  {
    next := acc;
    if operation == 0 {
      next := Chops(Difference, next, plane, width, height);
    } else if operation == 1 {
      next := Chops(Lighter, next, plane, width, height);
    } else if operation == 2 {
      if first {
        next := Invert(next, width, height);
      }
      next := Chops(Subtract, next, plane, width, height);
    } else if operation == 3 {
      if first {
        next := Invert(next, width, height);
      }
      next := Chops(Darker, next, plane, width, height);
    }
  }

  /**
   * `draw_vector_mask`: the canvas-sized accumulator starts uniform at
   * `255 * initial_fill_rule`, each sub-path's plane is folded in with its
   * operator, and the result is cropped to the layer's box.
   */
  method DrawVectorMask(width: nat, height: nat, mask: VectorMask, bbox: Box, fill: Rasterizer)
    returns (r: Plane)
    ensures IsPlane(r, bbox.Width(), bbox.Height())
    ensures forall y, x :: 0 <= y < bbox.Height() && 0 <= x < bbox.Width() ==>
              r[y][x] == (if 0 <= bbox.top + y < height && 0 <= bbox.left + x < width
                          then MaskPixel(mask, width, height, fill, bbox.top + y, bbox.left + x)
                          else 0)
    ensures mask.paths == [] ==>
              r == Crop(Uniform(width, height, 255 * mask.initialFillRule), width, height, bbox)
  {
    var acc := Uniform(width, height, 255 * mask.initialFillRule);
    var first := true;
    FoldStart(mask, width, height, fill);
    for i := 0 to |mask.paths|
      invariant first <==> i == 0
      invariant MaskFoldedUpTo(acc, mask, width, height, fill, i)
      invariant mask.paths == [] ==> acc == Uniform(width, height, 255 * mask.initialFillRule)
    {
      var subpath := mask.paths[i];
      var plane := DrawSubpath(subpath, width, height, fill);
      ghost var before := acc;
      acc := CombineSubpath(acc, subpath.operation, plane, first, width, height);
      MaskFoldStep(before, acc, mask, width, height, fill, i);
      first := false;
    }
    r := Crop(acc, width, height, bbox);
    CroppedFold(acc, r, mask, width, height, bbox, fill);
  }

  /** Cropping the fully folded accumulator gives the mask pixels inside the canvas and 0 outside. */
  lemma CroppedFold(acc: Plane, r: Plane, mask: VectorMask, width: nat, height: nat, bbox: Box, fill: Rasterizer)
    requires MaskFoldedUpTo(acc, mask, width, height, fill, |mask.paths|)
    requires r == Crop(acc, width, height, bbox)
    ensures IsPlane(r, bbox.Width(), bbox.Height())
    ensures forall y, x :: 0 <= y < bbox.Height() && 0 <= x < bbox.Width() ==>
              r[y][x] == (if 0 <= bbox.top + y < height && 0 <= bbox.left + x < width
                          then MaskPixel(mask, width, height, fill, bbox.top + y, bbox.left + x)
                          else 0)
  {
    var operations := Operations(mask);
    var planes := Planes(mask, width, height, fill);
    assert operations[..|mask.paths|] == operations;
    assert planes[..|mask.paths|] == planes;
  }

  /** The canvas pixels a binary plane covers. */
  function Covered(p: Plane, width: nat, height: nat): Region
    requires IsPlane(p, width, height)
  {
    set y, x | 0 <= y < height && 0 <= x < width && p[y][x] == 255 :: (y, x)
  }

  function CanvasRegion(width: nat, height: nat): Region {
    set y, x | 0 <= y < height && 0 <= x < width :: (y, x)
  }

  ghost predicate Binary(p: Plane, width: nat, height: nat)
    requires IsPlane(p, width, height)
  {
    forall y, x :: 0 <= y < height && 0 <= x < width ==> p[y][x] == 0 || p[y][x] == 255
  }

  /**
   * When every sub-path plane is purely 0/255, the mask is the boolean path
   * algebra on regions: exclude is symmetric difference, union is union,
   * subtract and intersect act on the complement of the start region when they
   * come first, and unknown codes do nothing.
   */
  lemma BinaryMaskIsRegionAlgebra(mask: VectorMask, width: nat, height: nat, fill: Rasterizer, y: int, x: int)
    requires 0 <= y < height && 0 <= x < width
    requires forall k :: 0 <= k < |mask.paths| ==>
               Binary(DrawSubpath(mask.paths[k], width, height, fill), width, height)
    ensures MaskPixel(mask, width, height, fill, y, x)
            == LevelOf((y, x) in RegionFold(
                 if mask.initialFillRule == 1 then CanvasRegion(width, height) else {},
                 Operations(mask),
                 seq(|mask.paths|, k requires 0 <= k < |mask.paths| =>
                   Covered(DrawSubpath(mask.paths[k], width, height, fill), width, height)),
                 true, CanvasRegion(width, height)))
  {
    var canvas := CanvasRegion(width, height);
    var start: Region := if mask.initialFillRule == 1 then canvas else {};
    var planes := Planes(mask, width, height, fill);
    var areas := seq(|mask.paths|, k requires 0 <= k < |mask.paths| =>
                   Covered(DrawSubpath(mask.paths[k], width, height, fill), width, height));
    assert (y, x) in canvas;
    var column := Column(planes, width, height, y, x);
    var covers := seq(|areas|, k requires 0 <= k < |areas| => LevelOf((y, x) in areas[k]));
    assert column == covers by {
      forall k | 0 <= k < |areas| ensures column[k] == covers[k] {
        assert column[k] == planes[k][y][x];
        assert ((y, x) in areas[k]) <==> planes[k][y][x] == 255;
      }
    }
    assert 255 * mask.initialFillRule == LevelOf((y, x) in start);
    CombineIsRegionFold((y, x), start, Operations(mask), areas, true, canvas);
  }
}
