/**
 * The fill helpers of the vector composer: `_apply_opacity`,
 * `draw_solid_color_fill` and `draw_pattern_fill`, over a small model of a
 * multi-band 8-bit image whose bands the library updates in place.
 *
 * Modes are 'L', 'LA', 'RGB' and 'RGBA'; a mode ending in 'A' keeps its alpha
 * as the last band.
 */
module Fill {
  import opened Wrappers
  import opened Strings
  import opened Imaging
  import opened Arith

  // ---------------------------------------------------------------------------
  // Numbers as Python computes them
  // ---------------------------------------------------------------------------

  /** Python's `int(r)` on a float: truncation toward zero. */
  function Trunc(r: real): (t: int)
    ensures r >= 0.0 ==> t as real <= r < t as real + 1.0
    ensures r < 0.0 ==> t as real - 1.0 < r <= t as real
  {
    if r >= 0.0 then r.Floor else -((-r).Floor)
  }

  /** Integer quotient truncated toward zero, as `int(a / float(b))` gives for small a. */
  function TruncDiv(a: int, b: nat): int
    requires b > 0
  {
    if a >= 0 then a / b else -((-a) / b)
  }

  // ---------------------------------------------------------------------------
  // Images as values
  // ---------------------------------------------------------------------------

  predicate KnownMode(mode: string) {
    mode == "L" || mode == "LA" || mode == "RGB" || mode == "RGBA"
  }

  function BandCount(mode: string): nat {
    if mode == "L" then 1 else if mode == "LA" then 2 else if mode == "RGB" then 3 else 4
  }

  /** The mode `putalpha` converts to: the same colour bands plus alpha. */
  function WithAlpha(mode: string): string {
    if mode == "L" then "LA" else if mode == "RGB" then "RGBA" else mode
  }

  ghost predicate AllPlanes(bands: seq<Plane>, width: nat, height: nat) {
    forall b :: 0 <= b < |bands| ==> IsPlane(bands[b], width, height)
  }

  /** The contents of an image: its mode, size and one plane per band. */
  datatype Picture = Picture(mode: string, width: nat, height: nat, bands: seq<Plane>)

  ghost predicate WellFormed(p: Picture) {
    KnownMode(p.mode) && |p.bands| == BandCount(p.mode) && AllPlanes(p.bands, p.width, p.height)
  }

  /** `image.putalpha(alpha)`: the alpha band is replaced, or added after the colour bands. */
  function PutAlphaSpec(p: Picture, alpha: Plane): (r: Picture)
    requires WellFormed(p) && IsPlane(alpha, p.width, p.height)
    ensures WellFormed(r)
    ensures r.mode == WithAlpha(p.mode) && r.width == p.width && r.height == p.height
    ensures EndsWith(r.mode, 'A') && r.bands[|r.bands| - 1] == alpha
    ensures forall b :: 0 <= b < |r.bands| - 1 ==> r.bands[b] == p.bands[b]
  {
    Picture(WithAlpha(p.mode), p.width, p.height,
            (if EndsWith(p.mode, 'A') then p.bands[..|p.bands| - 1] else p.bands) + [alpha])
  }

  /** `plane.point(f)` on an 'L' plane: f on every pixel, stored clamped. */
  function Point(p: Plane, f: Level -> int, width: nat, height: nat): (r: Plane)
    requires IsPlane(p, width, height)
    ensures IsPlane(r, width, height)
    ensures forall y, x :: 0 <= y < height && 0 <= x < width ==> r[y][x] == Clamp(f(p[y][x]))
  {
    seq(height, y requires 0 <= y < height =>
      seq(width, x requires 0 <= x < width => Clamp(f(p[y][x]))))
  }

  // ---------------------------------------------------------------------------
  // _apply_opacity
  // ---------------------------------------------------------------------------

  /** The opacity percentage: `int(setting.get(Opacity, 100))`. */
  function OpacityOf(setting: Option<real>): int {
    Trunc(setting.GetOr(100.0))
  }

  /** One alpha value scaled by the opacity: `int(x * opacity / 100.)`, stored clamped. */
  function ScaleAlpha(x: Level, opacity: int): Level {
    Clamp(TruncDiv(x * opacity, 100))
  }

  /** The uniform alpha given to an image without alpha, as written: `int(opacity * 255)`. */
  function UniformAlphaAsWritten(opacity: int): Level {
    Clamp(opacity * 255)
  }

  /** The uniform alpha intended for an image without alpha: `opacity * 2.55` rounded, halves up. */
  function UniformAlpha(opacity: int): Level {
    Clamp((255 * opacity + 50) / 100)
  }

  /** The alpha band of an image with alpha, scaled by the opacity percentage. */
  function ScaledAlphaBand(p: Picture, opacity: int): (a: Plane)
    requires WellFormed(p) && EndsWith(p.mode, 'A')
    ensures IsPlane(a, p.width, p.height)
  {
    Point(p.bands[|p.bands| - 1], x => TruncDiv(x * opacity, 100), p.width, p.height)
  }

  /** What `_apply_opacity` leaves in the image, as written. */
  function OpacityAppliedAsWritten(p: Picture, setting: Option<real>): (r: Picture)
    requires WellFormed(p)
    ensures WellFormed(r)
  {
    var opacity := OpacityOf(setting);
    if opacity == 100 then p
    else if EndsWith(p.mode, 'A') then PutAlphaSpec(p, ScaledAlphaBand(p, opacity))
    else PutAlphaSpec(p, Uniform(p.width, p.height, UniformAlphaAsWritten(opacity)))
  }

  /** The same with the corrected uniform alpha for images without alpha. */
  function OpacityApplied(p: Picture, setting: Option<real>): (r: Picture)
    requires WellFormed(p)
    ensures WellFormed(r)
  {
    var opacity := OpacityOf(setting);
    if opacity == 100 then p
    else if EndsWith(p.mode, 'A') then PutAlphaSpec(p, ScaledAlphaBand(p, opacity))
    else PutAlphaSpec(p, Uniform(p.width, p.height, UniformAlpha(opacity)))
  }

  /** Scaling by 100 percent keeps the value. */
  lemma ScaleAlphaFull(x: Level)
    ensures ScaleAlpha(x, 100) == x
  {
    assert x * 100 / 100 == x;
  }

  /** For opacities 0..100 the scaled alpha lies between 0 and the original, and grows with both. */
  lemma ScaleAlphaBounds(x: Level, x': Level, opacity: int, opacity': int)
    requires 0 <= opacity <= opacity' <= 100 && x <= x'
    ensures ScaleAlpha(x, opacity) <= x
    ensures ScaleAlpha(x, opacity) <= ScaleAlpha(x', opacity')
    ensures opacity == 0 ==> ScaleAlpha(x, opacity) == 0
  {
    MulMonotone(x, opacity, 100);
    DivAtMost(x * opacity, 100, x);
    MulMonotone(x, opacity, opacity');
    MulMonotone(opacity', x, x');
    DivMonotone(x * opacity, x' * opacity', 100);
  }

  /** A negative opacity clears the alpha. */
  lemma ScaleAlphaNegative(x: Level, opacity: int)
    requires opacity < 0
    ensures ScaleAlpha(x, opacity) == 0
  {
    MulMonotone(x, opacity, 0);
  }

  /** As written, any positive opacity gives a fully opaque uniform alpha; 50 percent shows it. */
  lemma UniformAlphaAsWrittenIgnoresOpacity(opacity: int)
    requires opacity >= 1
    ensures UniformAlphaAsWritten(opacity) == 255
    ensures UniformAlphaAsWritten(50) == 255 && UniformAlpha(50) == 128
  {
  }

  /**
   * Corrected: for opacities 0..100 the uniform alpha is the level nearest to
   * `opacity * 2.55`, runs from 0 to 255, and is at most one above what a fully
   * opaque pixel gets from scaling its alpha.
   */
  lemma UniformAlphaRounds(opacity: int, opacity': int)
    requires 0 <= opacity <= opacity' <= 100
    ensures -50 < 100 * UniformAlpha(opacity) - 255 * opacity <= 50
    ensures UniformAlpha(opacity) <= UniformAlpha(opacity')
    ensures ScaleAlpha(255, opacity) <= UniformAlpha(opacity) <= ScaleAlpha(255, opacity) + 1
    ensures UniformAlpha(0) == 0 && UniformAlpha(50) == 128 && UniformAlpha(100) == 255
  {
    var a := 255 * opacity;
    var q := (a + 50) / 100;
    var t := a / 100;
    assert 100 * q <= a + 50 < 100 * q + 100;
    assert 100 * t <= a < 100 * t + 100;
    assert q <= 255;
    assert UniformAlpha(opacity) == q;
    assert ScaleAlpha(255, opacity) == t;
    DivMonotone(a + 50, 255 * opacity' + 50, 100);
  }

  /** A picture with an opaque alpha band added after its colour bands. */
  function Opaque(p: Picture): (r: Picture)
    requires WellFormed(p) && !EndsWith(p.mode, 'A')
    ensures WellFormed(r) && EndsWith(r.mode, 'A')
  {
    PutAlphaSpec(p, Uniform(p.width, p.height, 255))
  }

  /**
   * Corrected: when the opacity changes anything, an image without alpha gets
   * the colour bands and mode of the same image made fully opaque first, and
   * an alpha that is the rounded `opacity * 2.55` everywhere, never more than
   * one level above the truncated alpha the opaque image would get.
   */
  lemma OpacityTreatsNoAlphaAsOpaque(p: Picture, setting: Option<real>, y: int, x: int)
    requires WellFormed(p) && !EndsWith(p.mode, 'A') && OpacityOf(setting) != 100
    requires 0 <= y < p.height && 0 <= x < p.width
    ensures var r := OpacityApplied(p, setting);
            var q := OpacityApplied(Opaque(p), setting);
            && r.mode == q.mode == WithAlpha(p.mode) && |r.bands| == |q.bands| == |p.bands| + 1
            && (forall b :: 0 <= b < |p.bands| ==> r.bands[b] == q.bands[b] == p.bands[b])
            && r.bands[|p.bands|][y][x] == UniformAlpha(OpacityOf(setting))
            && q.bands[|p.bands|][y][x] <= r.bands[|p.bands|][y][x] <= q.bands[|p.bands|][y][x] as int + 1
  {
    var opacity := OpacityOf(setting);
    if opacity < 0 {
      ScaleAlphaNegative(255, opacity);
      MulMonotone(255, opacity, -1);
    } else if opacity <= 100 {
      UniformAlphaRounds(opacity, opacity);
    } else {
      MulMonotone(255, 101, opacity);
    }
  }

  /** As written, the two differ: at 50 percent the image without alpha stays opaque. */
  lemma OpacityAsWrittenDiffers(p: Picture)
    requires WellFormed(p) && !EndsWith(p.mode, 'A') && p.width > 0 && p.height > 0
    ensures OpacityAppliedAsWritten(p, Some(50.0)).bands[BandCount(p.mode)][0][0] == 255
    ensures OpacityApplied(p, Some(50.0)).bands[BandCount(p.mode)][0][0] == 128
  {
  }

  /** `_apply_opacity` changes nothing at 100 percent; otherwise it keeps the colour
   *  bands and scales the alpha band pixel by pixel, never raising it for opacities
   *  of at most 100. */
  lemma OpacityAppliedAlpha(p: Picture, setting: Option<real>, y: int, x: int)
    requires WellFormed(p) && EndsWith(p.mode, 'A')
    requires 0 <= y < p.height && 0 <= x < p.width
    ensures OpacityOf(setting) == 100 ==> OpacityAppliedAsWritten(p, setting) == p
    ensures var r := OpacityAppliedAsWritten(p, setting);
            && r.mode == p.mode && |r.bands| == |p.bands|
            && (forall b :: 0 <= b < |p.bands| - 1 ==> r.bands[b] == p.bands[b])
            && r.bands[|r.bands| - 1][y][x] == ScaleAlpha(p.bands[|p.bands| - 1][y][x], OpacityOf(setting))
            && (OpacityOf(setting) <= 100 ==> r.bands[|r.bands| - 1][y][x] <= p.bands[|p.bands| - 1][y][x])
  {
    var opacity := OpacityOf(setting);
    var a := p.bands[|p.bands| - 1][y][x];
    if opacity == 100 {
      ScaleAlphaFull(a);
    } else if opacity < 0 {
      ScaleAlphaNegative(a, opacity);
    } else if opacity < 100 {
      ScaleAlphaBounds(a, a, opacity, opacity);
    }
  }

  // ---------------------------------------------------------------------------
  // Tiling
  // ---------------------------------------------------------------------------

  /** `canvas.paste(panel, (left, top))` on one band: the panel's pixels replace the
   *  canvas pixels they land on. */
  function PastePlane(dst: Plane, width: nat, height: nat, src: Plane, pw: nat, ph: nat,
                      left: int, top: int): (r: Plane)
    requires IsPlane(dst, width, height) && IsPlane(src, pw, ph)
    ensures IsPlane(r, width, height)
    ensures forall y, x :: 0 <= y < height && 0 <= x < width ==>
              r[y][x] == if top <= y < top + ph && left <= x < left + pw then src[y - top][x - left] else dst[y][x]
  {
    seq(height, y requires 0 <= y < height =>
      seq(width, x requires 0 <= x < width =>
        if top <= y < top + ph && left <= x < left + pw then src[y - top][x - left] else dst[y][x]))
  }

  /** The canvas pixel (x, y) of a plane tiled with `src` from the origin. */
  function TileAt(src: Plane, pw: nat, ph: nat, y: nat, x: nat): Level
    requires IsPlane(src, pw, ph) && pw > 0 && ph > 0
  {
    assert IsPlane(src, pw, ph) && 0 <= y % ph < ph;
    src[y % ph][x % pw]
  }

  /** The canvas of the given size covered by copies of the panel. */
  function Tiled(panel: Picture, width: nat, height: nat): (r: Picture)
    requires WellFormed(panel) && panel.height > 0 && (panel.width > 0 || height == 0)
    ensures WellFormed(r)
    ensures r.mode == panel.mode && r.width == width && r.height == height
    ensures forall b, y, x :: 0 <= b < |r.bands| && 0 <= y < height && 0 <= x < width ==>
              r.bands[b][y][x] == TileAt(panel.bands[b], panel.width, panel.height, y, x)
  {
    Picture(panel.mode, width, height,
      seq(|panel.bands|, b requires 0 <= b < |panel.bands| =>
        seq(height, y requires 0 <= y < height =>
          seq(width, x requires 0 <= x < width => TileAt(panel.bands[b], panel.width, panel.height, y, x)))))
  }

  /** The tiled canvas repeats with the panel's period and starts with the panel itself. */
  lemma TiledPeriodic(panel: Picture, width: nat, height: nat, b: int, y: nat, x: nat)
    requires WellFormed(panel) && panel.width > 0 && panel.height > 0
    requires 0 <= b < |panel.bands| && y < height && x < width
    ensures var r := Tiled(panel, width, height);
            && (y < panel.height && x < panel.width ==> r.bands[b][y][x] == panel.bands[b][y][x])
            && (y + panel.height < height ==> r.bands[b][y + panel.height][x] == r.bands[b][y][x])
            && (x + panel.width < width ==> r.bands[b][y][x + panel.width] == r.bands[b][y][x])
  {
    ModPeriod(y, panel.height);
    ModPeriod(x, panel.width);
    if y < panel.height && x < panel.width {
      ModUnique(y, panel.height, 0, y);
      ModUnique(x, panel.width, 0, x);
    }
  }

  /** Adding the period does not change the remainder. */
  lemma ModPeriod(v: nat, d: nat)
    requires d > 0
    ensures (v + d) % d == v % d
  {
    ModUnique(v + d, d, v / d + 1, v % d);
  }

  /**
   * The canvas after the pastes so far: rows above `top` are tiled, so is the
   * strip of the current row of tiles left of `left`, and every other pixel
   * is still 0.
   */
  ghost predicate TiledSoFar(dst: Plane, src: Plane, pw: nat, ph: nat, width: nat, height: nat,
                             top: int, left: int)
    requires pw > 0 && ph > 0 && IsPlane(src, pw, ph)
  {
    && IsPlane(dst, width, height)
    && forall y, x :: 0 <= y < height && 0 <= x < width ==>
         dst[y][x] == if y < top || (y < top + ph && x < left) then TileAt(src, pw, ph, y, x) else 0
  }

  /** One paste at (left, top), both multiples of the panel size, extends the tiled strip. */
  lemma PasteStep(dst: Plane, src: Plane, pw: nat, ph: nat, width: nat, height: nat,
                  ti: nat, li: nat)
    requires pw > 0 && ph > 0 && IsPlane(src, pw, ph)
    requires TiledSoFar(dst, src, pw, ph, width, height, ti * ph, li * pw)
    ensures TiledSoFar(PastePlane(dst, width, height, src, pw, ph, li * pw, ti * ph),
                       src, pw, ph, width, height, ti * ph, li * pw + pw)
  {
    var r := PastePlane(dst, width, height, src, pw, ph, li * pw, ti * ph);
    forall y, x | 0 <= y < height && 0 <= x < width
      ensures r[y][x] == if y < ti * ph || (y < ti * ph + ph && x < li * pw + pw)
                         then TileAt(src, pw, ph, y, x) else 0
    {
      if ti * ph <= y < ti * ph + ph && li * pw <= x < li * pw + pw {
        ModUnique(y, ph, ti, y - ti * ph);
        ModUnique(x, pw, li, x - li * pw);
      }
    }
  }

  // ---------------------------------------------------------------------------
  // The image object
  // ---------------------------------------------------------------------------

  class Image {
    var mode: string
    var width: nat
    var height: nat
    var bands: seq<Plane>

    ghost predicate Valid()
      reads this
    {
      WellFormed(Picture(mode, width, height, bands))
    }

    function Snapshot(): Picture
      reads this
    {
      Picture(mode, width, height, bands)
    }

    /** `Image.new(mode, size)`: every band 0. */
    constructor New(mode: string, width: nat, height: nat)
      requires KnownMode(mode)
      ensures Valid() && this.mode == mode && this.width == width && this.height == height
      ensures forall b :: 0 <= b < |bands| ==> bands[b] == Uniform(width, height, 0)
    {
      this.mode := mode;
      this.width := width;
      this.height := height;
      this.bands := seq(BandCount(mode), b => Uniform(width, height, 0));
    }

    /** An image holding the given contents (the result of converting a stored pattern). */
    constructor Of(p: Picture)
      requires WellFormed(p)
      ensures Valid() && Snapshot() == p
    {
      mode, width, height, bands := p.mode, p.width, p.height, p.bands;
    }

    /** `ImageDraw.rectangle((0, 0, width, height), fill=ink)`: every pixel of band b becomes ink[b]. */
    method FillRectangle(ink: seq<Level>)
      requires Valid() && |ink| == |bands|
      modifies this
      ensures Valid() && mode == old(mode) && width == old(width) && height == old(height)
      ensures forall b :: 0 <= b < |ink| ==> bands[b] == Uniform(width, height, ink[b])
    {
      var w, h := width, height;
      bands := seq(|ink|, b requires 0 <= b < |ink| => Uniform(w, h, ink[b]));
    }

    /** `image.putalpha(alpha)` with an 'L' plane of the image's size. */
    method PutAlpha(alpha: Plane)
      requires Valid() && IsPlane(alpha, width, height)
      modifies this
      ensures Valid() && Snapshot() == PutAlphaSpec(old(Snapshot()), alpha)
    {
      if EndsWith(mode, 'A') {
        bands := bands[..|bands| - 1] + [alpha];
      } else {
        mode := WithAlpha(mode);
        bands := bands + [alpha];
      }
    }

    /** `image.paste(panel, (left, top))` for a panel of the same mode. */
    method Paste(panel: Image, left: int, top: int)
      requires Valid() && panel.Valid() && panel.mode == mode
      modifies this
      ensures Valid() && mode == old(mode) && width == old(width) && height == old(height)
      ensures |bands| == |old(bands)|
      ensures forall b :: 0 <= b < |bands| ==>
                bands[b] == PastePlane(old(bands[b]), width, height, old(panel.bands[b]),
                                       old(panel.width), old(panel.height), left, top)
    {
      var dst, src := bands, panel.bands;
      var w, h, pw, ph := width, height, panel.width, panel.height;
      bands := seq(|dst|, b requires 0 <= b < |dst| =>
        PastePlane(dst[b], w, h, src[b], pw, ph, left, top));
    }

    /** `image.resize((width', height'))`: a new image of the same mode. */
    method Resize(width': nat, height': nat, resample: Resampler) returns (r: Image)
      requires Valid() && Resizes(resample)
      ensures fresh(r) && r.Valid() && r.Snapshot() == Resized(Snapshot(), width', height', resample)
    {
      r := new Image.Of(Resized(Snapshot(), width', height', resample));
    }
  }

  // ---------------------------------------------------------------------------
  // The fill routines
  // ---------------------------------------------------------------------------

  /** `_apply_opacity(image, setting)`. */
  method ApplyOpacity(image: Image, setting: Option<real>)
    requires image.Valid()
    modifies image
    ensures image.Valid() && image.Snapshot() == OpacityAppliedAsWritten(old(image.Snapshot()), setting)
  {
    var opacity := Trunc(setting.GetOr(100.0));
    if opacity != 100 {
      if EndsWith(image.mode, 'A') {
        var alpha := image.bands[|image.bands| - 1];
        alpha := Point(alpha, x => TruncDiv(x * opacity, 100), image.width, image.height);
        image.PutAlpha(alpha);
      } else {
        image.PutAlpha(Uniform(image.width, image.height, UniformAlphaAsWritten(opacity)));
      }
    }
  }

  /** The ink of the solid colour: each component truncated, stored clamped. */
  function Ink(color: seq<real>): (r: seq<Level>)
    ensures |r| == |color|
    ensures forall b :: 0 <= b < |color| ==> r[b] == Clamp(Trunc(color[b]))
  {
    seq(|color|, b requires 0 <= b < |color| => Clamp(Trunc(color[b])))
  }

  /** The picture `draw_solid_color_fill` returns. */
  function SolidFill(mode: string, width: nat, height: nat, color: seq<real>, opacity: Option<real>): (r: Picture)
    requires KnownMode(mode) && |color| == BandCount(mode)
    ensures WellFormed(r)
  {
    OpacityAppliedAsWritten(Picture(mode, width, height,
                           seq(|color|, b requires 0 <= b < |color| => Uniform(width, height, Ink(color)[b]))),
                   opacity)
  }

  /** Every colour band of the solid fill is uniform at the truncated component, and the
   *  result has the size asked for. */
  lemma SolidFillPixels(mode: string, width: nat, height: nat, color: seq<real>, opacity: Option<real>,
                        b: int, y: int, x: int)
    requires KnownMode(mode) && |color| == BandCount(mode)
    requires 0 <= y < height && 0 <= x < width
    requires 0 <= b < BandCount(mode) && !(EndsWith(mode, 'A') && b == BandCount(mode) - 1)
    ensures var r := SolidFill(mode, width, height, color, opacity);
            r.width == width && r.height == height && r.bands[b][y][x] == Clamp(Trunc(color[b]))
  {
  }

  /** A solid fill without an alpha band of its own gets a uniform alpha of `int(opacity * 255)`,
   *  stored clamped: fully opaque for every opacity of at least 1, clear otherwise. */
  lemma SolidFillAlpha(mode: string, width: nat, height: nat, color: seq<real>, opacity: Option<real>,
                       y: int, x: int)
    requires KnownMode(mode) && |color| == BandCount(mode) && !EndsWith(mode, 'A')
    requires 0 <= y < height && 0 <= x < width
    ensures var r := SolidFill(mode, width, height, color, opacity);
            OpacityOf(opacity) == 100 ==> r.mode == mode
    ensures var r := SolidFill(mode, width, height, color, opacity);
            OpacityOf(opacity) != 100 ==>
              r.mode == WithAlpha(mode) && r.bands[BandCount(mode)][y][x] == UniformAlphaAsWritten(OpacityOf(opacity))
              && r.bands[BandCount(mode)][y][x] == (if OpacityOf(opacity) >= 1 then 255 else 0)
  {
  }

  /** `draw_solid_color_fill(mode, size, setting)`, one ink component per band. */
  method DrawSolidColorFill(mode: string, width: nat, height: nat, color: seq<real>, opacity: Option<real>)
    returns (canvas: Image)
    requires KnownMode(mode) && |color| == BandCount(mode)
    ensures fresh(canvas) && canvas.Valid()
    ensures canvas.Snapshot() == SolidFill(mode, width, height, color, opacity)
  {
    var ink := Ink(color);
    canvas := new Image.New(mode, width, height);
    canvas.FillRectangle(ink);
    ApplyOpacity(canvas, opacity);
  }

  /** `range(start, stop, 0)` raises. */
  datatype FillError = ZeroStep

  /**
   * The tiling loop of `draw_pattern_fill`: a blank canvas of the panel's mode,
   * with the panel pasted at every multiple of its size below the canvas size.
   * A panel of height 0, or of width 0 on a non-empty canvas, is a zero
   * `range` step.
   */
  method TilePattern(panel: Image, width: nat, height: nat) returns (r: Result<Image, FillError>)
    requires panel.Valid()
    ensures r.Err? <==> panel.height == 0 || (panel.width == 0 && height > 0)
    ensures r.Ok? ==> fresh(r.value) && r.value.Valid()
    ensures r.Ok? ==> r.value.Snapshot() == Tiled(panel.Snapshot(), width, height)
  {
    var image := new Image.New(panel.mode, width, height);
    var pw, ph := panel.width, panel.height;
    if ph == 0 {
      return Err(ZeroStep);
    }
    if pw == 0 && height > 0 {
      return Err(ZeroStep);
    }
    if pw == 0 {
      assert image.Snapshot() == Tiled(panel.Snapshot(), width, height);
      return Ok(image);
    }
    var top := 0;
    ghost var ti: nat := 0;
    forall b | 0 <= b < |image.bands|
      ensures TiledSoFar(image.bands[b], panel.bands[b], pw, ph, width, height, 0, 0)
    {
    }
    while top < height
      invariant top == ti * ph
      invariant image.Valid() && image.mode == panel.mode && image.width == width && image.height == height
      invariant forall b :: 0 <= b < |image.bands| ==>
                  TiledSoFar(image.bands[b], panel.bands[b], pw, ph, width, height, top, 0)
      invariant fresh(image)
      decreases height - top
    {
      var left := 0;
      ghost var li: nat := 0;
      while left < width
        invariant left == li * pw
        invariant image.Valid() && image.mode == panel.mode && image.width == width && image.height == height
        invariant forall b :: 0 <= b < |image.bands| ==>
                    TiledSoFar(image.bands[b], panel.bands[b], pw, ph, width, height, top, left)
        invariant fresh(image)
        decreases width - left
      {
        ghost var before := image.bands;
        image.Paste(panel, left, top);
        forall b | 0 <= b < |image.bands|
          ensures TiledSoFar(image.bands[b], panel.bands[b], pw, ph, width, height, top, left + pw)
        {
          PasteStep(before[b], panel.bands[b], pw, ph, width, height, ti, li);
        }
        left := left + pw;
        li := li + 1;
      }
      forall b | 0 <= b < |image.bands|
        ensures TiledSoFar(image.bands[b], panel.bands[b], pw, ph, width, height, top + ph, 0)
      {
      }
      top := top + ph;
      ti := ti + 1;
    }
    assert image.Snapshot() == Tiled(panel.Snapshot(), width, height) by {
      var t := Tiled(panel.Snapshot(), width, height);
      forall b | 0 <= b < |image.bands| ensures image.bands[b] == t.bands[b] {
        PlaneExtensionality(image.bands[b], t.bands[b], width, height);
      }
    }
    r := Ok(image);
  }

  // ---------------------------------------------------------------------------
  // draw_pattern_fill
  // ---------------------------------------------------------------------------

  /** `panel.resize((width, height))`: resampling is a parameter that keeps each band a plane. */
  type Resampler = (Plane, nat, nat, nat, nat) -> Plane

  ghost predicate Resizes(resample: Resampler) {
    forall p, width, height, width', height' :: IsPlane(p, width, height) ==>
      IsPlane(resample(p, width, height, width', height'), width', height')
  }

  /** The picture resized band by band. */
  function Resized(p: Picture, width': nat, height': nat, resample: Resampler): (r: Picture)
    requires WellFormed(p) && Resizes(resample)
    ensures WellFormed(r) && r.mode == p.mode && r.width == width' && r.height == height'
  {
    Picture(p.mode, width', height',
      seq(|p.bands|, b requires 0 <= b < |p.bands| => resample(p.bands[b], p.width, p.height, width', height')))
  }

  /** `float(setting.get(Scale, 100.)) / 100.` */
  function ScaleOf(setting: Option<real>): real {
    setting.GetOr(100.0) / 100.0
  }

  /** A scaled panel dimension: `max(1, int(dim * scale))`. */
  function PanelDim(dim: nat, scale: real): (r: nat)
    ensures r >= 1
    ensures Trunc(dim as real * scale) >= 1 ==> r == Trunc(dim as real * scale)
    ensures Trunc(dim as real * scale) < 1 ==> r == 1
  {
    var t := Trunc(dim as real * scale);
    if t >= 1 then t else 1
  }

  /** The panel after scaling: unchanged at scale 1, otherwise resized to the scaled dimensions. */
  function ScaledPanel(p: Picture, scale: real, resample: Resampler): (r: Picture)
    requires WellFormed(p) && Resizes(resample)
    ensures WellFormed(r) && r.mode == p.mode
  {
    if scale == 1.0 then p
    else Resized(p, PanelDim(p.width, scale), PanelDim(p.height, scale), resample)
  }

  /** The panel that gets tiled: the stored pattern scaled, then given the fill's opacity. */
  function FillPanel(p: Picture, scaleSetting: Option<real>, opacity: Option<real>, resample: Resampler): (r: Picture)
    requires WellFormed(p) && Resizes(resample)
    ensures WellFormed(r)
  {
    OpacityAppliedAsWritten(ScaledPanel(p, ScaleOf(scaleSetting), resample), opacity)
  }

  ghost predicate Patterns(patterns: map<string, Picture>) {
    forall id :: id in patterns ==> WellFormed(patterns[id])
  }

  /** What `draw_pattern_fill` returns: `None` for an unknown pattern, the tiled canvas
   *  otherwise, and a zero-step error for a panel with no rows or no columns. */
  function PatternFill(width: nat, height: nat, patternId: string, patterns: map<string, Picture>,
                       scaleSetting: Option<real>, opacity: Option<real>, resample: Resampler)
    : Result<Option<Picture>, FillError>
    requires Patterns(patterns) && Resizes(resample)
  {
    var id := RStrip(patternId, 0 as char);
    if id !in patterns then Ok(None)
    else
      var panel := FillPanel(patterns[id], scaleSetting, opacity, resample);
      if panel.height == 0 || (panel.width == 0 && height > 0) then Err(ZeroStep)
      else Ok(Some(Tiled(panel, width, height)))
  }

  /** Opacity never changes the panel's size. */
  lemma OpacityKeepsSize(p: Picture, opacity: Option<real>)
    requires WellFormed(p)
    ensures OpacityAppliedAsWritten(p, opacity).width == p.width && OpacityAppliedAsWritten(p, opacity).height == p.height
  {
  }

  /**
   * The pattern fill covers the whole canvas: it has the size asked for, each
   * pixel is the panel pixel at the canvas position modulo the panel size, and a
   * scaled panel is never empty, so only an unscaled empty pattern can fail.
   */
  lemma PatternFillTiles(width: nat, height: nat, patternId: string, patterns: map<string, Picture>,
                         scaleSetting: Option<real>, opacity: Option<real>, resample: Resampler)
    requires Patterns(patterns) && Resizes(resample)
    requires RStrip(patternId, 0 as char) in patterns
    ensures var p := patterns[RStrip(patternId, 0 as char)];
            var panel := FillPanel(p, scaleSetting, opacity, resample);
            && (ScaleOf(scaleSetting) != 1.0 ==> panel.width >= 1 && panel.height >= 1)
            && (ScaleOf(scaleSetting) == 1.0 ==> panel.width == p.width && panel.height == p.height)
            && var r := PatternFill(width, height, patternId, patterns, scaleSetting, opacity, resample);
               (r.Err? <==> panel.height == 0 || (panel.width == 0 && height > 0))
               && (r.Ok? ==>
                     && r.value.Some? && r.value.value.width == width && r.value.value.height == height
                     && r.value.value.mode == panel.mode
                     && forall b, y, x :: 0 <= b < |panel.bands| && 0 <= y < height && 0 <= x < width ==>
                          r.value.value.bands[b][y][x] == panel.bands[b][y % panel.height][x % panel.width])
  {
    var p := patterns[RStrip(patternId, 0 as char)];
    OpacityKeepsSize(ScaledPanel(p, ScaleOf(scaleSetting), resample), opacity);
  }

  /** An unknown pattern gives `None` whatever the other settings. */
  lemma PatternFillUnknown(width: nat, height: nat, patternId: string, patterns: map<string, Picture>,
                           scaleSetting: Option<real>, opacity: Option<real>, resample: Resampler)
    requires Patterns(patterns) && Resizes(resample)
    ensures PatternFill(width, height, patternId, patterns, scaleSetting, opacity, resample) == Ok(None)
            <==> RStrip(patternId, 0 as char) !in patterns
  {
  }

  /** `draw_pattern_fill(size, psd, setting)`, with the document's patterns already converted. */
  method DrawPatternFill(width: nat, height: nat, patternId: string, patterns: map<string, Picture>,
                         scaleSetting: Option<real>, opacity: Option<real>, resample: Resampler)
    returns (r: Result<Option<Image>, FillError>)
    requires Patterns(patterns) && Resizes(resample)
    ensures var spec := PatternFill(width, height, patternId, patterns, scaleSetting, opacity, resample);
            && (r.Err? <==> spec.Err?)
            && (r.Ok? && r.value.None? <==> spec == Ok(None))
            && (r.Ok? && r.value.Some? ==>
                  fresh(r.value.value) && r.value.value.Valid() && spec == Ok(Some(r.value.value.Snapshot())))
  {
    var id := RStrip(patternId, 0 as char);
    if id !in patterns {
      return Ok(None);
    }
    var panel := new Image.Of(patterns[id]);
    var scale := ScaleOf(scaleSetting);
    if scale != 1.0 {
      panel := panel.Resize(PanelDim(panel.width, scale), PanelDim(panel.height, scale), resample);
    }
    ApplyOpacity(panel, opacity);
    var tiled := TilePattern(panel, width, height);
    if tiled.Err? {
      return Err(tiled.error);
    }
    r := Ok(Some(tiled.value));
  }
}
