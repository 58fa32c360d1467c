/**
 The editing operations of `src/editor.rs`: blending one image over another,
 copy, crop, fill, and resizing through a nearest-neighbour resampler.

 Every operation reads its inputs and builds one new image. Where the source builds
 that image step by step in a mutable buffer (crop, fill, the resampler) the model is
 a method with the same loops, proved equal to a function that states the result;
 the dispatchers and size computations are functions.
 */
module Editor {
  import opened Raster
  import Arith

  datatype Option<+T> = None | Some(value: T)

  // ---------------------------------------------------------------------------
  // Blend
  // ---------------------------------------------------------------------------

  /** The blend modes `blend` accepts. */
  datatype BlendMode = Normal | Difference | Multiply | Overlay | Screen

  /** The keyword that selects each mode. */
  function ModeName(m: BlendMode): string {
    match m
    case Normal => "normal"
    case Difference => "difference"
    case Multiply => "multiply"
    case Overlay => "overlay"
    case Screen => "screen"
  }

  /** The mode an (already lower-cased) keyword selects, if any. */
  function ParseBlendMode(s: string): (m: Option<BlendMode>)
    ensures m.Some? ==> ModeName(m.value) == s
    ensures m.None? ==> forall k: BlendMode :: ModeName(k) != s
  {
    if s == "normal" then Some(Normal)
    else if s == "difference" then Some(Difference)
    else if s == "multiply" then Some(Multiply)
    else if s == "overlay" then Some(Overlay)
    else if s == "screen" then Some(Screen)
    else None
  }

  predicate IsUpper(c: char) {
    'A' <= c <= 'Z'
  }

  function LowerChar(c: char): (d: char)
    ensures !IsUpper(d)
    ensures !IsUpper(c) ==> d == c
    ensures IsUpper(c) ==> d as int == c as int + 32
  {
    if IsUpper(c) then (c as int + 32) as char else c
  }

  /** `str::to_lowercase`, on the ASCII letters. */
  function Lower(s: string): (r: string)
    ensures |r| == |s|
    ensures forall i :: 0 <= i < |s| ==> r[i] == LowerChar(s[i])
    ensures forall i :: 0 <= i < |r| ==> !IsUpper(r[i])
  {
    if s == [] then [] else [LowerChar(s[0])] + Lower(s[1..])
  }

  /** `s` and `t` spell the same word up to the case of ASCII letters. */
  predicate SameIgnoringCase(s: string, t: string) {
    |s| == |t| && forall i :: 0 <= i < |s| ==> LowerChar(s[i]) == LowerChar(t[i])
  }

  /** A mode keyword is recognised in any mixture of upper and lower case. */
  lemma ModeNameIgnoresCase(s: string, m: BlendMode)
    requires SameIgnoringCase(s, ModeName(m))
    ensures ParseBlendMode(Lower(s)) == Some(m)
  {
    var name := ModeName(m);
    assert forall i :: 0 <= i < |name| ==> !IsUpper(name[i]);
    assert Lower(s) == name;
  }

  /**
   The per-pixel work of the `blend` module (`blend::normal`, `blend::difference`,
   ...): from the mode, the clamped opacity, the base pixel and the overlay pixel,
   the pixel written into the result. Its formulas are not part of this model.
   */
  type PixelBlend = (BlendMode, real, Color, Color) -> Color

  /** Opacity outside `[0, 1]` is moved to the nearer end of that range. */
  function ClampOpacity(opacity: real): (o: real)
    ensures 0.0 <= o <= 1.0
    ensures 0.0 <= opacity <= 1.0 ==> o == opacity
    ensures opacity > 1.0 ==> o == 1.0
    ensures opacity < 0.0 ==> o == 0.0
  {
    if opacity > 1.0 then 1.0 else if opacity < 0.0 then 0.0 else opacity
  }

  /** The message `blend` fails with when the overlay misses the canvas. */
  const OutsideCanvas := "Invalid blending. Image 2 is outside the canvas."

  /**
   The overlap test of `blend`: an overlay of `w2` by `h2` placed at `(ox, oy)` on a
   `w1` by `h1` canvas is not entirely to one side of it.
   */
  predicate Overlaps(ox: int, oy: int, w1: nat, h1: nat, w2: nat, h2: nat) {
    !(ox >= w1 || ox + w2 <= 0 || oy >= h1 || oy + h2 <= 0)
  }

  predicate InSpan(lo: int, hi: int, x: int) {
    lo <= x < hi
  }

  /** For non-empty images, the overlap test holds exactly when some pixel lies in both. */
  lemma OverlapIffSharedPixel(ox: int, oy: int, w1: nat, h1: nat, w2: nat, h2: nat)
    requires 0 < w1 && 0 < h1 && 0 < w2 && 0 < h2
    ensures Overlaps(ox, oy, w1, h1, w2, h2) <==>
      exists x, y :: InSpan(0, w2, x) && InSpan(0, h2, y) && InSpan(0, w1, ox + x) && InSpan(0, h1, oy + y)
  {
    if Overlaps(ox, oy, w1, h1, w2, h2) {
      var x := if ox < 0 then -ox else 0;
      var y := if oy < 0 then -oy else 0;
      assert InSpan(0, w2, x) && InSpan(0, h2, y) && InSpan(0, w1, ox + x) && InSpan(0, h1, oy + y);
    }
  }

  /** Loop bounds in overlay-local coordinates: columns `[startX, endX)`, rows `[startY, endY)`. */
  datatype Bounds = Bounds(startX: int, endX: int, startY: int, endY: int) {
    predicate Contains(x: int, y: int) {
      InSpan(startX, endX, x) && InSpan(startY, endY, y)
    }
  }

  /** Every overlay-local pixel inside `b` is a pixel of the overlay and, moved by `(ox, oy)`, of the canvas. */
  predicate Clipped(b: Bounds, ox: int, oy: int, w1: nat, h1: nat, w2: nat, h2: nat) {
    && 0 <= b.startX <= b.endX <= w2 && 0 <= ox + b.startX && ox + b.endX <= w1
    && 0 <= b.startY <= b.endY <= h2 && 0 <= oy + b.startY && oy + b.endY <= h1
  }

  /**
   The loop bounds `blend` computes: the overlay clipped to the canvas. They keep every
   visited pixel inside both images, and visit every pixel that lies in both.
   */
  function ClippedBounds(ox: int, oy: int, w1: nat, h1: nat, w2: nat, h2: nat): (b: Bounds)
    requires Overlaps(ox, oy, w1, h1, w2, h2)
    ensures Clipped(b, ox, oy, w1, h1, w2, h2)
    ensures forall x :: InSpan(b.startX, b.endX, x) <==> InSpan(0, w2, x) && InSpan(0, w1, ox + x)
    ensures forall y :: InSpan(b.startY, b.endY, y) <==> InSpan(0, h2, y) && InSpan(0, h1, oy + y)
  {
    Bounds(if ox < 0 then -ox else 0, if ox + w2 > w1 then w1 - ox else w2,
           if oy < 0 then -oy else 0, if oy + h2 > h1 then h1 - oy else h2)
  }

  /**
   What the `blend` module produces: the base image, with every canvas pixel covered
   by the clipped overlay replaced by the per-pixel blend of base and overlay.
   */
  function Composite(base: Image, overlay: Image, b: Bounds, ox: int, oy: int,
                     pixel: PixelBlend, mode: BlendMode, opacity: real): (r: Image)
    requires base.Valid() && overlay.Valid()
    requires Clipped(b, ox, oy, base.width, base.height, overlay.width, overlay.height)
    ensures r.Valid() && r.width == base.width && r.height == base.height
    ensures forall x: nat, y: nat :: b.Contains(x, y) ==>
      base.InBounds(ox + x, oy + y) && overlay.InBounds(x, y) &&
      r.At(ox + x, oy + y) == pixel(mode, opacity, base.At(ox + x, oy + y), overlay.At(x, y))
    ensures forall x: nat, y: nat :: base.InBounds(x, y) && !b.Contains(x - ox, y - oy) ==>
      r.At(x, y) == base.At(x, y)
  {
    var f := (x: nat, y: nat) =>
      if !base.InBounds(x, y) then Transparent
      else if b.Contains(x - ox, y - oy) then pixel(mode, opacity, base.At(x, y), overlay.At(x - ox, y - oy))
      else base.At(x, y);
    BuildAt(base.width, base.height, f);
    Build(base.width, base.height, f)
  }

  /** A per-pixel blend that returns the base pixel leaves the whole base image as it was. */
  lemma {:induction false} CompositeKeepsBase(base: Image, overlay: Image, b: Bounds, ox: int, oy: int,
                                              pixel: PixelBlend, mode: BlendMode, opacity: real)
    requires base.Valid() && overlay.Valid()
    requires Clipped(b, ox, oy, base.width, base.height, overlay.width, overlay.height)
    requires forall c, d :: pixel(mode, opacity, c, d) == c
    ensures Composite(base, overlay, b, ox, oy, pixel, mode, opacity) == base
  {
    var r := Composite(base, overlay, b, ox, oy, pixel, mode, opacity);
    forall x: nat, y: nat | r.InBounds(x, y)
      ensures r.At(x, y) == base.At(x, y)
    {
      if b.Contains(x - ox, y - oy) {
        var u: nat, v: nat := x - ox, y - oy;
        assert r.At(ox + u, oy + v) == pixel(mode, opacity, base.At(ox + u, oy + v), overlay.At(u, v));
      }
    }
    SamePixels(r, base);
  }

  /**
   With opacity at or below zero, a blend whose opacity mix keeps the base pixel at
   opacity 0 yields an exact copy of the base.
   */
  lemma TransparentBlendIsCopy(base: Image, overlay: Image, b: Bounds, ox: int, oy: int,
                               pixel: PixelBlend, mode: BlendMode, opacity: real)
    requires base.Valid() && overlay.Valid()
    requires Clipped(b, ox, oy, base.width, base.height, overlay.width, overlay.height)
    requires forall m, c, d :: pixel(m, 0.0, c, d) == c
    requires opacity <= 0.0
    ensures Composite(base, overlay, b, ox, oy, pixel, mode, ClampOpacity(opacity)) == Copy(base)
  {
    CompositeKeepsBase(base, overlay, b, ox, oy, pixel, mode, ClampOpacity(opacity));
  }

  /**
   `blend`: composite `image2` over `image1` at the placement the resolver gives for
   `position` and the offsets. Fails when the resolver fails, when the overlay misses
   the canvas, and when the lower-cased mode names no blend mode, in that order.
   */
  method Blend(image1: Image, image2: Image, blendMode: string, opacity: real, position: string,
               offsetX: int, offsetY: int, getXY: Resolver, pixel: PixelBlend)
    returns (r: Result<Image>)
    requires image1.Valid() && image2.Valid()
    ensures var placed := getXY(Position(position, offsetX, offsetY), image1.width, image1.height, image2.width, image2.height);
      placed.Err? ==> r == Err(placed.error)
    ensures var placed := getXY(Position(position, offsetX, offsetY), image1.width, image1.height, image2.width, image2.height);
      placed.Ok? && !Overlaps(placed.value.0, placed.value.1, image1.width, image1.height, image2.width, image2.height) ==>
      r == Err(Message(OutsideCanvas))
    ensures var placed := getXY(Position(position, offsetX, offsetY), image1.width, image1.height, image2.width, image2.height);
      placed.Ok? && Overlaps(placed.value.0, placed.value.1, image1.width, image1.height, image2.width, image2.height) &&
      ParseBlendMode(Lower(blendMode)).None? ==>
      r == Err(Message("Invalid blend type " + Lower(blendMode) + "."))
    ensures var placed := getXY(Position(position, offsetX, offsetY), image1.width, image1.height, image2.width, image2.height);
      placed.Ok? && Overlaps(placed.value.0, placed.value.1, image1.width, image1.height, image2.width, image2.height) &&
      ParseBlendMode(Lower(blendMode)).Some? ==>
      var (ox, oy) := placed.value;
      r == Ok(Composite(image1, image2, ClippedBounds(ox, oy, image1.width, image1.height, image2.width, image2.height),
                        ox, oy, pixel, ParseBlendMode(Lower(blendMode)).value, ClampOpacity(opacity)))
  {
    var opacity := opacity;
    if opacity > 1.0 {
      opacity := 1.0;
    } else if opacity < 0.0 {
      opacity := 0.0;
    }

    var placed := getXY(Position(position, offsetX, offsetY), image1.width, image1.height, image2.width, image2.height);
    if placed.Err? {
      return Err(placed.error);
    }
    var (offsetX, offsetY) := placed.value;

    var w1, h1 := image1.width, image1.height;
    var w2, h2 := image2.width, image2.height;

    if offsetX >= w1 || offsetX + w2 <= 0 || offsetY >= h1 || offsetY + h2 <= 0 {
      return Err(Message(OutsideCanvas));
    }

    var loopStartX := 0;
    var canvasStartX := offsetX;
    if canvasStartX < 0 {
      var diff := 0 - canvasStartX;
      loopStartX := loopStartX + diff;
    }

    var loopEndX := w2;
    var canvasEndX := offsetX + w2;
    if canvasEndX > w1 {
      var diff := canvasEndX - w1;
      loopEndX := loopEndX - diff;
    }

    var loopStartY := 0;
    var canvasStartY := offsetY;
    if canvasStartY < 0 {
      var diff := 0 - canvasStartY;
      loopStartY := loopStartY + diff;
    }

    var loopEndY := h2;
    var canvasEndY := offsetY + h2;
    if canvasEndY > h1 {
      var diff := canvasEndY - h1;
      loopEndY := loopEndY - diff;
    }

    var bounds := Bounds(loopStartX, loopEndX, loopStartY, loopEndY);
    assert bounds == ClippedBounds(offsetX, offsetY, w1, h1, w2, h2);
    var blendMode := Lower(blendMode);
    match ParseBlendMode(blendMode)
    case Some(mode) =>
      r := Ok(Composite(image1, image2, bounds, offsetX, offsetY, pixel, mode, opacity));
    case None =>
      r := Err(Message("Invalid blend type " + blendMode + "."));
  }

  // ---------------------------------------------------------------------------
  // Copy, crop, fill
  // ---------------------------------------------------------------------------

  /** `copy`: a new image with the same size and the same pixels. */
  function Copy(src: Image): (r: Image)
    ensures r.width == src.width && r.height == src.height && r.pixels == src.pixels
  {
    Image(src.width, src.height, src.pixels)
  }

  /** A rectangle of a source image: top-left corner `(x, y)` and its size. */
  datatype Rect = Rect(x: nat, y: nat, width: nat, height: nat)

  predicate RectWithin(rect: Rect, w: nat, h: nat) {
    rect.x + rect.width <= w && rect.y + rect.height <= h
  }

  /**
   A resolved crop corner that the crop can start from: not beyond the source's far
   edges (a corner further out would give the destination a negative size).
   */
  predicate CornerWithin(placed: Result<(int, int)>, w: nat, h: nat) {
    placed.Ok? ==> placed.value.0 <= w && placed.value.1 <= h
  }

  /**
   The region `crop` copies, from the resolved corner `(rx, ry)`: negative coordinates
   move to 0, and the far edges are cut back to the source's.
   */
  function CropRect(w: nat, h: nat, cropWidth: nat, cropHeight: nat, rx: int, ry: int): (rect: Rect)
    requires rx <= w && ry <= h
    ensures rx >= 0 ==> rect.x == rx
    ensures rx < 0 ==> rect.x == 0
    ensures ry >= 0 ==> rect.y == ry
    ensures ry < 0 ==> rect.y == 0
    ensures RectWithin(rect, w, h)
    ensures rect.width <= cropWidth && rect.height <= cropHeight
    ensures rect.width == cropWidth || rect.x + rect.width == w
    ensures rect.height == cropHeight || rect.y + rect.height == h
  {
    var x := if rx < 0 then 0 else rx;
    var y := if ry < 0 then 0 else ry;
    var height2 := if y + cropHeight > h then h else y + cropHeight;
    var width2 := if x + cropWidth > w then w else x + cropWidth;
    Rect(x, y, width2 - x, height2 - y)
  }

  /** Pixel `(x, y)` of the window `rect` onto `src`, for `(x, y)` inside the rectangle. */
  function Window(src: Image, rect: Rect): (f: (nat, nat) -> Color)
    requires src.Valid() && RectWithin(rect, src.width, src.height)
  {
    (x: nat, y: nat) =>
      if x < rect.width && y < rect.height then src.At(rect.x + x, rect.y + y) else Transparent
  }

  /** Inside the rectangle, the window reads the source pixel offset by the rectangle's corner. */
  lemma WindowAt(src: Image, rect: Rect, x: nat, y: nat)
    requires src.Valid() && RectWithin(rect, src.width, src.height) && x < rect.width && y < rect.height
    ensures src.InBounds(rect.x + x, rect.y + y) && Window(src, rect)(x, y) == src.At(rect.x + x, rect.y + y)
  {
  }

  /** The pixels of `src` inside `rect`, as an image of the rectangle's size. */
  function SubImage(src: Image, rect: Rect): (r: Image)
    requires src.Valid() && RectWithin(rect, src.width, src.height)
    ensures r.Valid() && r.width == rect.width && r.height == rect.height
    ensures forall x: nat, y: nat :: r.InBounds(x, y) ==>
      src.InBounds(rect.x + x, rect.y + y) && r.At(x, y) == src.At(rect.x + x, rect.y + y)
  {
    BuildAt(rect.width, rect.height, Window(src, rect));
    Build(rect.width, rect.height, Window(src, rect))
  }

  /**
   What `crop` returns: the resolver's error, or the sub-image starting at the
   resolved corner moved to non-negative coordinates, no larger than asked for and
   no larger than the source leaves room for.
   */
  function Cropped(src: Image, cropWidth: nat, cropHeight: nat, position: Position, getXY: Resolver): (r: Result<Image>)
    requires src.Valid()
    requires CornerWithin(getXY(position, src.width, src.height, cropWidth, cropHeight), src.width, src.height)
    ensures var placed := getXY(position, src.width, src.height, cropWidth, cropHeight);
      placed.Err? ==> r == Err(placed.error)
    ensures var placed := getXY(position, src.width, src.height, cropWidth, cropHeight);
      placed.Ok? ==> (r.Ok? && r.value.Valid() &&
      var x := if placed.value.0 < 0 then 0 else placed.value.0;
      var y := if placed.value.1 < 0 then 0 else placed.value.1;
      && r.value.width <= cropWidth && x + r.value.width <= src.width
      && r.value.height <= cropHeight && y + r.value.height <= src.height
      && (r.value.width == cropWidth || x + r.value.width == src.width)
      && (r.value.height == cropHeight || y + r.value.height == src.height)
      && forall i: nat, j: nat :: r.value.InBounds(i, j) ==>
           src.InBounds(x + i, y + j) && r.value.At(i, j) == src.At(x + i, y + j))
  {
    match getXY(position, src.width, src.height, cropWidth, cropHeight)
    case Err(e) => Err(e)
    case Ok((rx, ry)) => Ok(SubImage(src, CropRect(src.width, src.height, cropWidth, cropHeight, rx, ry)))
  }

  /** A crop whose corner the resolver finds is the sub-image of the clamped rectangle at that corner. */
  lemma CroppedOk(src: Image, cropWidth: nat, cropHeight: nat, position: Position, getXY: Resolver)
    requires src.Valid()
    requires CornerWithin(getXY(position, src.width, src.height, cropWidth, cropHeight), src.width, src.height)
    requires getXY(position, src.width, src.height, cropWidth, cropHeight).Ok?
    ensures var (rx, ry) := getXY(position, src.width, src.height, cropWidth, cropHeight).value;
      var rect := CropRect(src.width, src.height, cropWidth, cropHeight, rx, ry);
      Cropped(src, cropWidth, cropHeight, position, getXY) == Ok(SubImage(src, rect))
  {
  }

  /** A `top-left` crop within the source's size is exactly the top-left corner of the source. */
  lemma CropTopLeft(src: Image, cropWidth: nat, cropHeight: nat, getXY: Resolver)
    requires src.Valid() && TopLeftAtOrigin(getXY)
    requires cropWidth <= src.width && cropHeight <= src.height
    ensures Cropped(src, cropWidth, cropHeight, TopLeft, getXY) == Ok(SubImage(src, Rect(0, 0, cropWidth, cropHeight)))
  {
    assert getXY(TopLeft, src.width, src.height, cropWidth, cropHeight) == Ok((0, 0));
  }

  /**
   `crop`: copy the clamped region pixel by pixel into a blank destination. Every read
   of the source and every write of the destination is in bounds.
   */
  method Crop(src: Image, cropWidth: nat, cropHeight: nat, position: string, offsetX: int, offsetY: int,
              getXY: Resolver) returns (r: Result<Image>)
    requires src.Valid()
    requires CornerWithin(getXY(Position(position, offsetX, offsetY), src.width, src.height, cropWidth, cropHeight),
                          src.width, src.height)
    ensures r == Cropped(src, cropWidth, cropHeight, Position(position, offsetX, offsetY), getXY)
  {
    var positioner := Position(position, offsetX, offsetY);
    var placed := getXY(positioner, src.width, src.height, cropWidth, cropHeight);
    if placed.Err? {
      return Err(placed.error);
    }
    var (offsetX, offsetY) := placed.value;
    offsetX := if offsetX < 0 then 0 else offsetX;
    offsetY := if offsetY < 0 then 0 else offsetY;

    var height2 := offsetY + cropHeight;
    if height2 > src.height {
      height2 := src.height;
    }

    var width2 := offsetX + cropWidth;
    if width2 > src.width {
      width2 := src.width;
    }

    var rect := Rect(offsetX, offsetY, width2 - offsetX, height2 - offsetY);
    assert rect == CropRect(src.width, src.height, cropWidth, cropHeight, placed.value.0, placed.value.1);
    var dest := CopyRegion(src, rect);
    CroppedOk(src, cropWidth, cropHeight, positioner, getXY);
    r := Ok(dest);
  }

  /**
   The copying loops of `crop`: a blank buffer of the rectangle's size, filled row by
   row with the pixels of `src` inside `rect`.
   */
  method CopyRegion(src: Image, rect: Rect) returns (dest: Image)
    requires src.Valid() && RectWithin(rect, src.width, src.height)
    ensures dest == SubImage(src, rect)
  {
    var w, h := rect.width, rect.height;
    ghost var f := Window(src, rect);
    dest := Blank(w, h);
    for y: nat := 0 to h
      invariant dest.Valid() && dest.width == w && dest.height == h
      invariant Area(w, y) <= |dest.pixels| && dest.pixels[..Area(w, y)] == Rows(w, y, f)
    {
      RowWithin(w, y, h);
      for x: nat := 0 to w
        invariant dest.Valid() && dest.width == w && dest.height == h
        invariant dest.pixels[..Area(w, y) + x] == Written(w, y, x, f)
      {
        var pixel := src.GetPixel(rect.x + x, rect.y + y).value;
        WindowAt(src, rect, x, y);
        PixelWritten(dest.pixels, w, y, x, f);
        dest := dest.SetPixel(x, y, Color(pixel.r, pixel.g, pixel.b, pixel.a)).value;
      }
    }
  }

  /**
   `fill`: a new image of the source's size in which every pixel is `color`. Only the
   source's size is read, never its pixels.
   */
  method Fill(src: Image, color: Color) returns (r: Result<Image>)
    ensures r.Ok? && r.value.Valid() && r.value.width == src.width && r.value.height == src.height
    ensures forall x: nat, y: nat :: r.value.InBounds(x, y) ==> r.value.At(x, y) == color
  {
    ghost var f: (nat, nat) -> Color := (x: nat, y: nat) => color;
    var dest := Blank(src.width, src.height);
    ghost var w, h := src.width, src.height;
    for y: nat := 0 to dest.height
      invariant dest.Valid() && dest.width == w && dest.height == h
      invariant Area(w, y) <= |dest.pixels| && dest.pixels[..Area(w, y)] == Rows(w, y, f)
    {
      RowWithin(w, y, h);
      for x: nat := 0 to dest.width
        invariant dest.Valid() && dest.width == w && dest.height == h
        invariant dest.pixels[..Area(w, y) + x] == Written(w, y, x, f)
      {
        PixelWritten(dest.pixels, w, y, x, f);
        dest := dest.SetPixel(x, y, color).value;
      }
    }
    assert dest == Build(src.width, src.height, f);
    BuildAt(src.width, src.height, f);
    r := Ok(dest);
  }

  // ---------------------------------------------------------------------------
  // Resampling
  // ---------------------------------------------------------------------------

  /**
   The source coordinate the nearest-neighbour resampler reads for destination
   coordinate `d` when scaling `srcSize` to `dstSize`: the largest `s` with
   `dstSize * s <= srcSize * d`, that is the floor of `d * srcSize / dstSize`
   (`SourceCoordIsFloor`). It lies inside a non-empty source.
   */
  function SourceCoord(d: nat, dstSize: nat, srcSize: nat): (s: nat)
    requires d < dstSize
    ensures 0 < srcSize ==> s < srcSize
    ensures d == 0 ==> s == 0
  {
    SourceCoordInRange(d, dstSize, srcSize);
    Arith.Count(Arith.Mul(srcSize, d), dstSize)
  }

  lemma SourceCoordInRange(d: nat, dstSize: nat, srcSize: nat)
    requires d < dstSize
    ensures 0 < srcSize ==> Arith.Count(Arith.Mul(srcSize, d), dstSize) < srcSize
    ensures d == 0 ==> Arith.Count(Arith.Mul(srcSize, d), dstSize) == 0
  {
    var s := Arith.Count(Arith.Mul(srcSize, d), dstSize);
    Arith.CountBounds(Arith.Mul(srcSize, d), dstSize);
    if 0 < srcSize && s >= srcSize {
      Arith.MulMore(srcSize, d, dstSize);
      Arith.MulCommutes(srcSize, dstSize);
      if s > srcSize {
        Arith.MulMore(dstSize, srcSize, s);
      }
    }
  }

  /** The source coordinate is `d * srcSize / dstSize`, rounded down. */
  lemma SourceCoordIsFloor(d: nat, dstSize: nat, srcSize: nat)
    requires d < dstSize
    ensures var s := SourceCoord(d, dstSize, srcSize);
      Arith.Mul(dstSize, s) <= Arith.Mul(srcSize, d) < Arith.Mul(dstSize, s) + dstSize
    ensures SourceCoord(d, dstSize, srcSize) == d * srcSize / dstSize
  {
    Arith.MulIsProduct(srcSize, d);
    Arith.QuotientIsDiv(Arith.Mul(srcSize, d), dstSize);
  }

  /** Pixel `(x, y)` of the nearest-neighbour image, for `(x, y)` inside it and a non-empty source. */
  function Nearest(src: Image, w: nat, h: nat): (f: (nat, nat) -> Color)
    requires src.Valid()
  {
    (x: nat, y: nat) =>
      if x < w && y < h && 0 < src.width && 0 < src.height
      then src.At(SourceCoord(x, w, src.width), SourceCoord(y, h, src.height))
      else Transparent
  }

  /** Inside the image, a non-empty source gives the pixel at the source coordinates. */
  lemma NearestAt(src: Image, w: nat, h: nat, x: nat, y: nat)
    requires src.Valid() && 0 < src.width && 0 < src.height && x < w && y < h
    ensures src.InBounds(SourceCoord(x, w, src.width), SourceCoord(y, h, src.height))
    ensures Nearest(src, w, h)(x, y) == src.At(SourceCoord(x, w, src.width), SourceCoord(y, h, src.height))
  {
  }

  /**
   What `interpolate_nearest` returns: a `w` by `h` image whose pixel `(x, y)` is the
   source pixel at the scaled-down coordinates, each in bounds. An empty source scaled
   to a non-empty size fails on its first read, of pixel `(0, 0)`.
   */
  function NearestNeighbour(src: Image, w: nat, h: nat): (r: Result<Image>)
    requires src.Valid()
    ensures r.Err? <==> 0 < w && 0 < h && (src.width == 0 || src.height == 0)
    ensures r.Err? ==> r.error == OutOfBounds(0, 0)
    ensures r.Ok? ==> r.value.Valid() && r.value.width == w && r.value.height == h
    ensures r.Ok? ==> forall x: nat, y: nat :: x < w && y < h ==>
      src.InBounds(SourceCoord(x, w, src.width), SourceCoord(y, h, src.height)) &&
      r.value.At(x, y) == src.At(SourceCoord(x, w, src.width), SourceCoord(y, h, src.height))
  {
    if 0 < w && 0 < h && (src.width == 0 || src.height == 0) then
      Err(OutOfBounds(0, 0))
    else
      BuildAt(w, h, Nearest(src, w, h));
      Ok(Build(w, h, Nearest(src, w, h)))
  }

  /**
   `interpolate_nearest`: fill a blank `w` by `h` buffer row by row, reading one source
   pixel per destination pixel; the first failed read ends it with that read's error.
   */
  method InterpolateNearest(src: Image, w: nat, h: nat) returns (r: Result<Image>)
    requires src.Valid()
    ensures r == NearestNeighbour(src, w, h)
  {
    ghost var f := Nearest(src, w, h);
    var dest := Blank(w, h);
    for y: nat := 0 to h
      invariant dest.Valid() && dest.width == w && dest.height == h
      invariant (src.width == 0 || src.height == 0) && 0 < w ==> y == 0
      invariant Area(w, y) <= |dest.pixels| && dest.pixels[..Area(w, y)] == Rows(w, y, f)
    {
      RowWithin(w, y, h);
      var row := NearestRow(src, w, h, y, dest);
      if row.Err? {
        return Err(row.error);
      }
      dest := row.value;
    }
    assert dest.pixels == Rows(w, h, f);
    r := Ok(dest);
  }

  /**
   The inner loop of `interpolate_nearest`: set pixels `(0, y)` to `(w - 1, y)` of
   `dest` from the source. It fails exactly when the source is empty and the row is
   not, on its first read.
   */
  method NearestRow(src: Image, w: nat, h: nat, y: nat, dest: Image) returns (r: Result<Image>)
    requires src.Valid() && y < h
    requires dest.Valid() && dest.width == w && dest.height == h
    requires Area(w, y + 1) <= |dest.pixels| && dest.pixels[..Area(w, y)] == Rows(w, y, Nearest(src, w, h))
    ensures r.Err? <==> 0 < w && (src.width == 0 || src.height == 0)
    ensures r.Err? ==> r.error == OutOfBounds(0, SourceCoord(y, h, src.height))
    ensures r.Ok? ==> r.value.Valid() && r.value.width == w && r.value.height == h
    ensures r.Ok? ==> r.value.pixels[..Area(w, y + 1)] == Rows(w, y + 1, Nearest(src, w, h))
  {
    ghost var f := Nearest(src, w, h);
    var dest := dest;
    for x: nat := 0 to w
      invariant dest.Valid() && dest.width == w && dest.height == h
      invariant src.width == 0 || src.height == 0 ==> x == 0
      invariant dest.pixels[..Area(w, y) + x] == Written(w, y, x, f)
    {
      var px := SourceCoord(x, w, src.width);
      var py := SourceCoord(y, h, src.height);
      var pixel := src.GetPixel(px, py);
      if pixel.Err? {
        assert src.width == 0 || src.height == 0;
        return Err(pixel.error);
      }
      NearestAt(src, w, h, x, y);
      PixelWritten(dest.pixels, w, y, x, f);
      dest := dest.SetPixel(x, y, pixel.value).value;
    }
    r := Ok(dest);
  }

  /** The interpolation keywords `resample` accepts. */
  predicate IsInterpolation(s: string) {
    s == "bilinear" || s == "bicubic" || s == "nearest"
  }

  /**
   `resample`: all three interpolation keywords give the nearest-neighbour image; any
   other keyword is an error.
   */
  function Resample(src: Image, w: nat, h: nat, interpolation: string): (r: Result<Image>)
    requires src.Valid()
    ensures !IsInterpolation(interpolation) ==> r == Err(Message("Invalid interpolation '" + interpolation + "'"))
    ensures IsInterpolation(interpolation) ==> (r.Err? <==> 0 < w && 0 < h && (src.width == 0 || src.height == 0))
    ensures r.Ok? ==> r.value.Valid() && r.value.width == w && r.value.height == h
    ensures r.Ok? ==> forall x: nat, y: nat :: x < w && y < h ==>
      src.InBounds(SourceCoord(x, w, src.width), SourceCoord(y, h, src.height)) &&
      r.value.At(x, y) == src.At(SourceCoord(x, w, src.width), SourceCoord(y, h, src.height))
  {
    if interpolation == "bilinear" then
      NearestNeighbour(src, w, h)
    else if interpolation == "bicubic" then
      NearestNeighbour(src, w, h)
    else if interpolation == "nearest" then
      NearestNeighbour(src, w, h)
    else
      Err(Message("Invalid interpolation '" + interpolation + "'"))
  }

  /** Bilinear and bicubic resampling are, for now, nearest-neighbour resampling. */
  lemma InterpolationsAgree(src: Image, w: nat, h: nat)
    requires src.Valid()
    ensures Resample(src, w, h, "bilinear") == Resample(src, w, h, "nearest")
    ensures Resample(src, w, h, "bicubic") == Resample(src, w, h, "nearest")
  {
  }

  // ---------------------------------------------------------------------------
  // Resize
  // ---------------------------------------------------------------------------

  /**
   `(a as float / b as float).round()` for non-negative `a`, in exact arithmetic: the
   integer nearest `a / b`, halves rounded up.
   */
  function RoundDiv(a: nat, b: nat): (q: nat)
    requires 0 < b
    ensures 2 * a - b < 2 * Arith.Mul(b, q) <= 2 * a + b
  {
    Arith.CountBounds(2 * a + b, 2 * b);
    Arith.MulDouble(b, Arith.Count(2 * a + b, 2 * b));
    Arith.Count(2 * a + b, 2 * b)
  }

  /** `resize_exact`: resample to exactly `w` by `h`, whatever the source's aspect ratio. */
  function ResizeExact(src: Image, w: nat, h: nat): (r: Result<Image>)
    requires src.Valid()
    ensures r.Err? <==> 0 < w && 0 < h && (src.width == 0 || src.height == 0)
    ensures r.Ok? ==> r.value.Valid() && r.value.width == w && r.value.height == h
  {
    Resample(src, w, h, "bicubic")
  }

  /**
   `resize_exact_height`: height `h`, width `h` times the aspect ratio, truncated: the
   largest width `x` with `height * x <= width * h`.
   */
  function ResizeExactHeight(src: Image, h: nat): (r: Result<Image>)
    requires src.Valid() && 0 < src.height
    ensures r.Ok? && r.value.Valid() && r.value.height == h
    ensures Arith.Mul(src.height, r.value.width) <= Arith.Mul(src.width, h)
                                                 < Arith.Mul(src.height, r.value.width) + src.height
  {
    var width := Arith.Quotient(Arith.Mul(src.width, h), src.height);
    Arith.MulIsProduct(src.width, h);
    Arith.MulIsProduct(src.height, width);
    Resample(src, width, h, "bicubic")
  }

  /**
   `resize_exact_width`: width `w`, height `w` divided by the aspect ratio, rounded to
   nearest: `width * y` is within half a `width` of `height * w`.
   */
  function ResizeExactWidth(src: Image, w: nat): (r: Result<Image>)
    requires src.Valid() && 0 < src.width
    ensures r.Ok? && r.value.Valid() && r.value.width == w
    ensures 2 * Arith.Mul(src.height, w) - src.width < 2 * Arith.Mul(src.width, r.value.height)
                                                     <= 2 * Arith.Mul(src.height, w) + src.width
  {
    var height := RoundDiv(Arith.Mul(src.height, w), src.width);
    Arith.MulIsProduct(src.height, w);
    Arith.MulIsProduct(src.width, height);
    Resample(src, w, height, "bicubic")
  }

  /** The `resize_exact_height` width in plain products: `sh * x <= sw * h < sh * x + sh`. */
  lemma ResizeExactHeightProducts(src: Image, h: nat)
    requires src.Valid() && 0 < src.height
    ensures var x := ResizeExactHeight(src, h).value.width;
      src.height * x <= src.width * h < src.height * x + src.height
  {
    Arith.MulIsProduct(src.height, ResizeExactHeight(src, h).value.width);
    Arith.MulIsProduct(src.width, h);
  }

  /** The `resize_exact_width` height in plain products: `2 sw y` is within `sw` of `2 sh w`. */
  lemma ResizeExactWidthProducts(src: Image, w: nat)
    requires src.Valid() && 0 < src.width
    ensures var y := ResizeExactWidth(src, w).value.height;
      2 * (src.height * w) - src.width < 2 * (src.width * y) <= 2 * (src.height * w) + src.width
  {
    Arith.MulIsProduct(src.width, ResizeExactWidth(src, w).value.height);
    Arith.MulIsProduct(src.height, w);
  }

  /**
   The size `resize_fill` resamples to: one side equal to the box's and neither side
   smaller, so the box is covered (`FillSizeKeepsRatio` gives the aspect ratio).
   */
  function FillSize(sw: nat, sh: nat, w: nat, h: nat): (s: (nat, nat))
    requires 0 < sw && 0 < sh
    ensures w <= s.0 && h <= s.1
    ensures s.0 == w || s.1 == h
  {
    var optimumWidth := w;
    var optimumHeight := RoundDiv(Arith.Mul(sh, w), sw);
    if optimumWidth < w || optimumHeight < h then
      HeightBasedCoversWidth(sw, sh, w, h);
      (Arith.Quotient(Arith.Mul(sw, h), sh), h)
    else
      (optimumWidth, optimumHeight)
  }

  /**
   The fill size keeps the source's aspect ratio `sw : sh`: the side taken from the box
   fixes the other, rounded to nearest when it is the height and truncated when it is
   the width.
   */
  lemma FillSizeKeepsRatio(sw: nat, sh: nat, w: nat, h: nat)
    requires 0 < sw && 0 < sh
    ensures var s := FillSize(sw, sh, w, h);
      || (s.0 == w && 2 * Arith.Mul(sh, w) - sw < 2 * Arith.Mul(sw, s.1) <= 2 * Arith.Mul(sh, w) + sw)
      || (s.1 == h && Arith.Mul(sh, s.0) <= Arith.Mul(sw, h) < Arith.Mul(sh, s.0) + sh)
  {
    if RoundDiv(Arith.Mul(sh, w), sw) < h {
      assert FillSize(sw, sh, w, h) == (Arith.Quotient(Arith.Mul(sw, h), sh), h);
    } else {
      assert FillSize(sw, sh, w, h) == (w, RoundDiv(Arith.Mul(sh, w), sw));
    }
  }

  /** `FillSizeKeepsRatio` in plain products. */
  lemma FillSizeProducts(sw: nat, sh: nat, w: nat, h: nat)
    requires 0 < sw && 0 < sh
    ensures var s := FillSize(sw, sh, w, h);
      || (s.0 == w && 2 * (sh * w) - sw < 2 * (sw * s.1) <= 2 * (sh * w) + sw)
      || (s.1 == h && sh * s.0 <= sw * h < sh * s.0 + sh)
  {
    var s := FillSize(sw, sh, w, h);
    FillSizeKeepsRatio(sw, sh, w, h);
    Arith.MulIsProduct(sh, w);
    Arith.MulIsProduct(sw, s.1);
    Arith.MulIsProduct(sh, s.0);
    Arith.MulIsProduct(sw, h);
  }

  /**
   When the width-based height falls short of the box, the height-based width covers
   it: if `round(w * sh / sw) < h` then `floor(h * sw / sh) >= w`.
   */
  lemma HeightBasedCoversWidth(sw: nat, sh: nat, w: nat, h: nat)
    requires 0 < sw && 0 < sh
    requires RoundDiv(Arith.Mul(sh, w), sw) < h
    ensures w <= Arith.Quotient(Arith.Mul(sw, h), sh)
  {
    var height := RoundDiv(Arith.Mul(sh, w), sw);
    var width := Arith.Quotient(Arith.Mul(sw, h), sh);
    Arith.MulMore(sw, height, h);
    if width < w {
      Arith.MulMore(sh, width, w);
    }
  }

  /**
   When the width-based height overflows the box, the height-based width does not:
   if `round(w * sh / sw) > h` then `round(h * sw / sh) <= w`.
   */
  lemma HeightBasedFitsWidth(sw: nat, sh: nat, w: nat, h: nat)
    requires 0 < sw && 0 < sh
    requires RoundDiv(Arith.Mul(sh, w), sw) > h
    ensures RoundDiv(Arith.Mul(sw, h), sh) <= w
  {
    var height := RoundDiv(Arith.Mul(sh, w), sw);
    var width := RoundDiv(Arith.Mul(sw, h), sh);
    Arith.MulMore(sw, h, height);
    if width > w {
      Arith.MulMore(sh, w, width);
    }
  }

  /**
   The size `resize_fit` resamples to: one side equal to the box's and neither side
   larger, so the image fits in the box (`FitSizeKeepsRatio` gives the aspect ratio).
   */
  function FitSize(sw: nat, sh: nat, w: nat, h: nat): (s: (nat, nat))
    requires 0 < sw && 0 < sh
    ensures s.0 <= w && s.1 <= h
    ensures s.0 == w || s.1 == h
  {
    var resizeWidth := w;
    var resizeHeight := RoundDiv(Arith.Mul(sh, w), sw);
    if resizeWidth > w || resizeHeight > h then
      HeightBasedFitsWidth(sw, sh, w, h);
      (RoundDiv(Arith.Mul(sw, h), sh), h)
    else
      (resizeWidth, resizeHeight)
  }

  /**
   The fit size keeps the source's aspect ratio `sw : sh`: the side taken from the box
   fixes the other, rounded to nearest.
   */
  lemma FitSizeKeepsRatio(sw: nat, sh: nat, w: nat, h: nat)
    requires 0 < sw && 0 < sh
    ensures var s := FitSize(sw, sh, w, h);
      || (s.0 == w && 2 * Arith.Mul(sh, w) - sw < 2 * Arith.Mul(sw, s.1) <= 2 * Arith.Mul(sh, w) + sw)
      || (s.1 == h && 2 * Arith.Mul(sw, h) - sh < 2 * Arith.Mul(sh, s.0) <= 2 * Arith.Mul(sw, h) + sh)
  {
    if RoundDiv(Arith.Mul(sh, w), sw) > h {
      assert FitSize(sw, sh, w, h) == (RoundDiv(Arith.Mul(sw, h), sh), h);
    } else {
      assert FitSize(sw, sh, w, h) == (w, RoundDiv(Arith.Mul(sh, w), sw));
    }
  }

  /** `FitSizeKeepsRatio` in plain products. */
  lemma FitSizeProducts(sw: nat, sh: nat, w: nat, h: nat)
    requires 0 < sw && 0 < sh
    ensures var s := FitSize(sw, sh, w, h);
      || (s.0 == w && 2 * (sh * w) - sw < 2 * (sw * s.1) <= 2 * (sh * w) + sw)
      || (s.1 == h && 2 * (sw * h) - sh < 2 * (sh * s.0) <= 2 * (sw * h) + sh)
  {
    var s := FitSize(sw, sh, w, h);
    FitSizeKeepsRatio(sw, sh, w, h);
    Arith.MulIsProduct(sh, w);
    Arith.MulIsProduct(sw, s.1);
    Arith.MulIsProduct(sh, s.0);
    Arith.MulIsProduct(sw, h);
  }

  /**
   `resize_fill`: resample so the image covers the `w` by `h` box, then crop the excess
   from the top-left; the result is exactly `w` by `h` (`ResizeFillPixels` gives its pixels).
   */
  function ResizeFill(src: Image, w: nat, h: nat, getXY: Resolver): (r: Result<Image>)
    requires src.Valid() && 0 < src.width && 0 < src.height
    requires TopLeftAtOrigin(getXY)
    ensures r.Ok? && r.value.Valid() && r.value.width == w && r.value.height == h
  {
    var (optimumWidth, optimumHeight) := FillSize(src.width, src.height, w, h);
    match Resample(src, optimumWidth, optimumHeight, "bicubic")
    case Err(e) => Err(e)
    case Ok(resized) =>
      CropTopLeft(resized, w, h, getXY);
      Cropped(resized, w, h, TopLeft, getXY)
  }

  /**
   Pixel `(x, y)` of the filled image is the pixel the nearest-neighbour resampling to
   the fill size reads for `(x, y)`: the crop keeps the top-left `w` by `h` of the
   resampled image unchanged.
   */
  lemma ResizeFillPixels(src: Image, w: nat, h: nat, getXY: Resolver)
    requires src.Valid() && 0 < src.width && 0 < src.height
    requires TopLeftAtOrigin(getXY)
    ensures var (ow, oh) := FillSize(src.width, src.height, w, h);
      forall x: nat, y: nat :: x < w && y < h ==>
        x < ow && y < oh &&
        src.InBounds(SourceCoord(x, ow, src.width), SourceCoord(y, oh, src.height)) &&
        ResizeFill(src, w, h, getXY).value.At(x, y) ==
          src.At(SourceCoord(x, ow, src.width), SourceCoord(y, oh, src.height))
  {
    var (ow, oh) := FillSize(src.width, src.height, w, h);
    var resized := Build(ow, oh, Nearest(src, ow, oh));
    CropTopLeft(resized, w, h, getXY);
    assert ResizeFill(src, w, h, getXY) == Ok(SubImage(resized, Rect(0, 0, w, h)));
    forall x: nat, y: nat | x < w && y < h
      ensures SubImage(resized, Rect(0, 0, w, h)).At(x, y) ==
                src.At(SourceCoord(x, ow, src.width), SourceCoord(y, oh, src.height))
    {
      CornerOfResampledAt(src, ow, oh, w, h, x, y);
    }
  }

  /** The top-left `w` by `h` corner of a nearest-neighbour resampling, pixel by pixel. */
  lemma CornerOfResampledAt(src: Image, ow: nat, oh: nat, w: nat, h: nat, x: nat, y: nat)
    requires src.Valid() && 0 < src.width && 0 < src.height
    requires w <= ow && h <= oh && x < w && y < h
    ensures var resized := Build(ow, oh, Nearest(src, ow, oh));
      SubImage(resized, Rect(0, 0, w, h)).At(x, y) ==
        src.At(SourceCoord(x, ow, src.width), SourceCoord(y, oh, src.height))
  {
    var f := Nearest(src, ow, oh);
    var resized := Build(ow, oh, f);
    var rect := Rect(0, 0, w, h);
    RowsAt(w, h, Window(resized, rect), x, y);
    WindowAt(resized, rect, x, y);
    RowsAt(ow, oh, f, x, y);
    NearestAt(src, ow, oh, x, y);
  }

  /** `resize_fit`: the largest image of the source's aspect ratio (within rounding) that fits in `w` by `h`. */
  function ResizeFit(src: Image, w: nat, h: nat): (r: Result<Image>)
    requires src.Valid() && 0 < src.width && 0 < src.height
    ensures r.Ok? && r.value.Valid() && r.value.width <= w && r.value.height <= h
    ensures r.value.width == w || r.value.height == h
  {
    var (resizeWidth, resizeHeight) := FitSize(src.width, src.height, w, h);
    Resample(src, resizeWidth, resizeHeight, "bicubic")
  }

  /** The resize modes `resize` accepts. */
  predicate IsResizeMode(mode: string) {
    mode == "exact" || mode == "exact_width" || mode == "exact_height" || mode == "fit" || mode == "fill"
  }

  /**
   What each resize mode needs: the modes that keep the aspect ratio need a non-empty
   source, and `fill` relies on the resolver putting a top-left crop at the origin.
   */
  ghost predicate ResizeArgumentsOk(src: Image, mode: string, getXY: Resolver) {
    && (mode == "exact_width" || mode == "exact_height" || mode == "fit" || mode == "fill" ==>
          0 < src.width && 0 < src.height)
    && (mode == "fill" ==> TopLeftAtOrigin(getXY))
  }

  /**
   `resize`: dispatch on the (case-sensitive) mode keyword; an unknown keyword is an
   error, and every known one succeeds on a non-empty source with the size its mode promises.
   */
  function Resize(src: Image, w: nat, h: nat, mode: string, getXY: Resolver): (r: Result<Image>)
    requires src.Valid() && ResizeArgumentsOk(src, mode, getXY)
    ensures !IsResizeMode(mode) ==> r == Err(Message("Invalid resize mode '" + mode + "'."))
    ensures IsResizeMode(mode) && 0 < src.width && 0 < src.height ==> r.Ok?
    ensures mode == "exact" ==> (r.Err? <==> 0 < w && 0 < h && (src.width == 0 || src.height == 0))
    ensures r.Ok? ==> r.value.Valid()
    ensures r.Ok? && mode == "exact" ==> r.value.width == w && r.value.height == h
    ensures r.Ok? && mode == "exact_width" ==> r.value.width == w
    ensures r.Ok? && mode == "exact_height" ==> r.value.height == h
    ensures r.Ok? && mode == "fit" ==> r.value.width <= w && r.value.height <= h
    ensures r.Ok? && mode == "fill" ==> r.value.width == w && r.value.height == h
  {
    if mode == "exact" then ResizeExact(src, w, h)
    else if mode == "exact_width" then ResizeExactWidth(src, w)
    else if mode == "exact_height" then ResizeExactHeight(src, h)
    else if mode == "fit" then ResizeFit(src, w, h)
    else if mode == "fill" then ResizeFill(src, w, h, getXY)
    else Err(Message("Invalid resize mode '" + mode + "'."))
  }
}
