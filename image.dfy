/**
 The pixel buffer and the placement resolver that the editor relies on. Their
 implementations (`Image::blank`, `get_pixel`, `set_pixel`, `Position::get_x_y`)
 are not part of this model; they are specified here by what the editor needs of
 them: a row-major RGBA buffer with bounds-checked access, and an anchor resolver
 that turns a keyword and offsets into a signed top-left corner.
 */
module Raster {
  import Arith

  /** One 8-bit colour channel. */
  newtype byte = x: int | 0 <= x < 256

  /** An RGBA colour, copied freely. */
  datatype Color = Color(r: byte, g: byte, b: byte, a: byte)

  /** The colour a freshly allocated buffer holds: every byte zero. */
  const Transparent := Color(0, 0, 0, 0)

  /** Errors are values: those the editor formats itself, and pixel accesses out of range. */
  datatype Error =
    | Message(text: string)
    | OutOfBounds(x: int, y: int)

  datatype Result<+T> = Ok(value: T) | Err(error: Error)

  /**
   The number of pixels in `h` rows of `w` pixels each, counted row by row: it is
   `w * h` (`Arith.MulIsProduct`), and row `y` of a row-major buffer starts at `Area(w, y)`.
   */
  function Area(w: nat, h: nat): nat {
    Arith.Mul(w, h)
  }

  /** Row `y` of a `w`-wide buffer of `h` rows ends within the buffer. */
  lemma {:induction false} RowWithin(w: nat, y: nat, h: nat)
    requires y < h
    ensures Area(w, y + 1) <= Area(w, h)
  {
    if y < h - 1 {
      RowWithin(w, y, h - 1);
    }
  }

  /** The row-major index of pixel `(x, y)` with `x < w` and `y < h` lies in `[0, Area(w, h))`. */
  lemma IndexBounds(x: nat, y: nat, w: nat, h: nat)
    requires x < w && y < h
    ensures Area(w, y) + x < Area(w, h)
  {
    RowWithin(w, y, h);
  }

  /** Every index below `Area(w, h)` is the row-major index of some pixel. */
  lemma {:induction false} IndexSplit(i: nat, w: nat, h: nat) returns (x: nat, y: nat)
    requires i < Area(w, h)
    ensures x < w && y < h && i == Area(w, y) + x
  {
    if i < Area(w, h - 1) {
      x, y := IndexSplit(i, w, h - 1);
    } else {
      x, y := i - Area(w, h - 1), h - 1;
    }
  }

  /**
   An image: `width * height` pixels in row-major order, pixel `(x, y)` at index
   `Area(width, y) + x`, that is `y * width + x`.
   */
  datatype Image = Image(width: nat, height: nat, pixels: seq<Color>) {

    /** The buffer holds exactly one pixel per coordinate. */
    predicate Valid() {
      |pixels| == Area(width, height)
    }

    predicate InBounds(x: int, y: int) {
      0 <= x < width && 0 <= y < height
    }

    /** The pixel at column `x`, row `y`. */
    function At(x: int, y: int): Color
      requires Valid() && InBounds(x, y)
    {
      IndexBounds(x, y, width, height);
      pixels[Area(width, y) + x]
    }

    /** Bounds-checked read, as `Image::get_pixel`. */
    function GetPixel(x: int, y: int): (r: Result<Color>)
      requires Valid()
      ensures r.Ok? <==> InBounds(x, y)
      ensures r.Ok? ==> r.value == At(x, y)
      ensures r.Err? ==> r.error == OutOfBounds(x, y)
    {
      if InBounds(x, y) then Ok(At(x, y)) else Err(OutOfBounds(x, y))
    }

    /** Bounds-checked write, as `Image::set_pixel`: the image with one pixel replaced. */
    function SetPixel(x: int, y: int, c: Color): (r: Result<Image>)
      requires Valid()
      ensures r.Ok? <==> InBounds(x, y)
      ensures r.Ok? ==> r.value.Valid() && r.value.width == width && r.value.height == height
      ensures r.Ok? ==> Area(width, y) + x < |pixels| && r.value.pixels == pixels[Area(width, y) + x := c]
      ensures r.Err? ==> r.error == OutOfBounds(x, y)
    {
      if InBounds(x, y) then
        IndexBounds(x, y, width, height);
        Ok(Image(width, height, pixels[Area(width, y) + x := c]))
      else
        Err(OutOfBounds(x, y))
    }
  }

  /** `Image::blank`: a `w` by `h` buffer with every byte zero. */
  function Blank(w: nat, h: nat): (r: Image)
    ensures r.Valid() && r.width == w && r.height == h
    ensures forall i :: 0 <= i < |r.pixels| ==> r.pixels[i] == Transparent
  {
    Image(w, h, seq(Area(w, h), _ => Transparent))
  }

  /**
   The first `h` rows of the `w`-wide image whose pixel `(x, y)` is `f(x, y)`, in
   row-major order.
   */
  function Rows(w: nat, h: nat, f: (nat, nat) -> Color): (r: seq<Color>)
    ensures |r| == Area(w, h)
    decreases h, 0, 0
  {
    if h == 0 then [] else Written(w, h - 1, w, f)
  }

  /**
   The first `y` rows of `f` followed by the first `x` pixels of row `y`: what a loop
   that sets the pixels of a buffer one at a time, row by row, has written so far.
   */
  function Written(w: nat, y: nat, x: nat, f: (nat, nat) -> Color): (r: seq<Color>)
    requires x <= w
    ensures |r| == Area(w, y) + x
    decreases y, 1, x
  {
    if x == 0 then Rows(w, y, f) else Written(w, y, x - 1, f) + [f(x - 1, y)]
  }

  /**
   The `w` by `h` image whose pixel `(x, y)` is `f(x, y)`: the value a loop that sets
   every pixel of a blank buffer, row by row, produces.
   */
  function Build(w: nat, h: nat, f: (nat, nat) -> Color): (r: Image)
    ensures r.Valid() && r.width == w && r.height == h
  {
    Image(w, h, Rows(w, h, f))
  }

  /** Writing more of row `y` leaves the rows above it as they were. */
  lemma {:induction false} WrittenKeepsRows(w: nat, y: nat, x: nat, f: (nat, nat) -> Color, i: nat)
    requires x <= w && i < Area(w, y)
    ensures Written(w, y, x, f)[i] == Rows(w, y, f)[i]
  {
    if x > 0 {
      WrittenKeepsRows(w, y, x - 1, f, i);
    }
  }

  /** Pixel `(k, y)` of `f` sits at index `Area(w, y) + k` once it has been written. */
  lemma {:induction false} WrittenAt(w: nat, y: nat, x: nat, f: (nat, nat) -> Color, k: nat)
    requires k < x <= w
    ensures Written(w, y, x, f)[Area(w, y) + k] == f(k, y)
  {
    if k < x - 1 {
      WrittenAt(w, y, x - 1, f, k);
    }
  }

  /** Pixel `(x, y)` of the rows of `f` sits at its row-major index. */
  lemma {:induction false} RowsAt(w: nat, h: nat, f: (nat, nat) -> Color, x: nat, y: nat)
    requires x < w && y < h
    ensures Area(w, y) + x < Area(w, h) && Rows(w, h, f)[Area(w, y) + x] == f(x, y)
  {
    IndexBounds(x, y, w, h);
    if y < h - 1 {
      RowWithin(w, y, h - 1);
      WrittenKeepsRows(w, h - 1, w, f, Area(w, y) + x);
      RowsAt(w, h - 1, f, x, y);
    } else {
      WrittenAt(w, y, w, f, x);
    }
  }

  /** Every pixel of `Build(w, h, f)` is what `f` gives for its coordinates. */
  lemma BuildAt(w: nat, h: nat, f: (nat, nat) -> Color)
    ensures forall x: nat, y: nat :: x < w && y < h ==> Build(w, h, f).At(x, y) == f(x, y)
  {
    forall x: nat, y: nat | x < w && y < h
      ensures Build(w, h, f).At(x, y) == f(x, y)
    {
      RowsAt(w, h, f, x, y);
    }
  }

  /** Writing pixel `(x, y)` of `f` at its index extends what has been written by that pixel. */
  lemma PixelWritten(a: seq<Color>, w: nat, y: nat, x: nat, f: (nat, nat) -> Color)
    requires x < w && Area(w, y) + x < |a|
    requires a[..Area(w, y) + x] == Written(w, y, x, f)
    ensures a[Area(w, y) + x := f(x, y)][..Area(w, y) + x + 1] == Written(w, y, x + 1, f)
  {
    var n := Area(w, y) + x;
    assert a[n := f(x, y)][..n + 1] == a[..n] + [f(x, y)];
  }

  /** Two valid images of the same size that agree on every pixel are the same image. */
  lemma {:induction false} SamePixels(a: Image, b: Image)
    requires a.Valid() && b.Valid() && a.width == b.width && a.height == b.height
    requires forall x: nat, y: nat :: a.InBounds(x, y) ==> a.At(x, y) == b.At(x, y)
    ensures a == b
  {
    forall i | 0 <= i < |a.pixels|
      ensures a.pixels[i] == b.pixels[i]
    {
      var x, y := IndexSplit(i, a.width, a.height);
      assert a.At(x, y) == b.At(x, y);
    }
  }

  /** A placement request: an anchor keyword and the caller's extra offsets (`Position::new`). */
  datatype Position = Position(anchor: string, offsetX: int, offsetY: int)

  /**
   `Position::get_x_y`: given a placement and the outer and inner sizes
   (outer width, outer height, inner width, inner height), the signed top-left
   corner of the inner rectangle in the outer one, or an error for an unknown anchor.
   */
  type Resolver = (Position, int, int, int, int) -> Result<(int, int)>

  /** The placement `crop(..., "top-left", 0, 0)` asks for. */
  const TopLeft := Position("top-left", 0, 0)

  /** The resolver puts a top-left placement without offsets at the origin. */
  ghost predicate TopLeftAtOrigin(getXY: Resolver) {
    forall ow, oh, iw, ih :: getXY(TopLeft, ow, oh, iw, ih) == Ok((0, 0))
  }
}
