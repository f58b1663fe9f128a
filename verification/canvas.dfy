/**
 The square canvas: an RGBA pixel grid, the `draw.Src` copy that both
 fills it with white and pastes the source image into it, and the
 composition `main` performs for a padded image.
 */
module Canvas {
  import opened Options
  import opened Geometry

  type Byte = x: int | 0 <= x < 256

  /** A pixel of an `image.RGBA` canvas. */
  datatype Color = RGBA(r: Byte, g: Byte, b: Byte, a: Byte)

  /** `color.White` as the RGBA canvas stores it: opaque white. */
  const White: Color := RGBA(255, 255, 255, 255)

  /** The zero pixel a freshly allocated canvas holds. */
  const Transparent: Color := RGBA(0, 0, 0, 0)

  /** Pixels by row: `g[y][x]` is the pixel at column `x` of row `y`. */
  type Grid = seq<seq<Color>>

  /** `g` has `h` rows of `w` pixels each. */
  predicate IsGrid(g: Grid, w: nat, h: nat) {
    |g| == h && forall y :: 0 <= y < h ==> |g[y]| == w
  }

  /** A decoded image with bounds `[0, width) x [0, height)`. */
  datatype Image = Image(width: nat, height: nat, pixels: Grid) {
    predicate Valid() {
      IsGrid(pixels, width, height)
    }
  }

  /** The half-open rectangle `[min.x, max.x) x [min.y, max.y)`. */
  datatype Rect = Rect(min: Point, max: Point) {
    predicate Contains(p: Point) {
      min.x <= p.x < max.x && min.y <= p.y < max.y
    }
  }

  /** A source for drawing: a uniform colour without bounds, or a decoded image. */
  datatype Source = Uniform(c: Color) | Picture(img: Image) {
    predicate Valid() {
      Picture? ==> img.Valid()
    }

    /** The colour at `p`, or `None` outside the source's bounds. */
    function At(p: Point): Option<Color>
      requires Valid()
    {
      match this
      case Uniform(c) => Some(c)
      case Picture(img) =>
        if 0 <= p.x < img.width && 0 <= p.y < img.height then Some(img.pixels[p.y][p.x]) else None
    }
  }

  /** The bounds of a square canvas of side `side`. */
  function Bounds(side: nat): Rect {
    Rect(Point(0, 0), Point(side, side))
  }

  /** The source point drawn at destination `p` when `r.min` is aligned with `sp`. */
  function SourcePoint(r: Rect, sp: Point, p: Point): Point {
    Point(p.x - r.min.x + sp.x, p.y - r.min.y + sp.y)
  }

  /**
   What drawing `src` into `dst` over `r` with operator Src leaves at
   `(x, y)`: the aligned source colour where `r` and the source both
   cover the point, and the old destination pixel everywhere else.
   */
  function DrawnAt(dst: Grid, r: Rect, src: Source, sp: Point, x: int, y: int): Color
    requires src.Valid()
    requires 0 <= y < |dst| && 0 <= x < |dst[y]|
  {
    var q := SourcePoint(r, sp, Point(x, y));
    if r.Contains(Point(x, y)) && src.At(q).Some? then src.At(q).value else dst[y][x]
  }

  function Max(a: int, b: int): int {
    if a < b then b else a
  }

  function Min(a: int, b: int): int {
    if a < b then a else b
  }

  /** `image.NewRGBA` for the rectangle `[0, side) x [0, side)`: a zeroed square buffer. */
  function NewRGBA(side: nat): (g: Grid)
    ensures IsGrid(g, side, side)
  {
    seq(side, _ => seq(side, _ => Transparent))
  }

  /**
   `draw.Draw(dst, r, src, sp, draw.Src)`: clip `r` to the destination,
   then overwrite each covered pixel with the aligned source colour
   (plain replacement, no blending). The result agrees with `DrawnAt`
   at every pixel.
   */
  method DrawSrc(dst: Grid, w: nat, h: nat, r: Rect, src: Source, sp: Point) returns (out: Grid)
    requires IsGrid(dst, w, h) && src.Valid()
    ensures IsGrid(out, w, h)
    ensures forall y, x :: 0 <= y < h && 0 <= x < w ==> out[y][x] == DrawnAt(dst, r, src, sp, x, y)
  {
    out := dst;
    var x0, x1 := Max(r.min.x, 0), Min(r.max.x, w);
    var y0, y1 := Max(r.min.y, 0), Min(r.max.y, h);
    if x1 <= x0 || y1 <= y0 {
      return;
    }
    var y := y0;
    while y < y1
      invariant y0 <= y <= y1
      invariant IsGrid(out, w, h)
      invariant forall j, i :: 0 <= j < h && 0 <= i < w ==>
                  out[j][i] == if j < y then DrawnAt(dst, r, src, sp, i, j) else dst[j][i]
    {
      var row := out[y];
      var x := x0;
      while x < x1
        invariant x0 <= x <= x1
        invariant |row| == w
        invariant forall i :: 0 <= i < w ==>
                    row[i] == if i < x then DrawnAt(dst, r, src, sp, i, y) else dst[y][i]
      {
        match src.At(SourcePoint(r, sp, Point(x, y))) {
          case Some(c) => row := row[x := c];
          case None =>
        }
        x := x + 1;
      }
      out := out[y := row];
      y := y + 1;
    }
  }

  /** The pasted rectangle `r = [dp, dp + size)` for an image of `w` by `h` placed by `p`. */
  function Pasted(p: Placement, w: nat, h: nat): Rect {
    Rect(p.offset, p.offset.Add(Point(w, h)))
  }

  /**
   `canvas` is the padded square for `img` under placement `p`: it is
   `p.side` by `p.side`, every pixel inside the pasted rectangle is the
   source pixel shifted by the offset, and every other pixel is white.
   */
  predicate Composed(canvas: Grid, img: Image, p: Placement)
    requires img.Valid()
  {
    && IsGrid(canvas, p.side, p.side)
    && (forall y, x :: 0 <= y < p.side && 0 <= x < p.side && Pasted(p, img.width, img.height).Contains(Point(x, y)) ==>
          canvas[y][x] == img.pixels[y - p.offset.y][x - p.offset.x])
    && (forall y, x :: 0 <= y < p.side && 0 <= x < p.side && !Pasted(p, img.width, img.height).Contains(Point(x, y)) ==>
          canvas[y][x] == White)
  }

  /**
   The padding step: allocate the square, fill it with white, then copy
   the image into the rectangle at the placement offset.
   */
  method Compose(img: Image) returns (canvas: Grid, p: Placement)
    requires img.Valid()
    ensures p == Place(img.width, img.height)
    ensures Composed(canvas, img, p)
  {
    p := Place(img.width, img.height);
    var side := p.side;
    canvas := NewRGBA(side);
    canvas := DrawSrc(canvas, side, side, Bounds(side), Uniform(White), Point(0, 0));
    var filled := canvas;
    var r := Pasted(p, img.width, img.height);
    canvas := DrawSrc(canvas, side, side, r, Picture(img), Point(0, 0));
    forall y, x | 0 <= y < side && 0 <= x < side
      ensures canvas[y][x] == if r.Contains(Point(x, y)) then img.pixels[y - p.offset.y][x - p.offset.x] else White
    {
      assert filled[y][x] == White;
    }
  }

  /** The `w` by `h` block of `g` whose top-left corner is `o`. */
  function Crop(g: Grid, side: nat, o: Point, w: nat, h: nat): (c: Grid)
    requires IsGrid(g, side, side)
    requires 0 <= o.x && o.x + w <= side && 0 <= o.y && o.y + h <= side
    ensures IsGrid(c, w, h)
  {
    seq(h, j requires 0 <= j < h => seq(w, i requires 0 <= i < w => g[o.y + j][o.x + i]))
  }

  /** Cutting the pasted rectangle back out of a composed canvas gives the source image unchanged. */
  lemma CropRecoversSource(canvas: Grid, img: Image, p: Placement)
    requires img.Valid()
    requires p == Place(img.width, img.height)
    requires Composed(canvas, img, p)
    ensures Crop(canvas, p.side, p.offset, img.width, img.height) == img.pixels
  {
    CropOfPasted(canvas, img, p);
  }

  /** The same, for any placement whose rectangle lies inside the square. */
  lemma CropOfPasted(canvas: Grid, img: Image, p: Placement)
    requires img.Valid()
    requires 0 <= p.offset.x && p.offset.x + img.width <= p.side && 0 <= p.offset.y && p.offset.y + img.height <= p.side
    requires Composed(canvas, img, p)
    ensures Crop(canvas, p.side, p.offset, img.width, img.height) == img.pixels
  {
    var c := Crop(canvas, p.side, p.offset, img.width, img.height);
    forall j | 0 <= j < img.height
      ensures c[j] == img.pixels[j]
    {
      forall i | 0 <= i < img.width
        ensures c[j][i] == img.pixels[j][i]
      {
        PastedPixel(canvas, img, p, i, j);
      }
    }
  }

  /** One pixel of the pasted rectangle, addressed relative to the offset. */
  lemma PastedPixel(canvas: Grid, img: Image, p: Placement, i: nat, j: nat)
    requires img.Valid()
    requires 0 <= p.offset.x && p.offset.x + img.width <= p.side && 0 <= p.offset.y && p.offset.y + img.height <= p.side
    requires Composed(canvas, img, p)
    requires i < img.width && j < img.height
    ensures canvas[p.offset.y + j][p.offset.x + i] == img.pixels[j][i]
  {
  }

  /** A composed canvas is determined by the image and the placement, so padding the same image twice gives the same pixels. */
  lemma ComposedIsUnique(c1: Grid, c2: Grid, img: Image, p: Placement)
    requires img.Valid()
    requires Composed(c1, img, p) && Composed(c2, img, p)
    ensures c1 == c2
  {
    forall y | 0 <= y < p.side
      ensures c1[y] == c2[y]
    {
      forall x | 0 <= x < p.side
        ensures c1[y][x] == c2[y][x]
      {
      }
    }
  }
}
