/**
 The integer geometry in the middle of `main`: the aspect-ratio test that
 decides whether an image is padded, and the side and placement of the
 square canvas it is padded into.
 */
module Geometry {

  /** `maxRatio`, hard-coded to 2; the parsed `-ratiolimit` flag never reaches the test. */
  const MaxRatio: real := 2.0

  /** `minRatio`, the inverse of `MaxRatio`. */
  const MinRatio: real := 1.0 / MaxRatio

  /** A point of the image package; coordinates may be negative. */
  datatype Point = Point(x: int, y: int) {
    function Add(q: Point): Point {
      Point(x + q.x, y + q.y)
    }
  }

  /** The exact value of `width / height`. */
  function Ratio(w: nat, h: nat): real
    requires h > 0
  {
    w as real / h as real
  }

  /**
   The trigger test `ratio > maxRatio || ratio < minRatio`, written over
   integers: `w / h > 2` is `w > 2h` and `w / h < 1/2` is `2w < h`.
   */
  predicate Triggered(w: nat, h: nat) {
    w > 2 * h || 2 * w < h
  }

  /** Which axis receives the padding bars (`paddX` true is `PadX`). */
  datatype Axis = PadX | PadY

  /** The square canvas side (`biggest`), the padded axis and the offset `dp`. */
  datatype Placement = Placement(side: nat, axis: Axis, offset: Point)

  /**
   The placement `main` computes for a `w` by `h` image. Both operands of
   each `/ 2` are non-negative, so Go's truncating division and Dafny's
   agree.
   */
  function Place(w: nat, h: nat): (p: Placement)
    ensures p.side >= w && p.side >= h && (p.side == w || p.side == h)
    ensures p.axis == PadY <==> w > h
    ensures p.axis == PadY ==> p.offset.x == 0
    ensures p.axis == PadX ==> p.offset.y == 0
    ensures 0 <= p.offset.x && p.offset.x + w <= p.side
    ensures 0 <= p.offset.y && p.offset.y + h <= p.side
  {
    var wide := w > h;
    var biggest := if wide then w else h;
    if !wide then
      Placement(biggest, PadX, Point(biggest / 2 - w / 2, 0))
    else
      Placement(biggest, PadY, Point(0, biggest / 2 - h / 2))
  }

  /** The image's extent along the padded axis. */
  function PaddedLength(w: nat, h: nat): nat {
    if Place(w, h).axis == PadX then w else h
  }

  /** The bar before the image on the padded axis: the offset along that axis. */
  function LeadingMargin(w: nat, h: nat): int {
    var p := Place(w, h);
    if p.axis == PadX then p.offset.x else p.offset.y
  }

  /** The bar after the image on the padded axis. */
  function TrailingMargin(w: nat, h: nat): int {
    Place(w, h).side - LeadingMargin(w, h) - PaddedLength(w, h)
  }

  /** The trigger and the axis choice agree with the exact ratio and its two limits. */
  lemma TriggeredIffRatio(w: nat, h: nat)
    requires h > 0
    ensures Triggered(w, h) <==> Ratio(w, h) > MaxRatio || Ratio(w, h) < MinRatio
    ensures Place(w, h).axis == PadY <==> Ratio(w, h) > 1.0
  {
    var wr, hr := w as real, h as real;
    QuotientCompare(wr, hr, 2.0);
    QuotientCompare(wr, hr, 0.5);
    QuotientCompare(wr, hr, 1.0);
    assert MinRatio == 0.5;
    assert w > 2 * h <==> wr > 2.0 * hr;
    assert 2 * w < h <==> wr < 0.5 * hr;
  }

  /** The padded square has ratio 1, so running the program over its own output pads nothing a second time. */
  lemma SquareNeverTriggers(w: nat, h: nat)
    ensures !Triggered(Place(w, h).side, Place(w, h).side)
  {
  }

  /** Comparing a quotient with `c` is comparing the dividend with `c` times the positive divisor. */
  lemma QuotientCompare(a: real, d: real, c: real)
    requires d > 0.0
    ensures a / d > c <==> a > c * d
    ensures a / d < c <==> a < c * d
  {
  }

  /**
   The image is centred on the padded axis: both bars are non-negative,
   they differ by at most one pixel, and they are equal exactly when the
   side and the padded length have the same parity.
   */
  lemma PlacementCentred(w: nat, h: nat)
    ensures 0 <= LeadingMargin(w, h) && 0 <= TrailingMargin(w, h)
    ensures LeadingMargin(w, h) + PaddedLength(w, h) + TrailingMargin(w, h) == Place(w, h).side
    ensures TrailingMargin(w, h) - LeadingMargin(w, h) == Place(w, h).side % 2 - PaddedLength(w, h) % 2
    ensures -1 <= TrailingMargin(w, h) - LeadingMargin(w, h) <= 1
    ensures TrailingMargin(w, h) == LeadingMargin(w, h) <==> Place(w, h).side % 2 == PaddedLength(w, h) % 2
  {
  }

  /** A 2:1 image is left alone; one pixel wider and it gets top and bottom bars. */
  lemma WideImageExample()
    ensures !Triggered(1000, 500)
    ensures Triggered(1001, 500)
    ensures Place(1001, 500) == Placement(1001, PadY, Point(0, 250))
  {
  }

  /** A 1:3 image gets left and right bars; a square image is left alone. */
  lemma TallImageExample()
    ensures Triggered(300, 900)
    ensures Place(300, 900) == Placement(900, PadX, Point(300, 0))
    ensures !Triggered(800, 800)
  {
  }
}
