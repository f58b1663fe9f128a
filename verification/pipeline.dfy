/**
 The per-file step of the main loop, from a decoded image to either a
 skip or the padded square with its output name and encoding.
 */
module Pipeline {
  import opened Options
  import opened Geometry
  import opened Canvas
  import opened FileName

  /** The directory the program walks and writes into. */
  const Root := "./"

  /** The JPEG quality used for padded JPEG images. */
  const JpegQuality := 90

  /** What `image.Decode` answers for a file: the image and its type name ("jpeg", "png"). */
  datatype Decoded = Decoded(image: Image, imageType: string)

  /** How the padded square is written. */
  datatype Encoding = Jpeg(quality: nat) | Png

  /** The result for one file: nothing written, or the square written under `path`. */
  datatype Outcome = Skipped | Written(path: string, encoding: Encoding, canvas: Grid)

  /** The decoded image is padded and written: its ratio triggers and its type has an extension. */
  predicate Pads(d: Decoded) {
    Triggered(d.image.width, d.image.height) && (d.imageType == "jpeg" || d.imageType == "png")
  }

  /**
   `outcome` is the padded copy of `d` read from `file`: written under the
   output name, as JPEG at quality 90 or as PNG to match the type, holding
   the composed square, whose equal sides never trigger padding again.
   */
  predicate WrittenAs(file: string, d: Decoded, outcome: Outcome)
    requires d.image.Valid()
  {
    var p := Place(d.image.width, d.image.height);
    && outcome.Written?
    && OutputName(Root, file, d.imageType) == Some(outcome.path)
    && outcome.encoding == (if d.imageType == "jpeg" then Jpeg(JpegQuality) else Png)
    && Composed(outcome.canvas, d.image, p)
  }

  /**
   One iteration of the loop over files. A file that does not decode, an
   image within the 2:1 limit and an image of any type but "jpeg" or
   "png" are skipped; otherwise the composed square is written next to
   the original under the `_squared` name.
   */
  method ProcessFile(file: string, decoded: Option<Decoded>) returns (outcome: Outcome)
    requires decoded.Some? ==> decoded.value.image.Valid()
    ensures outcome.Written? <==> decoded.Some? && Pads(decoded.value)
    ensures outcome.Written? ==> decoded.Some? && WrittenAs(file, decoded.value, outcome)
  {
    outcome := Skipped;
    if decoded.Some? && Triggered(decoded.value.image.width, decoded.value.image.height) {
      var img := decoded.value.image;
      var canvas, p := Compose(img);
      var path := OutputName(Root, file, decoded.value.imageType);
      if path.Some? {
        var encoding := if decoded.value.imageType == "jpeg" then Jpeg(JpegQuality) else Png;
        outcome := Written(path.value, encoding, canvas);
      }
    }
  }
}
