# Square padding of narrow images — a verified model

`listfilesinf` is a command-line program that walks the current directory,
decodes every JPEG and PNG it finds, and for each image whose aspect ratio
(width / height) is above 2 or below 1/2 writes a square copy: the image is
centred on an opaque white canvas whose side is the image's long side, and
the copy is saved next to the original as `<name without extension>_squared.jpg`
or `.png`.

This project models the part of `main` that decides and builds that copy:

- **Geometry** (`geometry.dfy`): the trigger test over exact integers
  (`w > 2h` or `2w < h`), tied to the exact ratio and the constants
  `maxRatio = 2` and `minRatio = 1/maxRatio`; the canvas side `biggest`, the
  padded axis `paddX` and the offset `dp`, with containment and centring.
- **Canvas** (`canvas.dfy`): an RGBA pixel grid, `image.NewRGBA`,
  `draw.Draw` with operator `draw.Src` (clip to the destination, plain
  replacement), the fill-then-paste composition, and its inverse (cropping
  the pasted rectangle back out gives the source image).
- **FileName** (`filename.dfy`): `filepath.Ext` as the backward scan Go
  performs, `strings.TrimSuffix`, `fileNameWithoutExtension`, and the output
  name `root + stem + "_squared" + ext`.
- **Pipeline** (`pipeline.dfy`): one iteration of the loop over files — skip
  on a decode failure, on an image within the limit, or on an unknown type;
  otherwise the composed square, its output path and its encoding (JPEG at
  quality 90, or PNG).

Two points about the code that the model keeps:

- The threshold is the hard-coded `maxRatio` (2). The `-ratiolimit` flag is
  parsed (listfilesinf.go:32) but never read; the test at
  listfilesinf.go:99 compares against `maxRatio` and `minRatio`, so the
  model has no configurable threshold.
- The offset centres the image, as the comment at listfilesinf.go:4 says:
  lines 121 and 124 compute `biggest/2 - dim/2` on the padded axis, so
  1001×500 gets offset 250 (`Geometry.Place`, `Geometry.PlacementCentred`).

Dimensions are `nat`. At height 0 the integer test agrees with the
program's float32 division: `w/0` is +Inf and triggers, and `0/0` is NaN and
does not.

## Model

| member | source | states |
|---|---|---|
| `Geometry.TriggeredIffRatio` | listfilesinf.go:97-99 | for height > 0, the integer test `Triggered(w, h)` holds exactly when the ratio w/h is above `MaxRatio` (2) or below `MinRatio` (1/2), with strict inequality at both limits; and the wide branch (`paddX` false) is taken exactly when the ratio is above 1 |
| `Geometry.SquareNeverTriggers` | listfilesinf.go:97-99 | the padded square's equal sides never meet the trigger, so an output image fed back in is left alone |
| `Geometry.Place` | listfilesinf.go:102-125 | the canvas side is the larger of width and height; the Y axis is padded exactly when width > height; the offset is 0 on the axis that is not padded; the pasted rectangle starts at a non-negative offset and ends within the canvas on both axes |
| `Geometry.PlacementCentred` | listfilesinf.go:116-125 | on the padded axis, the leading bar (the offset) and the trailing bar are non-negative and add up with the image to the side; they differ by side%2 − dim%2, so by at most one pixel, and are equal exactly when side and dimension have the same parity |
| `Geometry.WideImageExample` | listfilesinf.go:99-125 | 1000×500 is not padded (ratio exactly 2); 1001×500 is, with side 1001, Y-axis bars and offset (0, 250) |
| `Geometry.TallImageExample` | listfilesinf.go:99-125 | 300×900 is padded with side 900, X-axis bars and offset (300, 0); 800×800 is not padded |
| `Canvas.NewRGBA` | listfilesinf.go:111 | the new canvas is a side×side grid |
| `Canvas.DrawSrc` | listfilesinf.go:114-132 | `draw.Draw` with `draw.Src` keeps the destination's size; every pixel inside the rectangle and covered by the aligned source becomes the source colour, and every other pixel keeps its old value |
| `Canvas.Compose` | listfilesinf.go:111-132 | after allocating, filling with white and pasting, the canvas is side×side for the placement `Place` computes; every pixel inside the pasted rectangle is the source pixel at (x − dp.X, y − dp.Y) and every pixel outside it is opaque white |
| `Canvas.CropRecoversSource` | listfilesinf.go:126-132 | cutting the pasted rectangle out of a composed canvas gives back the source image's pixels exactly, so the whole image appears unchanged in the square |
| `Canvas.CropOfPasted` | listfilesinf.go:126-132 | for any placement whose rectangle fits in the square, cropping a composed canvas at the offset gives back the source pixels |
| `Canvas.ComposedIsUnique` | listfilesinf.go:111-132 | two canvases composed from the same image and placement are equal, so padding an image twice gives identical pixels |
| `FileName.ElementStart` | listfilesinf.go:192 | the start of the final path element: no separator from there to the end, and a separator just before it unless it is 0 |
| `FileName.ExtFrom` | listfilesinf.go:192 | the backward scan of `filepath.Ext` gives a suffix of the path that is empty exactly when the scanned part of the final element has no `.`, and otherwise starts at the last `.` of that part |
| `FileName.Ext` | listfilesinf.go:192 | `filepath.Ext` is a suffix of the path; it is "" exactly when the final element has no `.`; otherwise it is a single extension: it starts with `.` and holds no other `.` and no separator |
| `FileName.TrimSuffix` | listfilesinf.go:192 | `strings.TrimSuffix` gives a string that, with the suffix put back, is the input when the input ends with the suffix, and the input unchanged otherwise |
| `FileName.FileNameWithoutExtension` | listfilesinf.go:191-193 | the name without its extension, followed by `Ext` of the name, is the name again; it equals the name exactly when the final element has no `.` |
| `FileName.StripsLastExtensionOnly` | listfilesinf.go:191-193 | for any name followed by one extension (a `.` with no further `.` or separator), removing the extension gives exactly that name back, however many dots it contains |
| `FileName.OneExtensionStripped` | listfilesinf.go:191-193 | "a.b.c" loses only ".c", and "photos.old/pic" is unchanged because the dot is in a directory name |
| `FileName.ExtOfAppended` | listfilesinf.go:134-139 | appending an extension (a `.` followed by no `.` or separator) to any name makes that extension the one `Ext` finds |
| `FileName.FormatExtension` | listfilesinf.go:136-142 | an extension exists exactly for the types "jpeg" and "png": ".jpg" for "jpeg" and ".png" for "png", each a single extension in the sense of `Ext` |
| `FileName.OutputName` | listfilesinf.go:134-142 | an output name exists exactly for types "jpeg" and "png"; its extension is ".jpg" or ".png" accordingly, and without that extension it is the root, the input name without its extension, and "_squared" |
| `Pipeline.ProcessFile` | listfilesinf.go:79-142 | a file is written exactly when it decoded, its ratio triggers and its type is "jpeg" or "png"; then the path is the output name, the encoding is JPEG at quality 90 or PNG to match, and the canvas is the composed square of side max(width, height) |

## Left out

- The directory walk and its `.dat` filter, `os.Open`, both `Seek` calls,
  `os.Create` and the deferred `Close` calls: filesystem plumbing. The model
  takes the file name and the decode result as parameters.
- JPEG and PNG decoding (`image.Decode`, `image.DecodeConfig`) and encoding
  (`jpeg.Encode`, `png.Encode`): library codecs. A decoded image is a width,
  a height and a grid of pixels, with bounds starting at (0, 0) and the
  `DecodeConfig` dimensions equal to the decoded image's. The encoding is an
  `Encoding` value (JPEG with quality 90, or PNG) with the square.
- Conversion of the source's colour model into RGBA while drawing: the
  model takes the source pixels as already-converted RGBA values.
- Geometry.TriggeredIffRatio: the program computes the ratio in float32, so
  very large dimensions near the 2:1 or 1:2 limit (beyond 2^24) may round
  across the limit. The model uses the exact ratio.
- Geometry.Place: uses the exact test `w > h` for the branch on
  `ratio > 1`; float32 rounding of huge, nearly equal dimensions is not modelled.
- Go's 64-bit `int`: dimensions and offsets are unbounded here. The
  decoders' limits keep them far below the wrap-around range.
- Paths use `/` as the only separator, as `filepath` does on Unix. Windows
  separators and volume names are not modelled.
- Flag parsing and all console output (the settings banner, per-file name,
  colour model, type, dimensions, ratio, the padding marker and the encoder
  lines): diagnostics only.
- The panic paths: `os.Open` or `DecodeConfig` failing, the traversal
  failing, and `os.Create` failing (listfilesinf.go:144), which only logs
  at :146 and then hands the nil file to `saveJpeg`/`savePng`, where the
  encoder's write fails and `osFile.Name()` panics at :173/:185, leaving
  every later file unprocessed. The model's `Written` outcome is the
  composed square and its name, not the success of the write.
- Error logging when an encoder fails on a valid file (listfilesinf.go:172-175,
  :184-187): it does not change what is composed or named.
