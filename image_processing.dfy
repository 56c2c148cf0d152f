/** ImageProcessingUtil: validation of an upload's content type and pixel size,
    the downscale planner, and resizing with ImageMagick first and Java's own
    graphics as the fallback. Decoding, ImageMagick and the Java rasteriser are
    not modelled; they are the functions of an ImagingBackends value. */
module ImageProcessing {
  import opened Base

  /** `java.awt.Dimension`. */
  datatype Dimension = Dimension(width: int, height: int)

  /** The size of an image the decoder has read: each side at least one pixel. */
  type ImageSize = d: Dimension | 0 < d.width && 0 < d.height witness Dimension(1, 1)

  /** The settings under `photo.*` that the pipeline reads. Each is a Java
      `Integer` or `String` that may be missing (null). */
  datatype PhotoConfiguration = PhotoConfiguration(
    maxWidth: Option<int>,
    maxHeight: Option<int>,
    maxSize: Option<int>,
    allowedFormats: Option<string>)

  /** What the utility delegates to: `ImageIO.read` (None when it yields no
      image or fails), ImageMagick's `convert -resize WxH` (None when any
      exception escapes it), and drawing the decoded image onto a WxH canvas and
      encoding it with `ImageIO.write` under the given format name. The last
      gives the bytes left in the output buffer (none when no writer handles the
      format, since the `false` that `ImageIO.write` then returns is ignored) or
      the IOException the writer throws. */
  datatype ImagingBackends = ImagingBackends(
    readImage: seq<Byte> -> Option<ImageSize>,
    imageMagick: (seq<Byte>, int, int, string) -> Option<seq<Byte>>,
    drawScaled: (seq<Byte>, int, int, string) -> Result<seq<Byte>>)

  const UnreadableImage: Exception := Other("Unable to read image data")
  const NullConfiguration: Exception := Other("NullPointerException")

  /** getImageDimensions. */
  function GetImageDimensions(b: ImagingBackends, data: seq<Byte>): (r: Result<ImageSize>)
    ensures r.Ok? <==> b.readImage(data).Some?
    ensures r.Ok? ==> r.value == b.readImage(data).value
    ensures r.Err? ==> r.error == UnreadableImage
  {
    match b.readImage(data)
    case None => Err(UnreadableImage)
    case Some(size) => Ok(size)
  }

  predicate IsImageContentType(t: string) {
    t == "image/png" || t == "image/jpg" || t == "image/jpeg"
  }

  /** getFileExtension: "png" for a PNG content type in any letter case, "jpg"
      for everything else, a missing type included. */
  function GetFileExtension(contentType: Option<string>): (r: string)
    ensures r == "png" || r == "jpg"
    ensures r == "png" <==> contentType.Some? && ToLower(contentType.value) == "image/png"
  {
    match contentType
    case None => "jpg"
    case Some(t) =>
      var lower := ToLower(t);
      if lower == "image/png" then "png"
      else if lower == "image/jpg" || lower == "image/jpeg" then "jpg"
      else "jpg"
  }

  /** isValidImageFormat: the content type must be exactly one of the three
      image types, and the configured list, lower-cased, must contain its
      extension as a substring. The list is only read, and so only fails when
      missing, once the content type has passed. */
  function IsValidImageFormat(cfg: PhotoConfiguration, contentType: Option<string>): (r: Result<bool>)
    ensures r.Err? <==> contentType.Some? && IsImageContentType(contentType.value) && cfg.allowedFormats.None?
    ensures r.Err? ==> r.error == NullConfiguration
    ensures r.Ok? ==> (r.value <==>
      contentType.Some? && IsImageContentType(contentType.value) &&
      IsSubstring(if contentType.value == "image/png" then "png" else "jpg", ToLower(cfg.allowedFormats.value)))
  {
    if contentType.None? || !IsImageContentType(contentType.value) then
      Ok(false)
    else if cfg.allowedFormats.None? then
      Err(NullConfiguration)
    else
      assert ToLower("image/png") == "image/png";
      assert ToLower(contentType.value)[6] == contentType.value[6];
      Ok(Contains(ToLower(cfg.allowedFormats.value), GetFileExtension(contentType)))
  }

  /** isValidImageSize: neither side exceeds the configured maximum; a missing
      maximum fails when it is unboxed. */
  function IsValidImageSize(cfg: PhotoConfiguration, width: int, height: int): (r: Result<bool>)
    ensures r.Err? <==> cfg.maxSize.None?
    ensures r.Ok? ==> (r.value <==> Max(width, height) <= cfg.maxSize.value)
  {
    match cfg.maxSize
    case None => Err(NullConfiguration)
    case Some(m) => Ok(width <= m && height <= m)
  }

  function Max(a: int, b: int): (r: int)
    ensures r >= a && r >= b && (r == a || r == b)
  {
    if a >= b then a else b
  }

  /** The factor that brings `side` down to `bound`; none when there is no bound
      (the source's `Double.MAX_VALUE`, which never wins the minimum). */
  function ScaleFor(bound: Option<int>, side: int): Option<real>
    requires side > 0
  {
    match bound
    case None => None
    case Some(m) => Some(m as real / side as real)
  }

  predicate NoShrink(scale: Option<real>) {
    scale.None? || scale.value >= 1.0
  }

  /** `Math.min` of the two factors, at least one of which is present. */
  function MinScale(sw: Option<real>, sh: Option<real>): (s: real)
    requires sw.Some? || sh.Some?
    ensures sw.Some? ==> s <= sw.value
    ensures sh.Some? ==> s <= sh.value
    ensures (sw.Some? && s == sw.value) || (sh.Some? && s == sh.value)
  {
    if sw.None? then sh.value
    else if sh.None? then sw.value
    else if sw.value <= sh.value then sw.value
    else sh.value
  }

  /** `Math.round`: the nearest integer, halves rounded up. */
  function Round(x: real): (r: int)
    ensures r as real - 0.5 <= x < r as real + 0.5
  {
    (x + 0.5).Floor
  }

  /** The image already fits: every configured bound is at least the side it
      limits. */
  predicate FitsWithin(cfg: PhotoConfiguration, size: ImageSize) {
    (cfg.maxWidth.None? || size.width <= cfg.maxWidth.value) &&
    (cfg.maxHeight.None? || size.height <= cfg.maxHeight.value)
  }

  /** The factor calculateNewDimensions scales by, when it scales. */
  function PlanScale(cfg: PhotoConfiguration, size: ImageSize): real
    requires cfg.maxWidth.Some? || cfg.maxHeight.Some?
  {
    MinScale(ScaleFor(cfg.maxWidth, size.width), ScaleFor(cfg.maxHeight, size.height))
  }

  /** A factor is at least one exactly when the bound is at least the side. */
  lemma NoShrinkIff(bound: Option<int>, side: int)
    requires side > 0
    ensures NoShrink(ScaleFor(bound, side)) <==> bound.None? || side <= bound.value
  {
    if bound.Some? {
      DivAtLeastOne(bound.value, side);
    }
  }

  lemma DivAtLeastOne(m: int, w: int)
    requires w > 0
    ensures m as real / w as real >= 1.0 <==> m >= w
  {
    var q := m as real / w as real;
    assert q * w as real == m as real;
    if q >= 1.0 {
      assert q * w as real >= 1.0 * w as real;
    } else {
      assert q * w as real < 1.0 * w as real;
    }
  }

  /** calculateNewDimensions: no plan when no bound is configured or the image
      already fits; otherwise both sides times the smaller of the factors, each
      rounded. */
  function CalculateNewDimensions(cfg: PhotoConfiguration, size: ImageSize): (r: Option<Dimension>)
    ensures r.None? <==> FitsWithin(cfg, size)
    ensures r.Some? ==> PlanScale(cfg, size) < 1.0
    ensures r.Some? ==> r.value == Dimension(
      Round(size.width as real * PlanScale(cfg, size)),
      Round(size.height as real * PlanScale(cfg, size)))
  {
    if cfg.maxWidth.None? && cfg.maxHeight.None? then
      None
    else
      var sw := ScaleFor(cfg.maxWidth, size.width);
      var sh := ScaleFor(cfg.maxHeight, size.height);
      NoShrinkIff(cfg.maxWidth, size.width);
      NoShrinkIff(cfg.maxHeight, size.height);
      if NoShrink(sw) && NoShrink(sh) then
        None
      else
        var scale := PlanScale(cfg, size);
        Some(Dimension(Round(size.width as real * scale), Round(size.height as real * scale)))
  }

  /** Rounding a side scaled by a factor in [0, 1) stays between 0 and the
      side. */
  lemma RoundScaledSide(side: int, scale: real)
    requires 0 < side
    requires 0.0 <= scale < 1.0
    ensures 0 <= Round(side as real * scale) <= side
  {
    ProductBelow(side as real, scale);
    RoundBetween(side as real * scale, side);
  }

  lemma ProductBelow(side: real, scale: real)
    requires side > 0.0 && 0.0 <= scale < 1.0
    ensures 0.0 <= side * scale < side
  {
    assert side * scale < side * 1.0;
  }

  lemma RoundBetween(x: real, n: int)
    requires 0.0 <= x < n as real
    ensures 0 <= Round(x) <= n
  {
  }

  /** Every factor is non-negative when the bounds are. */
  lemma PlanScaleBounds(cfg: PhotoConfiguration, size: ImageSize)
    requires cfg.maxWidth.Some? ==> cfg.maxWidth.value >= 0
    requires cfg.maxHeight.Some? ==> cfg.maxHeight.value >= 0
    requires CalculateNewDimensions(cfg, size).Some?
    ensures 0.0 <= PlanScale(cfg, size) < 1.0
  {
    var sw := ScaleFor(cfg.maxWidth, size.width);
    var sh := ScaleFor(cfg.maxHeight, size.height);
    if sw.Some? { DivNonNegative(cfg.maxWidth.value as real, size.width as real); }
    if sh.Some? { DivNonNegative(cfg.maxHeight.value as real, size.height as real); }
  }

  /** With non-negative bounds, a plan shrinks the image: each side stays
      between 0 and the original, and within its own bound. */
  lemma PlanWithinBounds(cfg: PhotoConfiguration, size: ImageSize)
    requires cfg.maxWidth.Some? ==> cfg.maxWidth.value >= 0
    requires cfg.maxHeight.Some? ==> cfg.maxHeight.value >= 0
    requires CalculateNewDimensions(cfg, size).Some?
    ensures var d := CalculateNewDimensions(cfg, size).value;
      0 <= d.width <= size.width && 0 <= d.height <= size.height &&
      (cfg.maxWidth.Some? ==> d.width <= cfg.maxWidth.value) &&
      (cfg.maxHeight.Some? ==> d.height <= cfg.maxHeight.value)
  {
    var s := PlanScale(cfg, size);
    PlanScaleBounds(cfg, size);
    PlannedSide(size.width, s, cfg.maxWidth);
    PlannedSide(size.height, s, cfg.maxHeight);
  }

  /** One side of a plan: scaled by a factor in [0, 1) that is at most the
      side's own factor, it rounds to between 0 and the side, and to at most
      its bound. */
  lemma PlannedSide(side: int, s: real, bound: Option<int>)
    requires side > 0 && 0.0 <= s < 1.0
    requires bound.Some? ==> s <= bound.value as real / side as real
    ensures 0 <= Round(side as real * s) <= side
    ensures bound.Some? ==> Round(side as real * s) <= bound.value
  {
    RoundScaledSide(side, s);
    if bound.Some? {
      SideWithinBound(side, s, bound.value);
    }
  }

  lemma DivNonNegative(m: real, side: real)
    requires m >= 0.0 && side > 0.0
    ensures m / side >= 0.0
  {
  }

  /** A side scaled by at most its own factor rounds to at most its bound. */
  lemma SideWithinBound(side: int, s: real, m: int)
    requires side > 0 && s <= m as real / side as real
    ensures Round(side as real * s) <= m
  {
    var w := side as real;
    assert w * s <= w * (m as real / w);
    assert w * (m as real / w) == m as real;
  }

  /** The side that decides the factor lands exactly on its bound. */
  lemma PlanMeetsBindingBound(cfg: PhotoConfiguration, size: ImageSize)
    requires CalculateNewDimensions(cfg, size).Some?
    ensures var d := CalculateNewDimensions(cfg, size).value;
      (cfg.maxWidth.Some? && d.width == cfg.maxWidth.value) ||
      (cfg.maxHeight.Some? && d.height == cfg.maxHeight.value)
  {
    var s := PlanScale(cfg, size);
    var sw := ScaleFor(cfg.maxWidth, size.width);
    if sw.Some? && s == sw.value {
      BindingSide(size.width, cfg.maxWidth.value, s);
    } else {
      BindingSide(size.height, cfg.maxHeight.value, s);
    }
  }

  /** Scaling a side by exactly (bound / side), below one, gives the bound. */
  lemma BindingSide(side: int, m: int, s: real)
    requires 0 < side
    requires s == m as real / side as real
    ensures Round(side as real * s) == m
  {
    assert side as real * s == m as real;
    assert Round(m as real) == m;
  }

  /** The aspect ratio survives up to rounding: each side is within half a pixel
      of the exact scaled side, so the cross products of new and old sides
      differ by at most half the sum of the old sides. */
  lemma PlanKeepsAspectRatio(cfg: PhotoConfiguration, size: ImageSize)
    requires CalculateNewDimensions(cfg, size).Some?
    ensures var d := CalculateNewDimensions(cfg, size).value;
      var s := PlanScale(cfg, size);
      -0.5 <= d.width as real - size.width as real * s <= 0.5 &&
      -0.5 <= d.height as real - size.height as real * s <= 0.5 &&
      -(size.width + size.height) as real / 2.0 <= (d.width * size.height - d.height * size.width) as real <= (size.width + size.height) as real / 2.0
  {
    var d := CalculateNewDimensions(cfg, size).value;
    CrossBound(d.width, d.height, size.width, size.height, PlanScale(cfg, size));
  }

  lemma CrossBound(a: int, b: int, w: int, h: int, s: real)
    requires w > 0 && h > 0
    requires -0.5 <= a as real - w as real * s <= 0.5
    requires -0.5 <= b as real - h as real * s <= 0.5
    ensures -(w + h) as real / 2.0 <= (a * h - b * w) as real <= (w + h) as real / 2.0
  {
    RealCrossBound(a as real, b as real, w as real, h as real, s);
    IntCross(a, b, w, h);
  }

  lemma IntCross(a: int, b: int, w: int, h: int)
    ensures (a * h - b * w) as real == a as real * h as real - b as real * w as real
    ensures (w + h) as real == w as real + h as real
  {
    IntProduct(a, h);
    IntProduct(b, w);
  }

  lemma RealCrossBound(A: real, B: real, W: real, H: real, s: real)
    requires W > 0.0 && H > 0.0
    requires -0.5 <= A - W * s <= 0.5
    requires -0.5 <= B - H * s <= 0.5
    ensures -(W + H) / 2.0 <= A * H - B * W <= (W + H) / 2.0
  {
    var ex, ey := A - W * s, B - H * s;
    Cancel(A, B, W, H, s, ex, ey);
    BoundedProduct(ex, H);
    BoundedProduct(ey, W);
    assert -H / 2.0 - W / 2.0 <= ex * H - ey * W <= H / 2.0 + W / 2.0;
  }

  lemma IntProduct(a: int, b: int)
    ensures (a * b) as real == a as real * b as real
  {
  }

  lemma Cancel(A: real, B: real, W: real, H: real, s: real, ex: real, ey: real)
    requires ex == A - W * s && ey == B - H * s
    ensures A * H - B * W == ex * H - ey * W
  {
    assert (A - W * s) * H == A * H - W * s * H;
    assert (B - H * s) * W == B * W - H * s * W;
    assert W * s * H == H * s * W;
  }

  lemma BoundedProduct(e: real, x: real)
    requires -0.5 <= e <= 0.5 && x > 0.0
    ensures -x / 2.0 <= e * x <= x / 2.0
  {
    if e >= 0.0 {
      assert e * x <= 0.5 * x;
    } else {
      assert e * x >= -0.5 * x;
    }
  }

  /** The format name handed to `ImageIO.write`. */
  function ImageIoFormatName(format: string): (r: string)
    ensures format == "jpg" ==> r == "jpeg"
    ensures format != "jpg" ==> r == format
  {
    if format == "jpg" then "jpeg" else format
  }

  /** resizeImageWithJava: decode (failing as getImageDimensions does), make a
      canvas of the target size (a side that is not positive is an
      IllegalArgumentException from BufferedImage), draw and encode. */
  function ResizeImageWithJava(b: ImagingBackends, data: seq<Byte>, width: int, height: int, format: string): (r: Result<seq<Byte>>)
    ensures b.readImage(data).None? ==> r == Err(UnreadableImage)
    ensures b.readImage(data).Some? && (width <= 0 || height <= 0) ==> r.Err? && r.error.IllegalArgument?
    ensures b.readImage(data).Some? && 0 < width && 0 < height ==>
      r == b.drawScaled(data, width, height, ImageIoFormatName(format))
  {
    if b.readImage(data).None? then
      Err(UnreadableImage)
    else if width <= 0 || height <= 0 then
      Err(IllegalArgument("Width (" + IntToString(width) + ") and height (" + IntToString(height) + ") cannot be <= 0"))
    else
      b.drawScaled(data, width, height, ImageIoFormatName(format))
  }

  /** resizeImage: ImageMagick first; any failure there falls back to the Java
      rasteriser, whose exception, if any, is the one the caller sees. */
  function ResizeImage(b: ImagingBackends, data: seq<Byte>, width: int, height: int, contentType: Option<string>): (r: Result<seq<Byte>>)
    ensures var format := GetFileExtension(contentType);
      (b.imageMagick(data, width, height, format).Some? ==> r == Ok(b.imageMagick(data, width, height, format).value)) &&
      (b.imageMagick(data, width, height, format).None? ==> r == ResizeImageWithJava(b, data, width, height, format))
    ensures r.Err? ==> b.imageMagick(data, width, height, GetFileExtension(contentType)).None?
  {
    var format := GetFileExtension(contentType);
    match b.imageMagick(data, width, height, format)
    case Some(out) => Ok(out)
    case None => ResizeImageWithJava(b, data, width, height, format)
  }

  /** The configuration the utility's own tests use. */
  const SampleConfiguration: PhotoConfiguration :=
    PhotoConfiguration(Some(1920), Some(1080), Some(5000), Some("png,jpg,jpeg"))

  lemma SampleFormats()
    ensures IsValidImageFormat(SampleConfiguration, Some("image/png")) == Ok(true)
    ensures IsValidImageFormat(SampleConfiguration, Some("image/jpeg")) == Ok(true)
    ensures IsValidImageFormat(SampleConfiguration, Some("image/gif")) == Ok(false)
  {
    var lower := ToLower("png,jpg,jpeg");
    assert lower == "png,jpg,jpeg";
    assert OccursAt("png", lower, 0);
    assert OccursAt("jpg", lower, 4);
  }

  /** The extension, not the content type, is looked up in the list: a list that
      names only "jpeg" turns JPEG uploads away, and "png" is found inside
      "apng". */
  lemma ListIsMatchedBySubstring()
    ensures IsValidImageFormat(SampleConfiguration.(allowedFormats := Some("png,jpeg")), Some("image/jpeg")) == Ok(false)
    ensures IsValidImageFormat(SampleConfiguration.(allowedFormats := Some("APNG")), Some("image/png")) == Ok(true)
  {
    var lower := ToLower("png,jpeg");
    assert lower == "png,jpeg";
    forall i ensures !OccursAt("jpg", lower, i) {
      if 0 <= i <= |lower| - 3 {
        if i == 4 {
          assert lower[i + 2] == 'e';
        } else {
          assert lower[i] != 'j';
        }
      }
    }
    var upper := ToLower("APNG");
    assert upper == "apng";
    assert OccursAt("png", upper, 1);
  }

  lemma SampleSizes()
    ensures IsValidImageSize(SampleConfiguration, 4000, 3000) == Ok(true)
    ensures IsValidImageSize(SampleConfiguration, 6000, 1000) == Ok(false)
  {
  }

  /** 4000x2000 is planned down to 1920x960 and 3000x2000 to 1620x1080;
      800x600 is left alone. */
  lemma SamplePlans()
    ensures CalculateNewDimensions(SampleConfiguration, Dimension(4000, 2000)) == Some(Dimension(1920, 960))
    ensures CalculateNewDimensions(SampleConfiguration, Dimension(3000, 2000)) == Some(Dimension(1620, 1080))
    ensures CalculateNewDimensions(SampleConfiguration, Dimension(800, 600)) == None
  {
    assert PlanScale(SampleConfiguration, Dimension(4000, 2000)) == 1920.0 / 4000.0;
    assert Round(4000.0 * (1920.0 / 4000.0)) == 1920;
    assert Round(2000.0 * (1920.0 / 4000.0)) == 960;
    assert PlanScale(SampleConfiguration, Dimension(3000, 2000)) == 1080.0 / 2000.0;
    assert Round(3000.0 * (1080.0 / 2000.0)) == 1620;
    assert Round(2000.0 * (1080.0 / 2000.0)) == 1080;
  }

  /** A very wide strip is planned to zero rows, which the Java rasteriser
      refuses; only ImageMagick could still serve it. */
  lemma StripCollapsesToZeroHeight(b: ImagingBackends, data: seq<Byte>)
    requires b.readImage(data).Some?
    requires b.imageMagick(data, 1920, 0, "jpg").None?
    ensures CalculateNewDimensions(SampleConfiguration, Dimension(5000, 1)) == Some(Dimension(1920, 0))
    ensures ResizeImage(b, data, 1920, 0, Some("image/jpeg")).Err?
    ensures ResizeImage(b, data, 1920, 0, Some("image/jpeg")).error.IllegalArgument?
  {
    assert PlanScale(SampleConfiguration, Dimension(5000, 1)) == 1920.0 / 5000.0;
    assert Round(5000.0 * (1920.0 / 5000.0)) == 1920;
    assert Round(1.0 * (1920.0 / 5000.0)) == 0;
    assert GetFileExtension(Some("image/jpeg")) == "jpg";
  }
}
