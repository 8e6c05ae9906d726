/** Client-side resizing before upload (src/lib/utils/imageResize.ts): the
    preset table, the fit-inside-a-box geometry over exact reals with
    `Math.round` as a separate step, the compression policy and the name and
    type of the resized file. Decoding the image, the canvas and its encoder
    are parameters. */
module ImageResize {
  import opened Wrappers
  import opened Js
  import Cloudinary

  // ---------------------------------------------------------------------
  // The preset table
  // ---------------------------------------------------------------------

  datatype ImageFormat = Jpeg | Png | Webp
  {
    function Name(): string
    {
      match this
      case Jpeg => "jpeg"
      case Png => "png"
      case Webp => "webp"
    }
  }

  datatype ResizeOptions = ResizeOptions(width: nat, height: nat, quality: real, format: ImageFormat)

  /** The keys of `IMAGE_SIZES`. */
  datatype SizeName = Large | Medium | Small | Thumbnail | Icon

  /** `IMAGE_SIZES`. */
  function ImageSizes(name: SizeName): (r: ResizeOptions)
    ensures r.format == Jpeg && r.width > 0 && r.height > 0
    ensures r.quality == if name == Thumbnail || name == Icon then 0.7 else 0.8
  {
    match name
    case Large => ResizeOptions(1920, 1080, 0.8, Jpeg)
    case Medium => ResizeOptions(1280, 720, 0.8, Jpeg)
    case Small => ResizeOptions(640, 360, 0.8, Jpeg)
    case Thumbnail => ResizeOptions(320, 180, 0.7, Jpeg)
    case Icon => ResizeOptions(64, 64, 0.7, Jpeg)
  }

  /** The responsive URL that `generateResponsiveUrls` files under a name. */
  function ResponsiveUrlOf(urls: Cloudinary.ResponsiveUrls, name: SizeName): string
  {
    match name
    case Large => urls.large
    case Medium => urls.medium
    case Small => urls.small
    case Thumbnail => urls.thumbnail
    case Icon => urls.icon
  }

  /** Every entry of the resize table has the width and height of the
      host-side preset of the same name. */
  lemma ImageSizesMatchResponsivePresets(u: Cloudinary.Uploader, publicId: string, name: SizeName)
    ensures ResponsiveUrlOf(u.GenerateResponsiveUrls(publicId), name)
            == u.TransformationUrl(publicId, Cloudinary.FillPreset(ImageSizes(name).width, ImageSizes(name).height))
  {
    match name
    case Large =>
    case Medium =>
    case Small =>
    case Thumbnail =>
    case Icon =>
  }

  // ---------------------------------------------------------------------
  // Geometry
  // ---------------------------------------------------------------------

  function Min(a: real, b: real): real
  {
    if a <= b then a else b
  }

  /** The factor that fits an `originalWidth` x `originalHeight` image inside
      a `maxWidth` x `maxHeight` box: the smaller of the two axis ratios. */
  function FitScale(originalWidth: nat, originalHeight: nat, maxWidth: nat, maxHeight: nat): real
    requires originalWidth > 0 && originalHeight > 0
  {
    Min(maxWidth as real / originalWidth as real, maxHeight as real / originalHeight as real)
  }

  /** The fitted size before rounding, with `k` the aspect ratio
      `originalWidth / originalHeight`. When the box is relatively taller than
      the image (`maxWidth <= maxHeight * k`), the image takes the full box
      width and the height `maxWidth / k`; otherwise the full box height and
      the width `maxHeight * k`. */
  function Unrounded(originalWidth: nat, originalHeight: nat, maxWidth: nat, maxHeight: nat): (real, real)
    requires originalWidth > 0 && originalHeight > 0
  {
    var k, mw, mh := originalWidth as real / originalHeight as real, maxWidth as real, maxHeight as real;
    if mw <= mh * k then (mw, mw / k) else (mh * k, mh)
  }

  /** What `calculateDimensions` returns: the fitted size, each side
      rounded. */
  function FittedSize(originalWidth: nat, originalHeight: nat, maxWidth: nat, maxHeight: nat): (int, int)
    requires originalWidth > 0 && originalHeight > 0
  {
    var u := Unrounded(originalWidth, originalHeight, maxWidth, maxHeight);
    (Round(u.0), Round(u.1))
  }

  /** The fitted size is the original scaled by `FitScale`. */
  lemma UnroundedIsMinScale(originalWidth: nat, originalHeight: nat, maxWidth: nat, maxHeight: nat)
    requires originalWidth > 0 && originalHeight > 0
    ensures var u, s := Unrounded(originalWidth, originalHeight, maxWidth, maxHeight),
                        FitScale(originalWidth, originalHeight, maxWidth, maxHeight);
      u.0 == s * originalWidth as real && u.1 == s * originalHeight as real
  {
    var ow, oh, mw, mh := originalWidth as real, originalHeight as real, maxWidth as real, maxHeight as real;
    RatioCross(ow, oh, mw, mh);
    CrossLe(mw, ow, mh, oh);
    MulDivCancel(mw, ow);
    MulDivCancel(mh, oh);
    DivMulAssoc(mw, oh, ow);
    DivMulAssoc(mh, ow, oh);
  }

  /** The ratio form of the fitted size against its cross-multiplied form. */
  lemma RatioCross(ow: real, oh: real, mw: real, mh: real)
    requires ow > 0.0 && oh > 0.0
    ensures mw <= mh * (ow / oh) <==> mw * oh <= mh * ow
    ensures mw / (ow / oh) == mw * oh / ow && mh * (ow / oh) == mh * ow / oh
  {
    MulRatio(mh, ow, oh);
    LeDiv(mw, mh * ow, oh);
    DivByRatio(mw, ow, oh);
  }

  /** `calculateDimensions`: try the full box width (landscape) or height
      (portrait and square), derive the other side from the aspect ratio,
      and fall back to the other side of the box when that overflows. */
  method CalculateDimensions(originalWidth: nat, originalHeight: nat, maxWidth: nat, maxHeight: nat)
      returns (width: int, height: int)
    requires originalWidth > 0 && originalHeight > 0
    ensures (width, height) == FittedSize(originalWidth, originalHeight, maxWidth, maxHeight)
  {
    var mw, mh := maxWidth as real, maxHeight as real;
    var aspectRatio := originalWidth as real / originalHeight as real;
    var w := mw;
    var h := mh;
    if originalWidth > originalHeight {
      h := w / aspectRatio;
      if h > mh {
        h := mh;
        w := h * aspectRatio;
      }
    } else {
      w := h * aspectRatio;
      if w > mw {
        w := mw;
        h := w / aspectRatio;
      }
    }
    BranchIsFit(originalWidth, originalHeight, maxWidth, maxHeight, w, h);
    width := Round(w);
    height := Round(h);
  }

  /** Each of the four ways `calculateDimensions` can end gives the fitted
      size. */
  lemma BranchIsFit(originalWidth: nat, originalHeight: nat, maxWidth: nat, maxHeight: nat, w: real, h: real)
    requires originalWidth > 0 && originalHeight > 0
    requires var k, mw, mh := originalWidth as real / originalHeight as real, maxWidth as real, maxHeight as real;
      || (w == mw && h == mw / k && !(h > mh))
      || (w == mh * k && h == mh && mw / k > mh)
      || (w == mh * k && h == mh && !(w > mw))
      || (w == mw && h == mw / k && mh * k > mw)
    ensures var u := Unrounded(originalWidth, originalHeight, maxWidth, maxHeight);
      w == u.0 && h == u.1
  {
    var k, mw, mh := originalWidth as real / originalHeight as real, maxWidth as real, maxHeight as real;
    DivLe(mw, k, mh);
    if mw == mh * k {
      MulThenDiv(mh, k);
    }
  }

  lemma MulThenDiv(x: real, b: real)
    requires b > 0.0
    ensures x * b / b == x
  {
  }

  /** Before rounding, the fitted size keeps the original aspect ratio, lies
      inside the box and touches it. */
  lemma FitsInsideBoxExact(originalWidth: nat, originalHeight: nat, maxWidth: nat, maxHeight: nat)
    requires originalWidth > 0 && originalHeight > 0
    ensures var u := Unrounded(originalWidth, originalHeight, maxWidth, maxHeight);
      && u.0 == u.1 * (originalWidth as real / originalHeight as real)
      && u.0 <= maxWidth as real && u.1 <= maxHeight as real
      && (u.0 == maxWidth as real || u.1 == maxHeight as real)
  {
    var k, mw, mh := originalWidth as real / originalHeight as real, maxWidth as real, maxHeight as real;
    if mw <= mh * k {
      DivLe(mw, k, mh);
      MulDivCancel(mw, k);
    }
  }

  /** After rounding, the fitted size still lies inside the box and touches
      it, since the box sides are integers. */
  lemma FitsInsideBox(originalWidth: nat, originalHeight: nat, maxWidth: nat, maxHeight: nat)
    requires originalWidth > 0 && originalHeight > 0
    ensures var r := FittedSize(originalWidth, originalHeight, maxWidth, maxHeight);
      && 0 <= r.0 <= maxWidth && 0 <= r.1 <= maxHeight
      && (r.0 == maxWidth || r.1 == maxHeight)
  {
    var u := Unrounded(originalWidth, originalHeight, maxWidth, maxHeight);
    FitsInsideBoxExact(originalWidth, originalHeight, maxWidth, maxHeight);
    RoundWhole(maxWidth);
    RoundWhole(maxHeight);
    RoundBelow(u.0, maxWidth);
    RoundBelow(u.1, maxHeight);
  }

  /** Landscape rule: the width is the box width unless the height derived
      from it, `maxWidth / k` with `k` the aspect ratio, would overflow.
      Portrait rule: the height is the box height unless the width derived
      from it, `maxHeight * k`, would overflow. Both hold whatever the
      orientation, which only decides the side the computation tries
      first. */
  lemma SideRule(originalWidth: nat, originalHeight: nat, maxWidth: nat, maxHeight: nat)
    requires originalWidth > 0 && originalHeight > 0
    ensures var r := FittedSize(originalWidth, originalHeight, maxWidth, maxHeight);
            var k, mw, mh := originalWidth as real / originalHeight as real, maxWidth as real, maxHeight as real;
      && (mw / k <= mh ==> r.0 == maxWidth && r.1 == Round(mw / k))
      && (mw / k > mh ==> r.1 == maxHeight && r.0 == Round(mh * k))
      && (mh * k <= mw ==> r.1 == maxHeight && r.0 == Round(mh * k))
      && (mh * k > mw ==> r.0 == maxWidth && r.1 == Round(mw / k))
  {
    var k, mw, mh := originalWidth as real / originalHeight as real, maxWidth as real, maxHeight as real;
    DivLe(mw, k, mh);
    RoundWhole(maxWidth);
    RoundWhole(maxHeight);
    if mw == mh * k {
      MulThenDiv(mh, k);
    }
  }

  /** The result depends on the original only through its aspect ratio. */
  lemma AspectRatioOnly(ow1: nat, oh1: nat, ow2: nat, oh2: nat, maxWidth: nat, maxHeight: nat)
    requires ow1 > 0 && oh1 > 0 && ow2 > 0 && oh2 > 0
    requires ow1 * oh2 == ow2 * oh1
    ensures FittedSize(ow1, oh1, maxWidth, maxHeight).0 == FittedSize(ow2, oh2, maxWidth, maxHeight).0
    ensures FittedSize(ow1, oh1, maxWidth, maxHeight).1 == FittedSize(ow2, oh2, maxWidth, maxHeight).1
  {
    var k := SameRatio(ow1, oh1, ow2, oh2);
  }

  /** Cross-multiplied equal sides give one aspect ratio. */
  lemma SameRatio(ow1: nat, oh1: nat, ow2: nat, oh2: nat) returns (k: real)
    requires ow1 > 0 && oh1 > 0 && ow2 > 0 && oh2 > 0
    requires ow1 * oh2 == ow2 * oh1
    ensures k == ow1 as real / oh1 as real && k == ow2 as real / oh2 as real
  {
    var a1, b1, a2, b2 := ow1 as real, oh1 as real, ow2 as real, oh2 as real;
    assert a1 * b2 == a2 * b1;
    CrossLe(a1, b1, a2, b2);
    CrossLe(a2, b2, a1, b1);
    k := a1 / b1;
  }

  /** There is no guard against enlarging: a source that fits inside the box
      comes out at least as large on both sides. */
  lemma SmallSourcesScaleUp(originalWidth: nat, originalHeight: nat, maxWidth: nat, maxHeight: nat)
    requires originalWidth > 0 && originalHeight > 0
    requires originalWidth <= maxWidth && originalHeight <= maxHeight
    ensures var r := FittedSize(originalWidth, originalHeight, maxWidth, maxHeight);
      originalWidth <= r.0 && originalHeight <= r.1
  {
    var ow, oh, mw, mh := originalWidth as real, originalHeight as real, maxWidth as real, maxHeight as real;
    var s := FitScale(originalWidth, originalHeight, maxWidth, maxHeight);
    var u := Unrounded(originalWidth, originalHeight, maxWidth, maxHeight);
    UnroundedIsMinScale(originalWidth, originalHeight, maxWidth, maxHeight);
    LeDiv(1.0, mw, ow);
    LeDiv(1.0, mh, oh);
    assert 1.0 <= s;
    Enlarges(s, ow);
    Enlarges(s, oh);
    RoundAbove(u.0, originalWidth);
    RoundAbove(u.1, originalHeight);
  }

  lemma Enlarges(s: real, x: real)
    requires 1.0 <= s && 0.0 <= x
    ensures x <= s * x
  {
    assert s * x - x == (s - 1.0) * x;
  }

  /** A whole number rounds to itself. */
  lemma RoundWhole(n: int)
    ensures Round(n as real) == n
  {
  }

  /** A value at least an integer rounds to at least that integer. */
  lemma RoundAbove(x: real, bound: int)
    requires bound as real <= x
    ensures bound <= Round(x)
  {
  }

  /** Rounding moves each side by at most one half. */
  lemma RoundingError(originalWidth: nat, originalHeight: nat, maxWidth: nat, maxHeight: nat)
    requires originalWidth > 0 && originalHeight > 0
    ensures var r := FittedSize(originalWidth, originalHeight, maxWidth, maxHeight);
            var u := Unrounded(originalWidth, originalHeight, maxWidth, maxHeight);
      && u.0 - 0.5 < r.0 as real <= u.0 + 0.5
      && u.1 - 0.5 < r.1 as real <= u.1 + 0.5
  {
  }

  // ---------------------------------------------------------------------
  // Exact real arithmetic used by the geometry
  // ---------------------------------------------------------------------

  lemma MulDivCancel(x: real, b: real)
    requires b > 0.0
    ensures x / b * b == x && b * (x / b) == x
  {
  }

  lemma DivMulAssoc(x: real, y: real, b: real)
    requires b > 0.0
    ensures x / b * y == x * y / b
  {
  }

  lemma DivByRatio(x: real, a: real, b: real)
    requires a > 0.0 && b > 0.0
    ensures x / (a / b) == x * b / a
  {
  }

  lemma MulRatio(x: real, a: real, b: real)
    requires b > 0.0
    ensures x * (a / b) == x * a / b
  {
  }

  lemma DivLe(x: real, b: real, c: real)
    requires b > 0.0
    ensures x / b <= c <==> x <= c * b
  {
    MulDivCancel(x, b);
    if x / b <= c { assert x / b * b <= c * b; }
    if x <= c * b { assert x / b * b <= c * b; }
  }

  lemma LeDiv(c: real, x: real, b: real)
    requires b > 0.0
    ensures c <= x / b <==> c * b <= x
  {
    MulDivCancel(x, b);
    if c <= x / b { assert c * b <= x / b * b; }
    if c * b <= x { assert c * b <= x / b * b; }
  }

  lemma CrossLe(a: real, b: real, c: real, d: real)
    requires b > 0.0 && d > 0.0
    ensures a / b <= c / d <==> a * d <= c * b
  {
    DivLe(a, b, c / d);
    DivMulAssoc(c, b, d);
    LeDiv(a, c * b, d);
  }

  // ---------------------------------------------------------------------
  // Resizing and the compression policy
  // ---------------------------------------------------------------------

  const LoadFailure := "Failed to load image"
  const ContextFailure := "Could not get canvas context"
  const BlobFailure := "Failed to create blob"

  /** A drawn-and-encoded canvas: the encoder is asked for the pixel size, the
      MIME type and the quality, and yields a blob or `null`. */
  type Encoder = (int, int, string, real) -> Option<seq<bv8>>

  /** `resizeImage`. `loaded` is what decoding the file gave (its pixel size,
      or `None` when `onerror` fires), `hasContext` whether the canvas gave a
      2-D context. The resized file is named `resized_<name>` and typed
      `image/<format>`, and carries the blob encoded at the fitted size. */
  function ResizeImage(file: File, options: ResizeOptions, loaded: Option<(nat, nat)>, hasContext: bool, toBlob: Encoder)
    : (r: Result<File>)
    requires loaded.Some? ==> loaded.value.0 > 0 && loaded.value.1 > 0
    ensures loaded.None? ==> r == Thrown(LoadFailure)
    ensures loaded.Some? && !hasContext ==> r == Thrown(ContextFailure)
    ensures r.Thrown? ==> r.message in {LoadFailure, ContextFailure, BlobFailure}
    ensures r.Ok? ==>
      && loaded.Some? && hasContext
      && var (w, h) := FittedSize(loaded.value.0, loaded.value.1, options.width, options.height);
         var blob := toBlob(w, h, "image/" + options.format.Name(), options.quality);
         blob.Some? && r.value == File("resized_" + file.name, "image/" + options.format.Name(), blob.value)
    ensures loaded.Some? && hasContext ==>
      var (w, h) := FittedSize(loaded.value.0, loaded.value.1, options.width, options.height);
      var blob := toBlob(w, h, "image/" + options.format.Name(), options.quality);
      && (blob.None? ==> r == Thrown(BlobFailure))
      && (blob.Some? ==> r == Ok(File("resized_" + file.name, "image/" + options.format.Name(), blob.value)))
  {
    match loaded
    case None => Thrown(LoadFailure)
    case Some((imgWidth, imgHeight)) =>
      var (width, height) := FittedSize(imgWidth, imgHeight, options.width, options.height);
      if !hasContext then Thrown(ContextFailure)
      else
        var mimeType := "image/" + options.format.Name();
        match toBlob(width, height, mimeType, options.quality)
        case None => Thrown(BlobFailure)
        case Some(blob) => Ok(File("resized_" + file.name, mimeType, blob))
  }

  const CompressThreshold: nat := 1024 * 1024

  /** The preset `compressImageBeforeUpload` resizes to: `medium` for the
      target `'medium'`, which is also the default, and `small` otherwise. */
  function CompressionPreset(targetSize: Option<string>): (r: ResizeOptions)
    ensures targetSize == None || targetSize == Some("medium") ==> r == ImageSizes(Medium)
    ensures targetSize != None && targetSize != Some("medium") ==> r == ImageSizes(Small)
  {
    var target := OptionOr(targetSize, "medium");
    if target == "medium" then ImageSizes(Medium) else ImageSizes(Small)
  }

  /** `compressImageBeforeUpload`: files under 1 MiB come back as they are;
      larger ones are resized to the chosen preset, and a failed resize
      gives the original back. */
  function CompressImageBeforeUpload(file: File, targetSize: Option<string>, loaded: Option<(nat, nat)>, hasContext: bool, toBlob: Encoder)
    : (r: File)
    requires loaded.Some? ==> loaded.value.0 > 0 && loaded.value.1 > 0
    ensures file.Size() < 1048576 ==> r == file
    ensures r == file || (r.name == "resized_" + file.name && r.mimeType == "image/jpeg")
  {
    if file.Size() < CompressThreshold then file
    else
      match ResizeImage(file, CompressionPreset(targetSize), loaded, hasContext, toBlob)
      case Ok(resized) => resized
      case Thrown(_) => file
  }

  /** Files of 1 MiB or more go through resizing: the result is the resized
      file when resizing succeeds and the original when it throws. */
  lemma CompressionPolicy(file: File, targetSize: Option<string>, loaded: Option<(nat, nat)>, hasContext: bool, toBlob: Encoder)
    requires loaded.Some? ==> loaded.value.0 > 0 && loaded.value.1 > 0
    requires file.Size() >= 1048576
    ensures var resized := ResizeImage(file, CompressionPreset(targetSize), loaded, hasContext, toBlob);
            var r := CompressImageBeforeUpload(file, targetSize, loaded, hasContext, toBlob);
      && (resized.Thrown? ==> r == file)
      && (resized.Ok? ==> r == resized.value && r != file && r.name == "resized_" + file.name)
  {
    var resized := ResizeImage(file, CompressionPreset(targetSize), loaded, hasContext, toBlob);
    if resized.Ok? {
      assert |resized.value.name| == |"resized_"| + |file.name|;
    }
  }

  /** `generateFolderPath` of this module is the one of the upload layer. */
  function GenerateFolderPath(model: string, entitySlug: string): (r: string)
    ensures r == Cloudinary.GenerateFolderPath(model, entitySlug)
  {
    model + "/" + entitySlug
  }
}
