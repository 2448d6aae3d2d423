// `convert_to_webp($source, $destination, $mime)`: Imagick if the extension
// is loaded, otherwise GD if it can write WebP, otherwise failure. The image
// libraries are foreign code; what they report is supplied by an `Imaging`
// value, and the model records what it asks of them (the encoder settings,
// the decoder, the quality).

module Converter {
  import opened PhpRuntime
  import opened MimeTypes

  /** The two capability probes: `extension_loaded('imagick')` and
      `function_exists('imagewebp')`. */
  datatype Environment = Environment(imagickLoaded: bool, gdWebp: bool)

  /** What the Imagick branch sets before writing. */
  datatype WebpSettings = WebpSettings(
    format: string, quality: int, lossless: bool, stripMetadata: bool, interlaced: bool)

  const Quality: int := 75

  /** `setImageFormat('webp')`, `setImageCompressionQuality(75)`,
      `webp:lossless` false, `stripImage()`, `INTERLACE_NO`. */
  const ImagickSettings: WebpSettings := WebpSettings("webp", Quality, false, true, false)

  /** A raster held by GD, with whether `imagepalettetotruecolor` was applied. */
  datatype GdImage = GdImage(decoder: Decoder, source: string, truecolor: bool)

  /** What the libraries do with a given source and destination.
      - `imagickWrite(src, dst, settings)`: `new Imagick(src)`, the settings,
        then `writeImage(dst)`; it throws when the image cannot be read or
        written, and nothing in the plugin catches.
      - `decode(d, src)`: whether decoder `d` yields an image (true) or
        `false`; `imagecreatefromstring` throws on an empty file.
      - `gdWrite(img, dst, q)`: the boolean `imagewebp(img, dst, q)` returns. */
  datatype Imaging = Imaging(
    imagickWrite: (string, string, WebpSettings) -> Call<bool>,
    decode: (Decoder, string) -> Call<bool>,
    gdWrite: (GdImage, string, int) -> bool)

  /** The GD branch exactly as written. Under PHP 8 a failed
      `imagecreatefrompng` hands `false` to `imagepalettetotruecolor`, whose
      parameter is typed `GdImage`, so a TypeError is thrown before the
      `if (!$image) return false;` test is reached. */
  function GdConvertAsWritten(im: Imaging, source: string, destination: string, mime: string): (r: Call<bool>)
    ensures GdDecoder(mime).None? ==> r == Returned(false)
    ensures r == Returned(true) ==> GdDecoder(mime).Some? && im.decode(GdDecoder(mime).value, source) == Returned(true)
    ensures mime == "image/png" && im.decode(FromPng, source) == Returned(false) ==> r == Threw
  {
    match GdDecoder(mime)
    case None => Returned(false)
    case Some(d) =>
      match im.decode(d, source)
      case Threw => Threw
      case Returned(decoded) =>
        if !decoded && d == FromPng then Threw
        else if !decoded then Returned(false)
        else Returned(im.gdWrite(GdImage(d, source, d == FromPng), destination, Quality))
  }

  /** The GD branch as its failure test intends: a decode that yields no
      image fails the call, for PNG as for the other decoders. */
  function GdConvert(im: Imaging, source: string, destination: string, mime: string): (r: Call<bool>)
    ensures GdDecoder(mime).None? ==> r == Returned(false)
    ensures r == Returned(true) ==> GdDecoder(mime).Some? && im.decode(GdDecoder(mime).value, source) == Returned(true)
    ensures GdDecoder(mime).Some? && im.decode(GdDecoder(mime).value, source) == Returned(false) ==> r == Returned(false)
  {
    match GdDecoder(mime)
    case None => Returned(false)
    case Some(d) =>
      match im.decode(d, source)
      case Threw => Threw
      case Returned(decoded) =>
        if !decoded then Returned(false)
        else Returned(im.gdWrite(GdImage(d, source, d == FromPng), destination, Quality))
  }

  /** `convert_to_webp` as written: a `writeImage` that returns false falls
      through to the final `return false`. */
  function ConvertToWebpAsWritten(env: Environment, im: Imaging, source: string, destination: string, mime: string): (r: Call<bool>)
    ensures !env.imagickLoaded && !env.gdWebp ==> r == Returned(false)
    ensures env.imagickLoaded ==> r == im.imagickWrite(source, destination, ImagickSettings)
    ensures r == Returned(true) <==> ConvertToWebp(env, im, source, destination, mime) == Returned(true)
  {
    if env.imagickLoaded then im.imagickWrite(source, destination, ImagickSettings)
    else if env.gdWebp then GdConvertAsWritten(im, source, destination, mime)
    else Returned(false)
  }

  /** `convert_to_webp` with the GD branch corrected; the rest of the model uses this one. */
  function ConvertToWebp(env: Environment, im: Imaging, source: string, destination: string, mime: string): (r: Call<bool>)
    ensures !env.imagickLoaded && !env.gdWebp ==> r == Returned(false)
    ensures !env.imagickLoaded && env.gdWebp && GdDecoder(mime).None? ==> r == Returned(false)
  {
    if env.imagickLoaded then im.imagickWrite(source, destination, ImagickSettings)
    else if env.gdWebp then GdConvert(im, source, destination, mime)
    else Returned(false)
  }

  /** With Imagick loaded, GD is never consulted: two library behaviours
      that agree on Imagick give the same result, the write result under
      the fixed settings (quality 75, lossy, metadata stripped, no interlace). */
  lemma ImagickTakesPrecedence(env: Environment, im1: Imaging, im2: Imaging, source: string, destination: string, mime: string)
    requires env.imagickLoaded
    requires im1.imagickWrite == im2.imagickWrite
    ensures ConvertToWebp(env, im1, source, destination, mime) == ConvertToWebp(env, im2, source, destination, mime)
    ensures ConvertToWebp(env, im1, source, destination, mime) == im1.imagickWrite(source, destination, WebpSettings("webp", 75, false, true, false))
  {
  }

  /** Without Imagick, the Imagick behaviour is irrelevant. */
  lemma GdIgnoresImagick(env: Environment, im1: Imaging, im2: Imaging, source: string, destination: string, mime: string)
    requires !env.imagickLoaded
    requires im1.decode == im2.decode && im1.gdWrite == im2.gdWrite
    ensures ConvertToWebp(env, im1, source, destination, mime) == ConvertToWebp(env, im2, source, destination, mime)
  {
  }

  /** In the GD branch TIFF, although on the allow-list, is refused. */
  lemma GdRefusesTiff(env: Environment, im: Imaging, source: string, destination: string)
    requires !env.imagickLoaded && env.gdWebp
    ensures ConvertToWebp(env, im, source, destination, "image/tiff") == Returned(false)
  {
  }

  /** In the GD branch, a decoder that yields no image fails the call
      without writing anything. */
  lemma GdDecodeFailureFails(env: Environment, im: Imaging, source: string, destination: string, mime: string)
    requires !env.imagickLoaded && env.gdWebp
    requires GdDecoder(mime).Some? && im.decode(GdDecoder(mime).value, source) == Returned(false)
    ensures ConvertToWebp(env, im, source, destination, mime) == Returned(false)
  {
  }

  /** In the GD branch, after a successful decode the result is what
      `imagewebp` reports at quality 75, and a PNG raster is converted to
      truecolor first. */
  lemma GdResultIsWriteResult(env: Environment, im: Imaging, source: string, destination: string, mime: string)
    requires !env.imagickLoaded && env.gdWebp
    requires GdDecoder(mime).Some? && im.decode(GdDecoder(mime).value, source) == Returned(true)
    ensures ConvertToWebp(env, im, source, destination, mime)
         == Returned(im.gdWrite(GdImage(GdDecoder(mime).value, source, mime == "image/png"), destination, 75))
  {
  }

  /** Success, in one statement: either Imagick is loaded and wrote the
      file, or GD is the backend, has a decoder for the type, decoded the
      source and wrote the file. */
  lemma ConvertSucceedsIff(env: Environment, im: Imaging, source: string, destination: string, mime: string)
    ensures ConvertToWebp(env, im, source, destination, mime) == Returned(true) <==>
      (env.imagickLoaded && im.imagickWrite(source, destination, ImagickSettings) == Returned(true)) ||
      (!env.imagickLoaded && env.gdWebp && GdDecoder(mime).Some? &&
       im.decode(GdDecoder(mime).value, source) == Returned(true) &&
       im.gdWrite(GdImage(GdDecoder(mime).value, source, mime == "image/png"), destination, Quality))
  {
    PngDecoderOnlyForPng(mime);
  }

  /** A type outside the allow-list never converts in the GD branch. */
  lemma GdRefusesUnlisted(env: Environment, im: Imaging, source: string, destination: string, mime: string)
    requires !env.imagickLoaded && !IsAllowedMime(mime)
    ensures ConvertToWebp(env, im, source, destination, mime) == Returned(false)
  {
    GdDecodesAllowedButTiff(mime);
  }

  /** The written and the corrected dispatch differ only where a PNG
      decode yields no image under GD. */
  lemma AsWrittenDiffersOnlyOnFailedPngDecode(env: Environment, im: Imaging, source: string, destination: string, mime: string)
    ensures ConvertToWebpAsWritten(env, im, source, destination, mime) != ConvertToWebp(env, im, source, destination, mime)
      <==> !env.imagickLoaded && env.gdWebp && mime == "image/png" && im.decode(FromPng, source) == Returned(false)
  {
    PngDecoderOnlyForPng(mime);
  }

  /** The discrepancy on a concrete input: GD only, a PNG that does not decode. */
  lemma FailedPngDecodeThrowsAsWritten()
    ensures
      var env := Environment(false, true);
      var im := Imaging((s, d, w) => Returned(true), (dec, s) => Returned(false), (img, d, q) => true);
      ConvertToWebpAsWritten(env, im, "/uploads/broken.png", "/uploads/broken.webp", "image/png") == Threw &&
      ConvertToWebp(env, im, "/uploads/broken.png", "/uploads/broken.webp", "image/png") == Returned(false)
  {
  }
}
