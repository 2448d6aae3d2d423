// The plugin's allow-list of source media types, and the choice of GD
// decoder that `convert_to_webp` makes from the media type.

module MimeTypes {
  import opened PhpRuntime

  /** The six types the upload filter and both admin handlers accept. The
      list is compared with `in_array`; as none of its entries is a numeric
      string, PHP's loose comparison between two strings is plain equality,
      so the test is exact and case-sensitive. */
  const AllowedMimes: seq<string> :=
    ["image/jpeg", "image/png", "image/gif", "image/bmp", "image/tiff", "image/x-icon"]

  predicate IsAllowedMime(mime: string)
    ensures IsAllowedMime(mime) ==> |mime| > 6 && mime[..6] == "image/"
  {
    mime in AllowedMimes
  }

  /** `mime_content_type` yields a type or `false`; `in_array(false, ...)`
      is false against a list of non-empty strings. */
  predicate IsAllowedSniffed(mime: Option<string>) {
    mime.Some? && IsAllowedMime(mime.value)
  }

  /** The decoders of the GD branch: `imagecreatefromjpeg`, `...png`,
      `...gif`, `...bmp`, and `imagecreatefromstring` for icons. */
  datatype Decoder = FromJpeg | FromPng | FromGif | FromBmp | FromString

  /** The `switch ($mime)` of the GD branch; `None` is its `default`. */
  function GdDecoder(mime: string): (d: Option<Decoder>)
    ensures d.Some? ==> IsAllowedMime(mime)
    ensures d == Some(FromPng) ==> mime == "image/png"
  {
    match mime
    case "image/jpeg" => Some(FromJpeg)
    case "image/png" => Some(FromPng)
    case "image/gif" => Some(FromGif)
    case "image/bmp" => Some(FromBmp)
    case "image/x-icon" => Some(FromString)
    case _ => None
  }

  /** The allow-list is exactly the six literal types. */
  lemma AllowListIsExact(mime: string)
    ensures IsAllowedMime(mime) <==>
      mime == "image/jpeg" || mime == "image/png" || mime == "image/gif" ||
      mime == "image/bmp" || mime == "image/tiff" || mime == "image/x-icon"
  {
  }

  /** Neither a differently cased type nor WebP itself is accepted. */
  lemma AllowListRejections()
    ensures !IsAllowedMime("IMAGE/JPEG") && !IsAllowedMime("Image/Png")
    ensures !IsAllowedMime("image/webp") && !IsAllowedMime("image/svg+xml")
    ensures !IsAllowedMime("image/jpg") && !IsAllowedMime("")
    ensures !IsAllowedSniffed(None)
  {
  }

  /** GD has a decoder for exactly the allowed types other than TIFF. */
  lemma GdDecodesAllowedButTiff(mime: string)
    ensures GdDecoder(mime).Some? <==> IsAllowedMime(mime) && mime != "image/tiff"
  {
  }

  /** Only PNG sources get the palette-to-truecolor step. */
  lemma PngDecoderOnlyForPng(mime: string)
    ensures GdDecoder(mime) == Some(FromPng) <==> mime == "image/png"
  {
  }
}
