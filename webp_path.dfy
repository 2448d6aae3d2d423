// Destination of a conversion: the pattern `\.(jpe?g|png|gif|bmp|tiff|ico)$`
// with the `i` flag, replaced by `.webp`. It is applied to file paths and to
// URLs alike.

module WebpPath {
  import opened PhpRuntime

  /** The alternatives of the pattern, with `jpe?g` spelled out. Their order
      does not matter: at most one of them matches a path (`MatchIsUnique`). */
  const ImageExtensions: seq<string> := ["jpg", "jpeg", "png", "gif", "bmp", "tiff", "ico"]

  const WebpSuffix: string := ".webp"

  /** `p` ends in a dot followed by `ext`, letters compared without regard
      to ASCII case. */
  predicate EndsWithExtension(p: string, ext: string) {
    |p| > |ext| && p[|p| - |ext| - 1] == '.' && AsciiLowerString(p[|p| - |ext|..]) == ext
  }

  predicate HasImageExtension(p: string) {
    exists ext | ext in ImageExtensions :: EndsWithExtension(p, ext)
  }

  /** The first alternative of `exts` that matches at the end of `p`. */
  function FirstMatch(p: string, exts: seq<string>): (m: Option<string>)
    ensures m.Some? ==> |m.value| < |p|
  {
    if exts == [] then None
    else if EndsWithExtension(p, exts[0]) then Some(exts[0])
    else FirstMatch(p, exts[1..])
  }

  /** The first match is one of the alternatives and does match; when there
      is none, no alternative matches. */
  lemma {:induction false} FirstMatchFinds(p: string, exts: seq<string>)
    ensures var m := FirstMatch(p, exts);
      && (m.Some? ==> m.value in exts && EndsWithExtension(p, m.value))
      && (m.None? ==> forall ext | ext in exts :: !EndsWithExtension(p, ext))
  {
    if exts != [] && !EndsWithExtension(p, exts[0]) {
      FirstMatchFinds(p, exts[1..]);
      assert forall ext | ext in exts :: ext == exts[0] || ext in exts[1..];
    }
  }

  /** `preg_replace('/\.(jpe?g|png|gif|bmp|tiff|ico)$/i', '.webp', p)`. */
  function Derive(p: string): (r: string)
    ensures r == p || (|WebpSuffix| <= |r| && r[|r| - |WebpSuffix|..] == WebpSuffix)
  {
    match FirstMatch(p, ImageExtensions)
    case Some(ext) => p[..|p| - |ext| - 1] + WebpSuffix
    case None => p
  }

  /** A path with one of the seven extensions keeps everything before the
      dot that starts that extension, and only that extension is replaced
      by `.webp`; any other path is returned as it is. */
  lemma DeriveShape(p: string)
    ensures var r := Derive(p);
      if HasImageExtension(p) then
        && |WebpSuffix| <= |r| < |p| + |WebpSuffix|
        && r[|r| - |WebpSuffix|..] == WebpSuffix
        && r[..|r| - |WebpSuffix|] == p[..|r| - |WebpSuffix|]
        && p[|r| - |WebpSuffix|] == '.'
        && AsciiLowerString(p[|r| - |WebpSuffix| + 1..]) in ImageExtensions
      else r == p
  {
    FirstMatchFinds(p, ImageExtensions);
  }

  /** Every extension of the pattern is three or four letters, none of them a dot. */
  lemma ExtensionShapes(ext: string)
    requires ext in ImageExtensions
    ensures |ext| == 3 || |ext| == 4
    ensures |ext| == 4 ==> ext == "jpeg" || ext == "tiff"
    ensures forall k | 0 <= k < |ext| :: 'a' <= ext[k] <= 'z'
  {
  }

  /** At most one alternative can match a given path: the match starts at
      the path's last dot. */
  lemma {:induction false} MatchIsUnique(p: string, e1: string, e2: string)
    requires e1 in ImageExtensions && e2 in ImageExtensions
    requires EndsWithExtension(p, e1) && EndsWithExtension(p, e2)
    ensures e1 == e2
  {
    ExtensionShapes(e1);
    ExtensionShapes(e2);
  }

  /** A path whose last dot is followed by one of the seven extensions, in
      any case, keeps its stem and gets the extension `.webp`. */
  lemma DeriveReplacesExtension(stem: string, ext: string)
    requires AsciiLowerString(ext) in ImageExtensions
    ensures Derive(stem + "." + ext) == stem + WebpSuffix
  {
    var p := stem + "." + ext;
    var e := AsciiLowerString(ext);
    assert p[|p| - |e|..] == ext;
    assert EndsWithExtension(p, e);
    FirstMatchFinds(p, ImageExtensions);
    var m := FirstMatch(p, ImageExtensions);
    MatchIsUnique(p, m.value, e);
    assert p[..|p| - |e| - 1] == stem;
  }

  /** The derivation changes a path exactly when it has one of the seven
      extensions; otherwise (`.tif`, `.webp`, no extension) the destination
      is the source itself. */
  lemma DeriveChangesIff(p: string)
    ensures Derive(p) != p <==> HasImageExtension(p)
  {
    DeriveShape(p);
    if HasImageExtension(p) {
      var r := Derive(p);
      assert r[|r| - 4..] == "webp";
      assert AsciiLowerString(r[|r| - 4..]) == "webp";
      assert AsciiLowerString(p[|r| - 4..]) != AsciiLowerString(r[|r| - 4..]);
    }
  }

  /** `.webp` is not among the alternatives, so a derived path is a fixed point. */
  lemma {:induction false} WebpPathHasNoImageExtension(stem: string)
    ensures !HasImageExtension(stem + WebpSuffix)
  {
    var p := stem + WebpSuffix;
    forall ext | ext in ImageExtensions ensures !EndsWithExtension(p, ext) {
      ExtensionShapes(ext);
      if |ext| == 3 {
        assert p[|p| - 4] == 'w';
      } else {
        assert p[|p| - 4..] == "webp";
        assert AsciiLowerString(p[|p| - 4..]) == "webp";
      }
    }
  }

  /** Deriving twice is deriving once. */
  lemma DeriveIdempotent(p: string)
    ensures Derive(Derive(p)) == Derive(p)
  {
    DeriveShape(p);
    if HasImageExtension(p) {
      var r := Derive(p);
      WebpPathHasNoImageExtension(r[..|r| - |WebpSuffix|]);
      assert r[..|r| - |WebpSuffix|] + WebpSuffix == r;
      DeriveShape(r);
    }
  }

  lemma DeriveRewriteExample()
    ensures Derive("/uploads/photo.JPG") == "/uploads/photo.webp"
  {
    var stem, ext := "/uploads/photo", "JPG";
    assert AsciiLowerString(ext) == "jpg";
    assert stem + "." + ext == "/uploads/photo.JPG";
    assert stem + WebpSuffix == "/uploads/photo.webp";
    DeriveReplacesExtension(stem, ext);
  }

  /** A path whose three-letter extension is none of the seven, in any
      case, is its own destination. */
  lemma DeriveKeepsOtherExtension(stem: string, ext: string)
    requires |ext| == 3 && AsciiLowerString(ext) !in ImageExtensions
    ensures Derive(stem + "." + ext) == stem + "." + ext
  {
    var p := stem + "." + ext;
    assert p[|p| - 3..] == ext;
    assert p[|p| - 4] == '.';
    forall e | e in ImageExtensions ensures !EndsWithExtension(p, e) {
      ExtensionShapes(e);
    }
    DeriveShape(p);
  }

  /** `.tif`, the common spelling of TIFF, is not in the pattern. */
  lemma DeriveKeepsTif()
    ensures Derive("/uploads/scan.tif") == "/uploads/scan.tif"
  {
    var stem, ext := "/uploads/scan", "tif";
    assert AsciiLowerString(ext) == "tif";
    assert stem + "." + ext == "/uploads/scan.tif";
    DeriveKeepsOtherExtension(stem, ext);
  }

  /** A path without a dot has no extension and is its own destination. */
  lemma DeriveKeepsDotless(p: string)
    requires forall k | 0 <= k < |p| :: p[k] != '.'
    ensures Derive(p) == p
  {
    DeriveShape(p);
  }

  lemma DeriveKeepsExtensionless()
    ensures Derive("/uploads/README") == "/uploads/README"
  {
    DeriveKeepsDotless("/uploads/README");
  }
}
