// `convert_image_to_webp($upload)`, the `wp_handle_upload` filter: the
// upload record (an associative array with at least `file`, `url` and
// `type`) is returned as it came, or with those three entries rewritten to
// point at the WebP file.

module UploadFilter {
  import opened PhpRuntime
  import opened MimeTypes
  import opened WebpPath
  import opened Converter

  type UploadRecord = map<string, string>

  /** WordPress hands the filter a record with these entries. */
  predicate IsUploadRecord(upload: UploadRecord) {
    "file" in upload && "url" in upload && "type" in upload
  }

  /** `after` is `before` pointing at the WebP file: `file` and `url` are
      derived, `type` is `image/webp`, and every other entry is as it was. */
  predicate RewrittenToWebp(before: UploadRecord, after: UploadRecord)
    requires IsUploadRecord(before)
  {
    && after.Keys == before.Keys
    && after["file"] == Derive(before["file"])
    && after["url"] == Derive(before["url"])
    && after["type"] == "image/webp"
    && forall key | key in before && key != "file" && key != "url" && key != "type" :: after[key] == before[key]
  }

  /** The filter. A throw from the image library is not caught and ends the
      upload request. */
  method ConvertImageToWebp(env: Environment, im: Imaging, upload: UploadRecord) returns (result: Call<UploadRecord>)
    requires IsUploadRecord(upload)
    ensures !IsAllowedMime(upload["type"]) ==> result == Returned(upload)
    ensures IsAllowedMime(upload["type"]) ==>
      var converted := ConvertToWebp(env, im, upload["file"], Derive(upload["file"]), upload["type"]);
      && (converted == Threw <==> result == Threw)
      && (converted == Returned(false) ==> result == Returned(upload))
      && (converted == Returned(true) ==> result.Returned? && RewrittenToWebp(upload, result.value))
  {
    var filePath := upload["file"];
    var fileType := upload["type"];
    if !IsAllowedMime(fileType) {
      return Returned(upload);
    }
    var webpPath := Derive(filePath);
    var converted := ConvertToWebp(env, im, filePath, webpPath, fileType);
    if converted.Threw? {
      return Threw;
    }
    var record := upload;
    if converted.value {
      record := record["file" := webpPath];
      record := record["url" := Derive(upload["url"])];
      record := record["type" := "image/webp"];
    }
    result := Returned(record);
  }

  /** A rewritten record is left alone by a second pass of the filter, and
      its file and URL are fixed points of the derivation. */
  lemma RewrittenRecordIsFinal(before: UploadRecord, after: UploadRecord)
    requires IsUploadRecord(before) && RewrittenToWebp(before, after)
    ensures IsUploadRecord(after)
    ensures !IsAllowedMime(after["type"])
    ensures Derive(after["file"]) == after["file"] && Derive(after["url"]) == after["url"]
  {
    DeriveIdempotent(before["file"]);
    DeriveIdempotent(before["url"]);
  }
}
