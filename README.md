# Auto WebP Converter — a Dafny model of its conversion pipeline

Auto WebP Converter is a WordPress plugin. It turns uploaded raster images
(JPEG, PNG, GIF, BMP, TIFF, ICO) into WebP. It does this in three places:

- when a file is uploaded, through the `wp_handle_upload` filter;
- on demand, from a button in the media list;
- for a batch of attachments, from a bulk action.

This project models the decisions the plugin makes along the way:

- which media types it accepts;
- how it derives the WebP destination from a path or URL;
- how `convert_to_webp` chooses between Imagick and GD;
- how the upload record is rewritten;
- which reply the on-demand handler sends;
- how the bulk loop counts and records its conversions;
- what the media list's status column shows.

The modules follow the plugin's structure:

- `PhpRuntime` (`php_runtime.dfy`) holds the PHP behaviour these decisions depend on:
  - calls that throw (`Call`) and values that may be `false` (`Option`);
  - `is_numeric` on a string, following the numeric-string grammar of the PHP 8 manual;
  - the ASCII-only case folding of a `/i` pattern;
  - the substring test the admin script applies to a reply.
- `MimeTypes` (`mime_types.dfy`) holds the six-entry allow-list and the media-type switch of the GD branch.
- `WebpPath` (`webp_path.dfy`) holds `preg_replace('/\.(jpe?g|png|gif|bmp|tiff|ico)$/i', '.webp', …)`. It is a function on strings with a suffix predicate that ignores case.
- `Converter` (`converter.dfy`) holds `convert_to_webp`. The two capability probes are an `Environment`. What Imagick and GD report is an `Imaging` value of oracle functions. The model records what the plugin asks of those libraries: quality 75, lossy, metadata stripped, no interlace, which decoder, and palette-to-truecolor for PNG.
- `UploadFilter` (`upload_filter.dfy`) holds `convert_image_to_webp`. It is a method that rewrites the upload record step by step.
- `MediaLibrary` (`media_library.dfy`) holds the admin side:
  - The class `Library` holds the attachment records: the attached file of each id, which `get_attached_file` reads and `update_attached_file` writes.
  - Its methods are the two AJAX handlers. `BulkConvert` keeps the `foreach` loop; `BulkIteration` is one pass of its body.
  - `BulkRun` specifies the bulk loop as a left fold over the ids processed so far.
  - `ReferenceRecords` and `ConvertedIds` describe the same result item by item, without the loop.

What the code does, in the places where a reader might expect something else:

- No existence check comes before a conversion, and there is no "already converted, skipped" outcome.
- Nothing catches an exception from Imagick, GD or `mime_content_type`. A throw ends the request, as follows. (The handlers as modelled run on the corrected dispatch, which returns false instead of throwing for the undecodable PNG described under "## Findings"; the members named `…AsWritten` keep that throw.)
  - the upload filter yields `Threw`;
  - the on-demand handler yields a `Fatal` reply;
  - the bulk handler stops with `Aborted`, keeping the records it has already rewritten.
- The bulk handler does not check that the WebP file exists afterwards. It counts every conversion that returned true.
- `get_attached_file` of an id without a file gives `""`, and PHP 8's `mime_content_type("")` throws a ValueError. So an id without a record ends the request. Ids are taken as they are given; WordPress's `absint` on the lookup is not modelled (see "## Left out").
- A path whose extension is not among the seven, such as `.tif` or none at all, derives to itself. The conversion then writes onto its own source, and nothing guards against that.

## Model

| member | source | states |
|---|---|---|
| PhpRuntime.IsNumeric | auto-webp-converter.php:214 | `is_numeric` by the PHP 8 numeric-string grammar; a numeric string is never empty |
| PhpRuntime.Contains | auto-webp-converter.php:198 | the `includes` test; a text can only contain a needle no longer than itself |
| PhpRuntime.DigitsAreNumeric | auto-webp-converter.php:214 | every non-empty string of decimal digits passes `is_numeric` |
| PhpRuntime.NumericHasDigit | auto-webp-converter.php:214 | a string that passes `is_numeric` contains a digit, so empty, blank and purely alphabetic ids are rejected |
| PhpRuntime.NumericLeadingBlank | auto-webp-converter.php:214 | `" 42"` is numeric (leading whitespace allowed) |
| PhpRuntime.NumericSignedExponent | auto-webp-converter.php:214 | `"-1.5e3"` is numeric (sign, fraction, exponent) |
| PhpRuntime.NumericBareFraction | auto-webp-converter.php:214 | `".5"` is numeric |
| PhpRuntime.EmptyIsNotNumeric | auto-webp-converter.php:214 | `""` is not numeric |
| PhpRuntime.TrailingLettersAreNotNumeric | auto-webp-converter.php:214 | `"12abc"` is not numeric |
| PhpRuntime.BareExponentIsNotNumeric | auto-webp-converter.php:214 | `"1e"` is not numeric |
| PhpRuntime.LoneDotIsNotNumeric | auto-webp-converter.php:214 | `"."` is not numeric |
| PhpRuntime.MissingFirstCharExcludes | auto-webp-converter.php:198 | a text that lacks the first character of a needle does not contain the needle (the `includes` test) |
| MimeTypes.IsAllowedMime | auto-webp-converter.php:36 | the `in_array` test against the six types; every accepted type starts with `image/` |
| MimeTypes.GdDecoder | auto-webp-converter.php:70-89 | the GD branch's `switch`: a decoder is chosen only for an allowed type, and the PNG decoder only for `image/png` |
| MimeTypes.AllowListIsExact | auto-webp-converter.php:27-38 | a media type is accepted if and only if it equals one of the six literal types |
| MimeTypes.AllowListRejections | auto-webp-converter.php:36 | differently cased types, `image/webp`, `image/svg+xml`, `image/jpg`, the empty string and a sniffed `false` are rejected |
| MimeTypes.GdDecodesAllowedButTiff | auto-webp-converter.php:70-89 | GD has a decoder exactly for the allowed types other than `image/tiff` |
| MimeTypes.PngDecoderOnlyForPng | auto-webp-converter.php:74-77 | the PNG decoder, with its truecolor step, is chosen exactly for `image/png` |
| WebpPath.Derive | auto-webp-converter.php:41 | the `preg_replace`: the result is the path itself or ends in `.webp` |
| WebpPath.FirstMatchFinds | auto-webp-converter.php:41 | the alternative found is one of the seven and matches at the end of the path; when none is found, none matches |
| WebpPath.DeriveShape | auto-webp-converter.php:41 | a path with one of the seven extensions keeps everything before the dot that starts that extension, the text after that dot is one of the seven in some casing, and the result ends in `.webp`; any other path is returned unchanged |
| WebpPath.ExtensionShapes | auto-webp-converter.php:41 | each alternative is three or four lower-case letters, the four-letter ones being `jpeg` and `tiff` |
| WebpPath.MatchIsUnique | auto-webp-converter.php:41 | at most one alternative matches a path |
| WebpPath.DeriveReplacesExtension | auto-webp-converter.php:41 | `stem.ext`, with `ext` any casing of a listed extension, becomes `stem.webp` |
| WebpPath.DeriveChangesIff | auto-webp-converter.php:41 | the derivation changes a path if and only if the path has one of the seven extensions |
| WebpPath.WebpPathHasNoImageExtension | auto-webp-converter.php:41 | a path ending in `.webp` has none of the seven extensions |
| WebpPath.DeriveIdempotent | auto-webp-converter.php:41 | deriving twice is deriving once |
| WebpPath.DeriveRewriteExample | auto-webp-converter.php:41 | `/uploads/photo.JPG` becomes `/uploads/photo.webp` |
| WebpPath.DeriveKeepsOtherExtension | auto-webp-converter.php:231 | a path with a three-letter extension not among the seven is its own destination |
| WebpPath.DeriveKeepsTif | auto-webp-converter.php:231 | `/uploads/scan.tif` is its own destination |
| WebpPath.DeriveKeepsDotless | auto-webp-converter.php:231 | a path without a dot is its own destination |
| WebpPath.DeriveKeepsExtensionless | auto-webp-converter.php:231 | `/uploads/README` is its own destination |
| Converter.GdConvertAsWritten | auto-webp-converter.php:69-97 | the GD branch as written: false for a type outside the switch; true only after a successful decode; a PNG that does not decode throws |
| Converter.GdConvert | auto-webp-converter.php:69-97 | the GD branch as its line-91 test intends: false for a type outside the switch or a decode that yields no image; true only after a successful decode |
| Converter.ConvertToWebpAsWritten | auto-webp-converter.php:54-100 | the dispatch as written: false with neither backend, the Imagick write when Imagick is loaded, and true exactly when the corrected dispatch gives true |
| Converter.ConvertToWebp | auto-webp-converter.php:54-100 | the corrected dispatch: with neither backend, or with GD and a type outside its switch, the result is false |
| Converter.ImagickTakesPrecedence | auto-webp-converter.php:56-68 | with Imagick loaded, GD is never consulted, and the result is the Imagick write with format webp, quality 75, lossy, metadata stripped, no interlace |
| Converter.GdIgnoresImagick | auto-webp-converter.php:69-97 | without Imagick, the result does not depend on Imagick's behaviour |
| Converter.GdRefusesTiff | auto-webp-converter.php:70-89 | under GD, `image/tiff` returns false |
| Converter.GdRefusesUnlisted | auto-webp-converter.php:69-89 | under GD, any type outside the allow-list returns false |
| Converter.GdDecodeFailureFails | auto-webp-converter.php:91 | under GD, a decode that yields no image returns false (corrected behaviour) |
| Converter.GdResultIsWriteResult | auto-webp-converter.php:74-96 | under GD, after a successful decode the result is `imagewebp` at quality 75, with a PNG raster made truecolor first |
| Converter.ConvertSucceedsIff | auto-webp-converter.php:54-100 | the conversion returns true if and only if Imagick is loaded and its write returned true, or GD is used, has a decoder, decoded the source and wrote the file |
| Converter.AsWrittenDiffersOnlyOnFailedPngDecode | auto-webp-converter.php:74-91 | the dispatch as written and the corrected one differ exactly when GD is used and a PNG fails to decode |
| Converter.FailedPngDecodeThrowsAsWritten | auto-webp-converter.php:74-76 | with GD only and a PNG that does not decode, the code as written throws while the corrected dispatch returns false |
| UploadFilter.ConvertImageToWebp | auto-webp-converter.php:21-52 | a type outside the allow-list, or a conversion that returned false, returns the record unchanged; a throw ends the upload; on success `file` and `url` are derived, `type` becomes `image/webp`, and every other entry is untouched |
| UploadFilter.RewrittenRecordIsFinal | auto-webp-converter.php:41-48 | a rewritten record has a type outside the allow-list, and its file and URL are fixed points of the derivation |
| MediaLibrary.AttachedFile | auto-webp-converter.php:220 | `get_attached_file`: a non-empty result is the stored file of a recorded id |
| MediaLibrary.MimeContentType | auto-webp-converter.php:221 | `mime_content_type`: throws exactly for the empty path, otherwise gives the sniffed type or `false` |
| MediaLibrary.FileExists | auto-webp-converter.php:238 | `file_exists`: true only for a non-empty path among the files present |
| MediaLibrary.ConvertAttachment | auto-webp-converter.php:220-234 | the steps both handlers share, on the corrected dispatch: a missing file ends the request, and a conversion always targets the derived path |
| MediaLibrary.ConvertAttachmentAsWritten | auto-webp-converter.php:220-234 | the same steps on the dispatch as written, with the same two facts |
| MediaLibrary.AsWrittenOutcomeDiffers | auto-webp-converter.php:74-91 | the as-written and corrected steps differ exactly for a PNG that GD, the only backend, cannot decode; there the code as written ends the request and the corrected steps report a failed conversion |
| MediaLibrary.ConvertAttachmentCases | auto-webp-converter.php:220-234 | an attachment is skipped exactly when its sniffed type is not allowed, and converted exactly when the type is allowed and the conversion to its derived path returned true; an attachment without a file ends the request |
| MediaLibrary.HostEmptyPathCrashesAsWritten | auto-webp-converter.php:220-221 | on the dispatch as written too, a missing attached file ends the request |
| MediaLibrary.HostEmptyPathCrashes | auto-webp-converter.php:220-221 | for every host, a missing attached file ends the request |
| MediaLibrary.SameDestinationNotGuarded | auto-webp-converter.php:231-234 | an allowed file without a listed extension is converted onto itself and counts as converted |
| MediaLibrary.OnlySuccessTextHasMarker | auto-webp-converter.php:198 | of the handler's five reply texts, only the success text contains `Erfolgreich` |
| MediaLibrary.SingleSuccessPassedAllChecks | auto-webp-converter.php:214-253 | a success reply means the id was numeric, the attachment has a file, its sniffed type is allowed, the conversion returned true and the WebP file exists |
| MediaLibrary.Library.ConvertSingle | auto-webp-converter.php:212-259 | each of the handler's outcomes gets its reply; the reply contains `Erfolgreich` if and only if every check passed; only then does the record change, to the derived path |
| MediaLibrary.BulkStep | auto-webp-converter.php:306-326 | one iteration: after a throw nothing changes; the count grows by at most one, and only for an attachment that converts |
| MediaLibrary.BulkRun | auto-webp-converter.php:303-327 | the loop over a list of ids; the count never exceeds the number of ids |
| MediaLibrary.BulkRunExtends | auto-webp-converter.php:305 | processing one more id is one more loop iteration |
| MediaLibrary.BulkAbortIsFinal | auto-webp-converter.php:305-307 | once a throw has ended the bulk request, later ids change nothing |
| MediaLibrary.AsWrittenBulkStopsAtFailedPng | auto-webp-converter.php:74-76 | as written, the bulk request ends at the first PNG that GD cannot decode: earlier records stay rewritten and later ids are not processed |
| MediaLibrary.BulkKeepsRecordIds | auto-webp-converter.php:316-318 | the bulk run neither adds nor removes an attachment record |
| MediaLibrary.ReferenceRecords | auto-webp-converter.php:316-318 | the records after converting each listed attachment on its own; the same attachments are recorded |
| MediaLibrary.ConvertedIds | auto-webp-converter.php:316-325 | the listed attachments that convert on their own; all of them are listed |
| MediaLibrary.ReferenceRecordsStep | auto-webp-converter.php:316-318 | listing one more id changes the reference records at that id alone |
| MediaLibrary.ConvertedIdsStep | auto-webp-converter.php:316-325 | listing one more id adds one to the number of converted ids exactly when that attachment converts |
| MediaLibrary.BulkMatchesReference | auto-webp-converter.php:305-327 | for distinct ids none of which throws: unsupported and failing items are skipped, the count is the number of ids that convert on their own, and exactly those records now point at their WebP files |
| MediaLibrary.MixedBatchExample | auto-webp-converter.php:305-326 | for ids 1, 2, 3 with 2 unsupported and 1, 3 converting, the run is not aborted, counts 2, and rewrites exactly records 1 and 3 |
| MediaLibrary.Library.BulkIteration | auto-webp-converter.php:306-326 | one pass of the loop body changes the records and the count exactly as one `BulkStep` does, and reports whether a throw ended the request |
| MediaLibrary.Library.BulkConvert | auto-webp-converter.php:296-330 | without an id array the reply is the error and nothing changes; otherwise the records and the reply are those of the bulk specification over all the ids |
| MediaLibrary.ColumnContent | auto-webp-converter.php:166-178 | the column's content: blank exactly outside the plugin's column, and a button carries the attachment's own id |
| MediaLibrary.ColumnShowsConvertedIff | auto-webp-converter.php:166-178 | the column shows "already converted" if and only if the derived path exists, and the convert button otherwise, including for an attachment without a file |
| MediaLibrary.ColumnAfterConversion | auto-webp-converter.php:166-176 | after a successful conversion whose WebP file exists, the column shows the attachment as converted |

## Left out

- Imagick and GD are foreign libraries, so they are oracles. The model records the settings and quality the plugin passes them, not the images they produce. `imagedestroy` is not modelled.
- `file_get_contents` for icons is part of the GD decode oracle. It can return false or throw.
- The filesystem and `mime_content_type` are a fixed snapshot supplied to the model.
  - During a bulk run they do not change. An id listed twice is sniffed, on its second pass, at the WebP path its record now holds, with the type that path had in the snapshot taken before the run; the real file written on the first pass would sniff as `image/webp` and be skipped.
  - The on-demand handler receives the set of files present after the conversion as a parameter.
- `intval` is a parameter of the on-demand handler. `$_GET['id']` given as an array is not modelled; `is_numeric` rejects it in any case.
- The bulk handler's ids are taken as integers. WordPress's coercion of the posted strings is not modelled.
- The bookkeeping after a conversion is not modelled: `update_post_meta` with its `str_replace`, `wp_get_attachment_url`, and the GUID update. Only the new attached file is recorded.
- The success message of `wp_send_json_success` is not modelled beyond the count it reports. `wp_die` is modelled only by the handler stopping.
- The rest of the plugin is not modelled: hook registration, the database table, the admin page, the embedded JavaScript (apart from its `includes("Erfolgreich")` test), and `awc_handle_bulk_action` with its notice. These only redirect and report `count($post_ids)` without converting.
- PCRE's `$` also matches before a trailing newline. Paths are taken to have no trailing newline.
- Converter.ConvertToWebp: is the corrected dispatch. For a PNG that GD, the only backend, cannot decode it returns false, where the code as written throws (see "## Findings"); `Converter.ConvertToWebpAsWritten` models the code as written.
- MediaLibrary.ConvertAttachment: runs on the corrected dispatch, so for that PNG it reports a failed conversion where the code as written ends the request; `MediaLibrary.ConvertAttachmentAsWritten` and `MediaLibrary.AsWrittenOutcomeDiffers` state the code as written and the exact difference.
- MediaLibrary.Library.BulkConvert: runs on the corrected steps, so it skips that PNG and goes on with the later ids, where the code as written ends the request at it; `MediaLibrary.AsWrittenBulkStopsAtFailedPng` states the as-written run over `MediaLibrary.HostOutcomesAsWritten`.
- MediaLibrary.Library.ConvertSingle: runs on the corrected steps, so for that PNG it replies "Fehler bei der Konvertierung." where the code as written dies with a TypeError.
- UploadFilter.ConvertImageToWebp: runs on the corrected dispatch, so for that PNG it returns the upload unchanged where the code as written throws and ends the upload.
- MediaLibrary.AttachedFile: attachment ids are taken as positive and looked up as given. WordPress's metadata lookup applies `absint`, so a negative id such as `-5` (which passes `is_numeric` and `intval`) reads and rewrites the record of attachment 5, and id 0 gives `false`; neither is modelled, and the model ends the request for them instead.
- MediaLibrary.BulkMatchesReference: stated for distinct ids with no throw. With repeated ids the second pass sees the rewritten record, and a throw is covered by `BulkAbortIsFinal`.

## Findings

| source | as written | input that shows it | evidently intended | confidence | as-written member | corrected member |
|---|---|---|---|---|---|---|
| auto-webp-converter.php:74-91 | a failed `imagecreatefrompng` returns `false`, which goes straight to `imagepalettetotruecolor`. Under PHP 8 that function accepts only a `GdImage` and throws a TypeError, so the `if (!$image) return false;` test is never reached for PNG and the request ends | Imagick not loaded, `imagewebp` available, `image/png` source that does not decode (`/uploads/broken.png`) | a PNG that does not decode makes `convert_to_webp` return false, like the other decoders | not executed | Converter.FailedPngDecodeThrowsAsWritten | Converter.GdDecodeFailureFails |
