// The admin side of the plugin: the on-demand handler behind the media
// list's "convert" button (`awc_convert_single_image`), the bulk handler
// (`awc_bulk_convert_images`) and the media list's status column
// (`awc_custom_column_content`). The handlers rewrite the attachment
// records of the host's media library, modelled as the map from attachment
// id to attached file that `get_attached_file`/`update_attached_file` read
// and write.

module MediaLibrary {
  import opened PhpRuntime
  import opened MimeTypes
  import opened WebpPath
  import opened Converter

  /** What the handlers query outside the plugin: the capability probes,
      the image libraries, and the type `mime_content_type` reports for an
      existing path (`None` for its `false`). */
  datatype Host = Host(env: Environment, imaging: Imaging, sniff: string -> Option<string>)

  type Attachments = map<int, string>

  /** `get_attached_file($id)`: the stored path, or the empty string that
      the post-meta lookup gives for an id without one. */
  function AttachedFile(attached: Attachments, id: int): (path: string)
    ensures path != "" ==> id in attached && attached[id] == path
  {
    if id in attached then attached[id] else ""
  }

  /** `mime_content_type($path)`: PHP 8 throws a ValueError for an empty path. */
  function MimeContentType(host: Host, path: string): (r: Call<Option<string>>)
    ensures r.Threw? <==> path == ""
    ensures r.Returned? ==> r.value == host.sniff(path)
  {
    if path == "" then Threw else Returned(host.sniff(path))
  }

  /** `file_exists($path)` against the set of files present; never true of "". */
  predicate FileExists(files: set<string>, path: string)
    ensures FileExists(files, path) ==> path in files && |path| > 0
  {
    path != "" && path in files
  }

  /** How the steps both handlers share (sniff, allow-list, derive,
      convert) end for one attached file. */
  datatype ItemOutcome = Unsupported | Converted(webpPath: string) | NotConverted | Crashed

  /** The shared steps with the corrected dispatch `ConvertToWebp`. */
  function ConvertAttachment(host: Host, path: string): (o: ItemOutcome)
    ensures path == "" ==> o == Crashed
    ensures o.Converted? ==> o.webpPath == Derive(path)
  {
    match MimeContentType(host, path)
    case Threw => Crashed
    case Returned(mime) =>
      if !IsAllowedSniffed(mime) then Unsupported
      else
        match ConvertToWebp(host.env, host.imaging, path, Derive(path), mime.value)
        case Threw => Crashed
        case Returned(ok) => if ok then Converted(Derive(path)) else NotConverted
  }

  /** An attachment is skipped exactly when its sniffed type is not on the
      allow-list; it is converted exactly when the type is allowed and the
      conversion to its derived path returned true; an attachment without a
      file ends the request. */
  lemma ConvertAttachmentCases(host: Host, path: string)
    ensures var o := ConvertAttachment(host, path);
      && (o.Unsupported? <==> path != "" && !IsAllowedSniffed(host.sniff(path)))
      && (o.Converted? <==>
            && path != ""
            && IsAllowedSniffed(host.sniff(path))
            && ConvertToWebp(host.env, host.imaging, path, Derive(path), host.sniff(path).value) == Returned(true))
      && (o.Converted? ==> o.webpPath == Derive(path))
      && (path == "" ==> o == Crashed)
  {
  }

  /** The shared steps with the dispatch as written, `ConvertToWebpAsWritten`. */
  function ConvertAttachmentAsWritten(host: Host, path: string): (o: ItemOutcome)
    ensures path == "" ==> o == Crashed
    ensures o.Converted? ==> o.webpPath == Derive(path)
  {
    match MimeContentType(host, path)
    case Threw => Crashed
    case Returned(mime) =>
      if !IsAllowedSniffed(mime) then Unsupported
      else
        match ConvertToWebpAsWritten(host.env, host.imaging, path, Derive(path), mime.value)
        case Threw => Crashed
        case Returned(ok) => if ok then Converted(Derive(path)) else NotConverted
  }

  /** The attached file is a PNG that GD, the only backend, cannot decode. */
  predicate FailedPngDecode(host: Host, path: string) {
    && path != "" && host.sniff(path) == Some("image/png")
    && !host.env.imagickLoaded && host.env.gdWebp
    && host.imaging.decode(FromPng, path) == Returned(false)
  }

  /** The code as written and the corrected model part ways on one kind of
      file only: a PNG that GD cannot decode ends the request as written,
      where the corrected steps report a failed conversion. */
  lemma AsWrittenOutcomeDiffers(host: Host, path: string)
    ensures ConvertAttachmentAsWritten(host, path) != ConvertAttachment(host, path)
        <==> FailedPngDecode(host, path)
    ensures FailedPngDecode(host, path) ==>
      ConvertAttachmentAsWritten(host, path) == Crashed && ConvertAttachment(host, path) == NotConverted
  {
    if path != "" && IsAllowedSniffed(host.sniff(path)) {
      AsWrittenDiffersOnlyOnFailedPngDecode(host.env, host.imaging, path, Derive(path), host.sniff(path).value);
    }
  }

  /** Nothing guards against a destination equal to the source: an allowed
      file whose name has none of the seven extensions (`.tif`, say) is
      converted onto itself, and the result counts as a conversion that
      leaves the record where it was. */
  lemma SameDestinationNotGuarded(host: Host, path: string)
    requires path != "" && !HasImageExtension(path) && IsAllowedSniffed(host.sniff(path))
    requires ConvertToWebp(host.env, host.imaging, path, path, host.sniff(path).value) == Returned(true)
    ensures ConvertAttachment(host, path) == Converted(path)
  {
    DeriveChangesIff(path);
  }

  // ---------------------------------------------------------------------
  // Replies of the on-demand handler
  // ---------------------------------------------------------------------

  /** The body of the AJAX reply: an echoed text, or a fatal error when an
      uncaught throw ends the request. */
  datatype Reply = Echo(text: string) | Fatal

  const InvalidIdText: string := "Fehler: Ungültige Bild-ID"
  const UnsupportedText: string := "Fehler: Nicht unterstütztes Format"
  const NotCreatedText: string := "Fehler: WebP-Datei wurde nicht erstellt!"
  const ConversionFailedText: string := "Fehler bei der Konvertierung."
  const SuccessText: string := "Erfolgreich konvertiert!"

  /** The admin script takes a reply as a success when it contains this. */
  const SuccessMarker: string := "Erfolgreich"

  predicate ReportsSuccess(reply: Reply) {
    reply.Echo? && Contains(reply.text, SuccessMarker)
  }

  /** Of the five texts the handler can send, only the success text
      carries the marker. */
  lemma OnlySuccessTextHasMarker(text: string)
    requires text in [InvalidIdText, UnsupportedText, NotCreatedText, ConversionFailedText, SuccessText]
    ensures Contains(text, SuccessMarker) <==> text == SuccessText
  {
    if text == SuccessText {
      assert OccursAt(text, SuccessMarker, 0);
    } else {
      MissingFirstCharExcludes(text, SuccessMarker);
    }
  }

  /** The on-demand conversion succeeds: the id is numeric, the sniffed
      type is allowed, the conversion returned true and the WebP file is
      there afterwards. */
  predicate SingleSucceeds(idParam: Option<string>, intval: string -> int, host: Host,
                           filesAfter: set<string>, attached: Attachments)
  {
    && idParam.Some? && IsNumeric(idParam.value)
    && var outcome := ConvertAttachment(host, AttachedFile(attached, intval(idParam.value)));
       outcome.Converted? && FileExists(filesAfter, outcome.webpPath)
  }

  /** A successful on-demand conversion has passed every check of the handler. */
  lemma SingleSuccessPassedAllChecks(idParam: Option<string>, intval: string -> int, host: Host,
                                     filesAfter: set<string>, attached: Attachments)
    requires SingleSucceeds(idParam, intval, host, filesAfter, attached)
    ensures idParam.Some? && IsNumeric(idParam.value)
    ensures var path := AttachedFile(attached, intval(idParam.value));
      && path != ""
      && IsAllowedSniffed(host.sniff(path))
      && ConvertToWebp(host.env, host.imaging, path, Derive(path), host.sniff(path).value) == Returned(true)
      && Derive(path) in filesAfter
  {
    ConvertAttachmentCases(host, AttachedFile(attached, intval(idParam.value)));
  }

  // ---------------------------------------------------------------------
  // The bulk run, as a function of the ids processed so far
  // ---------------------------------------------------------------------

  /** The bulk loop's state: the records, `$converted_count`, and whether a
      throw has ended the request. */
  datatype BulkState = BulkState(attached: Attachments, count: nat, aborted: bool)

  /** How the attached file of each attachment fares in one iteration. The
      handlers use `HostOutcomes(host)`; the lemmas below hold for any. */
  type Outcomes = string -> ItemOutcome

  function HostOutcomes(host: Host): Outcomes {
    path => ConvertAttachment(host, path)
  }

  /** The outcomes of the code as written; every lemma below that is
      stated for any `outcomes` holds for these too, and those that ask
      for `EmptyPathCrashes` get it from `HostEmptyPathCrashesAsWritten`. */
  function HostOutcomesAsWritten(host: Host): Outcomes {
    path => ConvertAttachmentAsWritten(host, path)
  }

  /** `get_attached_file` gives "" for an id without a file, and that ends
      the request. */
  predicate EmptyPathCrashes(outcomes: Outcomes) {
    outcomes("") == Crashed
  }

  lemma HostEmptyPathCrashes(host: Host)
    ensures EmptyPathCrashes(HostOutcomes(host))
  {
    ConvertAttachmentCases(host, "");
  }

  lemma HostEmptyPathCrashesAsWritten(host: Host)
    ensures EmptyPathCrashes(HostOutcomesAsWritten(host))
  {
  }

  /** One iteration of the `foreach`: an unsupported item is skipped
      (`continue`), a converted one is recorded and counted. */
  function BulkStep(outcomes: Outcomes, s: BulkState, id: int): (t: BulkState)
    ensures s.aborted ==> t == s
    ensures t.count == s.count || t.count == s.count + 1
    ensures t.count == s.count + 1 ==> outcomes(AttachedFile(s.attached, id)).Converted?
  {
    if s.aborted then s
    else
      match outcomes(AttachedFile(s.attached, id))
      case Crashed => s.(aborted := true)
      case Converted(webpPath) => BulkState(s.attached[id := webpPath], s.count + 1, false)
      case Unsupported => s
      case NotConverted => s
  }

  /** The bulk loop over `ids`; its count never exceeds the number of ids. */
  function BulkRun(outcomes: Outcomes, attached: Attachments, ids: seq<int>): (s: BulkState)
    ensures s.count <= |ids|
    decreases |ids|
  {
    if ids == [] then BulkState(attached, 0, false)
    else BulkStep(outcomes, BulkRun(outcomes, attached, ids[..|ids| - 1]), ids[|ids| - 1])
  }

  /** Running over one more id of a list is one more step. */
  lemma BulkRunExtends(outcomes: Outcomes, attached: Attachments, ids: seq<int>, i: nat)
    requires i < |ids|
    ensures BulkRun(outcomes, attached, ids[..i + 1])
         == BulkStep(outcomes, BulkRun(outcomes, attached, ids[..i]), ids[i])
  {
    assert ids[..i + 1][..i] == ids[..i];
  }

  /** Once a throw has ended the request, later ids change nothing. */
  lemma {:induction false} BulkAbortIsFinal(outcomes: Outcomes, attached: Attachments, ids: seq<int>, n: nat)
    requires n <= |ids|
    requires BulkRun(outcomes, attached, ids[..n]).aborted
    ensures BulkRun(outcomes, attached, ids) == BulkRun(outcomes, attached, ids[..n])
    decreases |ids| - n
  {
    if n < |ids| {
      var prefix := ids[..|ids| - 1];
      assert prefix[..n] == ids[..n];
      BulkAbortIsFinal(outcomes, attached, prefix, n);
    } else {
      assert ids[..n] == ids;
    }
  }

  /** As written, the bulk request ends at the first PNG that GD cannot
      decode: the records rewritten before it stay, later ids are not
      processed, and no count is reported. */
  lemma AsWrittenBulkStopsAtFailedPng(host: Host, attached: Attachments, ids: seq<int>, i: nat)
    requires i < |ids|
    requires !BulkRun(HostOutcomesAsWritten(host), attached, ids[..i]).aborted
    requires FailedPngDecode(host, AttachedFile(BulkRun(HostOutcomesAsWritten(host), attached, ids[..i]).attached, ids[i]))
    ensures BulkRun(HostOutcomesAsWritten(host), attached, ids)
         == BulkRun(HostOutcomesAsWritten(host), attached, ids[..i]).(aborted := true)
  {
    var outcomes := HostOutcomesAsWritten(host);
    var before := BulkRun(outcomes, attached, ids[..i]);
    AsWrittenOutcomeDiffers(host, AttachedFile(before.attached, ids[i]));
    BulkRunExtends(outcomes, attached, ids, i);
    BulkAbortIsFinal(outcomes, attached, ids, i + 1);
  }

  /** The bulk run neither adds nor removes an attachment record. */
  lemma {:induction false} BulkKeepsRecordIds(outcomes: Outcomes, attached: Attachments, ids: seq<int>)
    requires EmptyPathCrashes(outcomes)
    ensures BulkRun(outcomes, attached, ids).attached.Keys == attached.Keys
    decreases |ids|
  {
    if ids != [] {
      BulkKeepsRecordIds(outcomes, attached, ids[..|ids| - 1]);
    }
  }

  /** Whether an attachment converts when taken on its own. */
  predicate ConvertsAlone(outcomes: Outcomes, attached: Attachments, id: int) {
    outcomes(AttachedFile(attached, id)).Converted?
  }

  /** The listed attachments that convert on their own. */
  function ConvertedIds(outcomes: Outcomes, attached: Attachments, ids: seq<int>): (r: set<int>)
    ensures forall id | id in r :: id in ids
  {
    set id | id in ids && ConvertsAlone(outcomes, attached, id)
  }

  /** The records after converting each listed attachment on its own: one
      that converts points at its WebP file, every other is as it was. */
  function ReferenceRecords(outcomes: Outcomes, attached: Attachments, ids: seq<int>): (r: Attachments)
    ensures r.Keys == attached.Keys
  {
    map id | id in attached ::
      var outcome := outcomes(attached[id]);
      if id in ids && outcome.Converted? then outcome.webpPath else attached[id]
  }

  predicate Distinct(ids: seq<int>) {
    forall i, j | 0 <= i < j < |ids| :: ids[i] != ids[j]
  }

  /** A list without repetitions is its shorter prefix, also without
      repetitions, followed by an id that prefix does not hold. */
  lemma DistinctSplit(ids: seq<int>)
    requires Distinct(ids) && ids != []
    ensures Distinct(ids[..|ids| - 1]) && ids[|ids| - 1] !in ids[..|ids| - 1]
  {
  }

  /** An id is in a non-empty list exactly when it is in the list's prefix
      or is its last element. */
  lemma MembershipSplit(ids: seq<int>)
    requires ids != []
    ensures forall id :: id in ids <==> id in ids[..|ids| - 1] || id == ids[|ids| - 1]
  {
    assert ids == ids[..|ids| - 1] + [ids[|ids| - 1]];
  }

  /** Listing one more id changes the reference records at that id alone. */
  lemma ReferenceRecordsStep(outcomes: Outcomes, attached: Attachments, ids: seq<int>)
    requires EmptyPathCrashes(outcomes)
    requires ids != [] && ids[|ids| - 1] !in ids[..|ids| - 1]
    ensures var last := ids[|ids| - 1];
      var before := ReferenceRecords(outcomes, attached, ids[..|ids| - 1]);
      && AttachedFile(before, last) == AttachedFile(attached, last)
      && ReferenceRecords(outcomes, attached, ids)
         == (if ConvertsAlone(outcomes, attached, last)
             then before[last := outcomes(AttachedFile(attached, last)).webpPath] else before)
  {
    var prefix, last := ids[..|ids| - 1], ids[|ids| - 1];
    var before := ReferenceRecords(outcomes, attached, prefix);
    var after := ReferenceRecords(outcomes, attached, ids);
    MembershipSplit(ids);
    if ConvertsAlone(outcomes, attached, last) {
      var expected := before[last := outcomes(attached[last]).webpPath];
      forall id | id in attached ensures after[id] == expected[id] {
      }
      assert after == expected;
    } else {
      forall id | id in attached ensures after[id] == before[id] {
      }
      assert after == before;
    }
  }

  /** Listing one more id adds it to the converted ids when it converts. */
  lemma ConvertedIdsStep(outcomes: Outcomes, attached: Attachments, ids: seq<int>)
    requires ids != [] && ids[|ids| - 1] !in ids[..|ids| - 1]
    ensures var last := ids[|ids| - 1];
      |ConvertedIds(outcomes, attached, ids)|
      == |ConvertedIds(outcomes, attached, ids[..|ids| - 1])| + (if ConvertsAlone(outcomes, attached, last) then 1 else 0)
  {
    var prefix, last := ids[..|ids| - 1], ids[|ids| - 1];
    MembershipSplit(ids);
    if ConvertsAlone(outcomes, attached, last) {
      assert ConvertedIds(outcomes, attached, ids) == ConvertedIds(outcomes, attached, prefix) + {last};
    } else {
      assert ConvertedIds(outcomes, attached, ids) == ConvertedIds(outcomes, attached, prefix);
    }
  }

  /** For distinct ids none of which throws, the bulk loop is the same as
      converting every attachment on its own: items do not influence each
      other, unsupported or failing ones are skipped, the count is the
      number of attachments that convert, and exactly their records change. */
  lemma {:induction false} BulkMatchesReference(outcomes: Outcomes, attached: Attachments, ids: seq<int>)
    requires EmptyPathCrashes(outcomes)
    requires Distinct(ids)
    requires forall id | id in ids :: outcomes(AttachedFile(attached, id)) != Crashed
    ensures BulkRun(outcomes, attached, ids)
         == BulkState(ReferenceRecords(outcomes, attached, ids), |ConvertedIds(outcomes, attached, ids)|, false)
    decreases |ids|
  {
    if ids == [] {
      assert ReferenceRecords(outcomes, attached, ids) == attached;
      assert ConvertedIds(outcomes, attached, ids) == {};
    } else {
      var prefix, last := ids[..|ids| - 1], ids[|ids| - 1];
      DistinctSplit(ids);
      assert forall id | id in prefix :: id in ids;
      BulkMatchesReference(outcomes, attached, prefix);
      ReferenceRecordsStep(outcomes, attached, ids);
      ConvertedIdsStep(outcomes, attached, ids);
      assert outcomes(AttachedFile(attached, last)) != Crashed;
    }
  }

  /** A list with a supported, an unsupported and a supported attachment:
      the middle one is skipped and both others are converted. */
  lemma MixedBatchExample(outcomes: Outcomes, attached: Attachments)
    requires EmptyPathCrashes(outcomes)
    requires outcomes(AttachedFile(attached, 1)).Converted?
    requires outcomes(AttachedFile(attached, 2)) == Unsupported
    requires outcomes(AttachedFile(attached, 3)).Converted?
    ensures var s := BulkRun(outcomes, attached, [1, 2, 3]);
      && !s.aborted && s.count == 2
      && s.attached == attached[1 := outcomes(AttachedFile(attached, 1)).webpPath]
                               [3 := outcomes(AttachedFile(attached, 3)).webpPath]
  {
    assert [1, 2, 3][..2] == [1, 2] && [1, 2][..1] == [1] && [1][..0] == [];
    var s1 := BulkRun(outcomes, attached, [1]);
    assert s1.count == 1 && s1.attached.Keys == attached.Keys;
    var s2 := BulkRun(outcomes, attached, [1, 2]);
    assert s2 == s1 && AttachedFile(s1.attached, 2) == AttachedFile(attached, 2);
    assert AttachedFile(s2.attached, 3) == AttachedFile(attached, 3);
  }

  // ---------------------------------------------------------------------
  // The media list's status column
  // ---------------------------------------------------------------------

  datatype Cell = Blank | AlreadyConverted | ConvertButton(id: int)

  const WebpColumn: string := "awc_webp"

  function ColumnContent(attached: Attachments, column: string, id: int, files: set<string>): (c: Cell)
    ensures c == Blank <==> column != WebpColumn
    ensures c.ConvertButton? ==> c.id == id
  {
    if column != WebpColumn then Blank
    else if FileExists(files, Derive(AttachedFile(attached, id))) then AlreadyConverted
    else ConvertButton(id)
  }

  /** "Bereits konvertiert" is shown exactly when the derived file exists;
      otherwise the button for that attachment. */
  lemma ColumnShowsConvertedIff(attached: Attachments, id: int, files: set<string>)
    ensures ColumnContent(attached, WebpColumn, id, files) == AlreadyConverted
        <==> FileExists(files, Derive(AttachedFile(attached, id)))
    ensures ColumnContent(attached, WebpColumn, id, files) != AlreadyConverted
        ==> ColumnContent(attached, WebpColumn, id, files) == ConvertButton(id)
    ensures id !in attached ==> ColumnContent(attached, WebpColumn, id, files) == ConvertButton(id)
  {
    DeriveShape("");
  }

  /** After a successful conversion the record points at the WebP file,
      which derives to itself, so the column shows it as converted. */
  lemma ColumnAfterConversion(host: Host, attached: Attachments, id: int, files: set<string>)
    requires ConvertAttachment(host, AttachedFile(attached, id)).Converted?
    requires FileExists(files, ConvertAttachment(host, AttachedFile(attached, id)).webpPath)
    ensures ColumnContent(attached[id := ConvertAttachment(host, AttachedFile(attached, id)).webpPath], WebpColumn, id, files)
         == AlreadyConverted
  {
    DeriveIdempotent(AttachedFile(attached, id));
  }

  // ---------------------------------------------------------------------
  // The handlers
  // ---------------------------------------------------------------------

  datatype BulkResponse = JsonSuccess(converted: nat) | JsonError(message: string) | Aborted

  const NoImagesText: string := "Keine gültigen Bilder ausgewählt."

  /** The host's media library: the attached file of each attachment. */
  class Library {
    var attached: Attachments

    constructor (attached: Attachments)
      ensures this.attached == attached
    {
      this.attached := attached;
    }

    /** `awc_convert_single_image`: `idParam` is `$_GET['id']` (`None`
        when unset), `intval` PHP's conversion of it, and `filesAfter` the
        files present once the conversion has run. */
    method ConvertSingle(idParam: Option<string>, intval: string -> int, host: Host, filesAfter: set<string>)
      returns (reply: Reply)
      modifies this
      ensures idParam.None? || !IsNumeric(idParam.value) ==>
        reply == Echo(InvalidIdText) && attached == old(attached)
      ensures idParam.Some? && IsNumeric(idParam.value) ==>
        var id := intval(idParam.value);
        var outcome := ConvertAttachment(host, AttachedFile(old(attached), id));
        && (outcome.Crashed? ==> reply == Fatal)
        && (outcome.Unsupported? ==> reply == Echo(UnsupportedText))
        && (outcome.NotConverted? ==> reply == Echo(ConversionFailedText))
        && (outcome.Converted? && !FileExists(filesAfter, outcome.webpPath) ==> reply == Echo(NotCreatedText))
        && (outcome.Converted? && FileExists(filesAfter, outcome.webpPath) ==>
              reply == Echo(SuccessText) && attached == old(attached)[id := outcome.webpPath])
      ensures ReportsSuccess(reply) <==> SingleSucceeds(idParam, intval, host, filesAfter, old(attached))
      ensures !ReportsSuccess(reply) ==> attached == old(attached)
    {
      if idParam.None? || !IsNumeric(idParam.value) {
        reply := Echo(InvalidIdText);
        OnlySuccessTextHasMarker(reply.text);
        return;
      }
      var postId := intval(idParam.value);
      var filePath := AttachedFile(attached, postId);
      var mime := MimeContentType(host, filePath);
      if mime.Threw? {
        return Fatal;
      }
      if !IsAllowedSniffed(mime.value) {
        reply := Echo(UnsupportedText);
        OnlySuccessTextHasMarker(reply.text);
        return;
      }
      var webpPath := Derive(filePath);
      var converted := ConvertToWebp(host.env, host.imaging, filePath, webpPath, mime.value.value);
      if converted.Threw? {
        return Fatal;
      }
      if converted.value {
        if !FileExists(filesAfter, webpPath) {
          reply := Echo(NotCreatedText);
          OnlySuccessTextHasMarker(reply.text);
          return;
        }
        attached := attached[postId := webpPath];
        reply := Echo(SuccessText);
      } else {
        reply := Echo(ConversionFailedText);
      }
      OnlySuccessTextHasMarker(reply.text);
    }

    /** One pass of the bulk loop's body for `postId`: sniff the type of
        its attached file, skip it when not allowed (`continue`), otherwise
        convert it to its derived path and, on success, record that path
        and count it. `crashed` reports a throw, which ends the request. */
    method BulkIteration(host: Host, postId: int, count: nat) returns (newCount: nat, crashed: bool)
      modifies this
      ensures BulkState(attached, newCount, crashed)
           == BulkStep(HostOutcomes(host), BulkState(old(attached), count, false), postId)
    {
      var filePath := AttachedFile(attached, postId);
      var mime := MimeContentType(host, filePath);
      if mime.Threw? {
        return count, true;
      }
      if !IsAllowedSniffed(mime.value) {
        return count, false;
      }
      var webpPath := Derive(filePath);
      var converted := ConvertToWebp(host.env, host.imaging, filePath, webpPath, mime.value.value);
      if converted.Threw? {
        return count, true;
      }
      newCount, crashed := count, false;
      if converted.value {
        attached := attached[postId := webpPath];
        newCount := count + 1;
      }
    }

    /** `awc_bulk_convert_images`: `imageIds` is `$_POST['image_ids']`
        (`None` when unset or not an array), as attachment ids. */
    method BulkConvert(imageIds: Option<seq<int>>, host: Host) returns (response: BulkResponse)
      modifies this
      ensures imageIds.None? ==> response == JsonError(NoImagesText) && attached == old(attached)
      ensures imageIds.Some? ==>
        var s := BulkRun(HostOutcomes(host), old(attached), imageIds.value);
        attached == s.attached && response == (if s.aborted then Aborted else JsonSuccess(s.count))
    {
      if imageIds.None? {
        return JsonError(NoImagesText);
      }
      var ids := imageIds.value;
      var convertedCount := 0;
      var i := 0;
      while i < |ids|
        invariant 0 <= i <= |ids|
        invariant BulkRun(HostOutcomes(host), old(attached), ids[..i]) == BulkState(attached, convertedCount, false)
      {
        var newCount, crashed := BulkIteration(host, ids[i], convertedCount);
        BulkRunExtends(HostOutcomes(host), old(attached), ids, i);
        if crashed {
          BulkAbortIsFinal(HostOutcomes(host), old(attached), ids, i + 1);
          return Aborted;
        }
        convertedCount := newCount;
        i := i + 1;
      }
      assert ids[..i] == ids;
      response := JsonSuccess(convertedCount);
    }
  }
}
