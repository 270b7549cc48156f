// The upload routes (server/routes/UploadRoutes.js): the storage-configuration
// guard, how a single upload's outcome becomes a response, and how the delete
// route finds the public ID of the file to remove. The storage service is an
// oracle: its error message and its answer to a delete are parameters.

module UploadRoutes {
  import opened Wrappers
  import Strings
  import UploadFilter

  /** `!cloudName || cloudName.includes('your_') || cloudName === 'root'`: the storage service is not set up. */
  predicate CloudMisconfigured(cloudName: Option<string>)
  {
    cloudName.None? || cloudName.value == "" || Strings.Includes(cloudName.value, "your_") || cloudName.value == "root"
  }

  /** The response of an upload route: the stored file's details, or a refusal with its status, error code and message. */
  datatype Reply =
    | Uploaded(fileName: string, fileType: string, fileExtension: string)
    | Refused(status: int, error: string, message: string)

  const NotConfigured := Refused(500, "CLOUDINARY_NOT_CONFIGURED", "File upload service is not configured. Please contact administrator.")

  /** An error from the upload middleware: one mentioning 'cloud_name' is a configuration error (500), any other a 400 carrying its message. */
  function UploadError(message: string): (r: Reply)
    ensures r.Refused? && (r.status == 500 <==> Strings.Includes(message, "cloud_name"))
    ensures r.status == 400 ==> r == Refused(400, "FILE_UPLOAD_ERROR", message)
    ensures r.status == 500 ==>
      r == Refused(500, "CLOUDINARY_CONFIG_ERROR", "File upload service configuration error. Please contact administrator.")
  {
    if message != "" && Strings.Includes(message, "cloud_name") then
      Refused(500, "CLOUDINARY_CONFIG_ERROR", "File upload service configuration error. Please contact administrator.")
    else Refused(400, "FILE_UPLOAD_ERROR", message)
  }

  /** A file in the request: its original name and the MIME type the client declared. */
  datatype FilePart = FilePart(originalName: string, mimetype: Option<string>)

  /**
   * `POST /upload`: the configuration guard, then the upload middleware (the filter, then
   * the storage service, whose failure message is `storageError`), the missing-file check and
   * the extension comparison, then the file's details.
   */
  function SingleUpload(cloudName: Option<string>, file: Option<FilePart>, storageError: Option<string>): (r: Reply)
    ensures CloudMisconfigured(cloudName) ==> r == NotConfigured
    ensures !CloudMisconfigured(cloudName) && file.None? ==> r == Refused(400, "NO_FILE_ERROR", "No file uploaded")
  {
    if CloudMisconfigured(cloudName) then NotConfigured
    else match file
      case None => Refused(400, "NO_FILE_ERROR", "No file uploaded")
      case Some(f) =>
        match UploadFilter.FileFilter(f.originalName, f.mimetype)
        case Reject(m) => UploadError(m)
        case Accept(backendExtension, _) =>
          if storageError.Some? then UploadError(storageError.value)
          else
            var frontendExtension := Strings.Lower(UploadFilter.ExtName(f.originalName));
            if backendExtension != frontendExtension then
              Refused(400, "EXTENSION_MISMATCH_ERROR",
                      "File extension mismatch: frontend sent " + frontendExtension + ", backend detected " + backendExtension)
            else Uploaded(f.originalName, f.mimetype.value, backendExtension)
  }

  /**
   * A file is uploaded exactly when the service is configured, a file was sent, the filter
   * accepts it and the storage service succeeds; the reply carries its name, type and
   * lower-cased extension.
   */
  lemma SingleUploadAccepts(cloudName: Option<string>, file: Option<FilePart>, storageError: Option<string>)
    ensures var r := SingleUpload(cloudName, file, storageError);
      r.Uploaded? <==>
        (!CloudMisconfigured(cloudName) && file.Some? &&
         UploadFilter.FileFilter(file.value.originalName, file.value.mimetype).Accept? && storageError.None?)
    ensures var r := SingleUpload(cloudName, file, storageError);
      r.Uploaded? ==>
        r.fileName == file.value.originalName && r.fileType == file.value.mimetype.value &&
        r.fileExtension == Strings.Lower(UploadFilter.ExtName(file.value.originalName))
  {
    if !CloudMisconfigured(cloudName) && file.Some? {
      var f := file.value;
      var d := UploadFilter.FileFilter(f.originalName, f.mimetype);
      if d.Accept? {
        assert d.extension == Strings.Lower(UploadFilter.ExtName(f.originalName));
      }
    }
  }

  /**
   * The extension check after the filter never fails: the filter derives the extension it
   * records the same way the route does.
   */
  lemma ExtensionMismatchUnreachable(cloudName: Option<string>, file: Option<FilePart>, storageError: Option<string>)
    ensures var r := SingleUpload(cloudName, file, storageError);
      r.Refused? ==> r.error != "EXTENSION_MISMATCH_ERROR"
  {
    if !CloudMisconfigured(cloudName) && file.Some? {
      var f := file.value;
      var d := UploadFilter.FileFilter(f.originalName, f.mimetype);
      if d.Accept? {
        assert d.extension == Strings.Lower(UploadFilter.ExtName(f.originalName));
      } else {
        assert UploadError(d.message).error != "EXTENSION_MISMATCH_ERROR";
      }
    }
  }

  // ---------------------------------------------------------------------------
  // Deleting a file

  /** A JavaScript truthiness test on an optional string. */
  predicate Truthy(s: Option<string>)
  {
    s.Some? && s.value != ""
  }

  /** The folder the storage parameters put every upload in. */
  const Folder := "lms_uploads/"

  /** The last '/'-separated segment of a URL. */
  function LastSegment(url: string): (r: string)
    ensures '/' !in r && r == url[Strings.LastIndexOf(url, '/') + 1..]
  {
    var parts := Strings.Split(url, '/');
    Strings.SplitLast(url, '/');
    Strings.SplitPieces(url, '/');
    parts[|parts| - 1]
  }

  /** The text of `seg` before its first '.'. */
  function BeforeFirstDot(seg: string): (r: string)
    ensures '.' !in r
    ensures r == if '.' in seg then seg[..Strings.IndexOf(seg, '.')] else seg
  {
    Strings.SplitFirst(seg, '.');
    Strings.SplitPieces(seg, '.');
    Strings.Split(seg, '.')[0]
  }

  /**
   * The public ID `DELETE /delete` destroys: a given `publicId` verbatim; otherwise the
   * folder followed by the URL's last segment up to its first dot; nothing (a 400) when
   * neither is given.
   */
  function DeleteTarget(fileUrl: Option<string>, publicId: Option<string>): (r: Option<string>)
    ensures r.None? <==> !Truthy(fileUrl) && !Truthy(publicId)
    ensures Truthy(publicId) ==> r == Some(publicId.value)
    ensures !Truthy(publicId) && Truthy(fileUrl) ==> r == Some(Folder + BeforeFirstDot(LastSegment(fileUrl.value)))
  {
    if !Truthy(fileUrl) && !Truthy(publicId) then None
    else if Truthy(publicId) then Some(publicId.value)
    else Some(Folder + BeforeFirstDot(LastSegment(fileUrl.value)))
  }

  /** A derived public ID is the folder and one dot-free, slash-free name. */
  lemma DerivedIdShape(fileUrl: string)
    requires fileUrl != ""
    ensures var r := DeleteTarget(Some(fileUrl), None);
      r.Some? && |r.value| >= |Folder| && r.value[..|Folder|] == Folder &&
      '/' !in r.value[|Folder|..] && '.' !in r.value[|Folder|..]
  {
    var name := BeforeFirstDot(LastSegment(fileUrl));
    assert (Folder + name)[|Folder|..] == name;
    assert (Folder + name)[..|Folder|] == Folder;
  }

  /** What the storage service answers to a destroy call. */
  datatype Destroyed = Answered(result: string) | Threw(message: string)

  /** `DELETE /delete`: 400 without an identifier, 200 when the service answers 'ok', 400 for any other answer, 500 when it throws. */
  function DeleteStatus(fileUrl: Option<string>, publicId: Option<string>, destroyed: Destroyed): (status: int)
    ensures status == 200 <==> DeleteTarget(fileUrl, publicId).Some? && destroyed == Answered("ok")
    ensures status == 500 <==> DeleteTarget(fileUrl, publicId).Some? && destroyed.Threw?
    ensures DeleteTarget(fileUrl, publicId).None? ==> status == 400
  {
    if DeleteTarget(fileUrl, publicId).None? then 400
    else match destroyed
      case Threw(_) => 500
      case Answered(result) => if result == "ok" then 200 else 400
  }

  // ---------------------------------------------------------------------------
  // Stored public IDs and their URLs

  /**
   * The public ID the storage parameters give an upload, inside the folder: the original
   * name without its extension, '_', and the upload time in milliseconds.
   */
  function StoredName(originalName: string, now: nat): (r: string)
    ensures '/' !in r
  {
    var base := UploadFilter.BaseName(originalName);
    var ext := UploadFilter.ExtName(originalName);
    var stem := if |ext| <= |base| then base[..|base| - |ext|] else base;
    assert forall i :: 0 <= i < |Strings.NatString(now)| ==> Strings.NatString(now)[i] != '/';
    stem + "_" + Strings.NatString(now)
  }

  /** The stored name of `stem.ext` keeps the whole stem, inner dots included. */
  lemma StoredNameOfStem(stem: string, ext: string, now: nat)
    requires stem != "" && stem[0] != '.' && '/' !in stem && '/' !in ext && '.' !in ext
    ensures StoredName(stem + "." + ext, now) == stem + "_" + Strings.NatString(now)
  {
    var p := stem + "." + ext;
    UploadFilter.ExtNameOfStem(stem, ext);
    assert '/' !in p;
    assert UploadFilter.BaseName(p) == p;
    assert p == stem + ("." + ext);
    assert p[..|p| - |"." + ext|] == stem;
  }

  /** The delivery URL of a stored file: any prefix, '/', the stored name, '.', and its format. */
  function DeliveryUrl(prefix: string, name: string, format: string): string
  {
    prefix + "/" + name + "." + format
  }

  /**
   * As written, a stored name with a dot in it does not survive the URL round trip: the
   * derived ID stops at the name's first dot, so the delete targets another ID.
   */
  lemma DottedNameMisderived(prefix: string, name: string, format: string)
    requires '/' !in name && '/' !in format && '.' !in format
    requires '.' in name
    ensures DeleteTarget(Some(DeliveryUrl(prefix, name, format)), None) != Some(Folder + name)
  {
    var url := DeliveryUrl(prefix, name, format);
    var seg := name + "." + format;
    SegmentOfUrl(prefix, seg);
    assert url == prefix + "/" + seg;
    var derived := BeforeFirstDot(LastSegment(url));
    assert '.' !in derived;
    assert derived != name;
    assert (Folder + derived)[|Folder|..] == derived && (Folder + name)[|Folder|..] == name;
  }

  /** The last segment of `prefix + "/" + seg` is `seg` when it has no '/'. */
  lemma SegmentOfUrl(prefix: string, seg: string)
    requires '/' !in seg
    ensures LastSegment(prefix + "/" + seg) == seg
  {
    var url := prefix + "/" + seg;
    var at := |prefix|;
    assert url[at] == '/';
    assert forall j :: at < j < |url| ==> url[j] == seg[j - at - 1];
    UploadFilter.LastIndexOfAt(url, '/', at);
    assert url[at + 1..] == seg;
  }

  /** The derivation with only the format removed: the last segment up to its last dot. */
  function DeleteTargetFixed(fileUrl: Option<string>, publicId: Option<string>): (r: Option<string>)
    ensures r.None? <==> !Truthy(fileUrl) && !Truthy(publicId)
    ensures Truthy(publicId) ==> r == Some(publicId.value)
  {
    if !Truthy(fileUrl) && !Truthy(publicId) then None
    else if Truthy(publicId) then Some(publicId.value)
    else
      var seg := LastSegment(fileUrl.value);
      var d := Strings.LastIndexOf(seg, '.');
      Some(Folder + (if d < 0 then seg else seg[..d]))
  }

  /** In `name.format` with a dot-free format, the last dot is the one before the format. */
  lemma LastDotBeforeFormat(name: string, format: string)
    requires '.' !in format
    ensures Strings.LastIndexOf(name + "." + format, '.') == |name|
    ensures (name + "." + format)[..|name|] == name
  {
    var seg := name + "." + format;
    assert seg == name + ("." + format);
    var tail := "." + format;
    assert tail[0] == '.';
    assert forall j :: 0 < j < |tail| ==> tail[j] == format[j - 1];
    assert seg[|name|] == '.';
    assert forall j :: |name| < j < |seg| ==> seg[j] == tail[j - |name|];
    UploadFilter.LastIndexOfAt(seg, '.', |name|);
  }

  /** With only the format removed, every stored name survives the URL round trip, dots and all. */
  lemma FixedRoundTrip(prefix: string, name: string, format: string)
    requires '/' !in name && '/' !in format && '.' !in format
    ensures DeleteTargetFixed(Some(DeliveryUrl(prefix, name, format)), None) == Some(Folder + name)
  {
    var seg := name + "." + format;
    assert DeliveryUrl(prefix, name, format) == prefix + "/" + seg;
    SegmentOfUrl(prefix, seg);
    LastDotBeforeFormat(name, format);
  }

  /** The stored name of an upload whose original name has no dot before its extension round-trips either way. */
  lemma DotFreeNamesAgree(prefix: string, name: string, format: string)
    requires '/' !in name && '/' !in format && '.' !in format && '.' !in name
    ensures DeleteTarget(Some(DeliveryUrl(prefix, name, format)), None) == Some(Folder + name)
    ensures DeleteTargetFixed(Some(DeliveryUrl(prefix, name, format)), None) == Some(Folder + name)
  {
    var seg := name + "." + format;
    assert DeliveryUrl(prefix, name, format) == prefix + "/" + seg;
    SegmentOfUrl(prefix, seg);
    assert seg[|name|] == '.';
    assert forall j :: 0 <= j < |name| ==> seg[j] == name[j];
    assert Strings.IndexOf(seg, '.') == |name|;
    assert seg[..|name|] == name;
    FixedRoundTrip(prefix, name, format);
  }
}
