// The upload filter (server/middleware/upload.js): a file is accepted when the
// lower-cased extension of its original name is in the allowed table and its
// lower-cased MIME type is the one listed for that extension. Storage and size
// limits belong to the upload library and are not modelled.

module UploadFilter {
  import opened Wrappers
  import Strings

  /** The last segment of a POSIX path: everything after its last '/'. */
  function BaseName(p: string): (r: string)
    ensures '/' !in r
    ensures |r| <= |p| && r == p[|p| - |r|..]
  {
    var i := Strings.LastIndexOf(p, '/');
    p[i + 1..]
  }

  /**
   * `path.extname(p)` on a path without a trailing '/': the last segment from its last dot,
   * or empty when the segment has no dot, starts with its only dot, or is '..'.
   */
  function ExtName(p: string): (r: string)
    ensures r == "" || (r[0] == '.' && '.' !in r[1..] && '/' !in r && |r| <= |p| && r == p[|p| - |r|..])
    ensures '.' !in BaseName(p) ==> r == ""
  {
    var b := BaseName(p);
    var d := Strings.LastIndexOf(b, '.');
    if d <= 0 || b == ".." then ""
    else
      b[d..]
  }

  /** The last `c` of `s` is at `k` when `s[k]` is one and none follows it. */
  lemma LastIndexOfAt(s: string, c: char, k: nat)
    requires k < |s| && s[k] == c
    requires forall j :: k < j < |s| ==> s[j] != c
    ensures Strings.LastIndexOf(s, c) == k
  {
  }

  /** A name made of a stem, a dot and a dot-free suffix has that suffix, dot included, as its extension. */
  lemma ExtNameOfStem(stem: string, ext: string)
    requires '/' !in stem && '/' !in ext && '.' !in ext
    requires stem != "" && stem[0] != '.'
    ensures ExtName(stem + "." + ext) == "." + ext
  {
    var p := stem + "." + ext;
    assert '/' !in p;
    assert BaseName(p) == p;
    var at := |stem|;
    assert forall j :: at < j < |p| ==> p[j] == ext[j - at - 1];
    LastIndexOfAt(p, '.', at);
    assert p[0] != '.';
    assert p[at..] == "." + ext;
  }

  /** A dot-file with no other dot (`.env`) has no extension. */
  lemma DotFileHasNoExtension(rest: string)
    requires '/' !in rest && '.' !in rest
    ensures ExtName("." + rest) == ""
  {
    var p := "." + rest;
    assert '/' !in p;
    assert BaseName(p) == p;
    assert forall j :: 0 < j < |p| ==> p[j] == rest[j - 1];
    LastIndexOfAt(p, '.', 0);
  }

  /** `allowedFileTypes`: each extension with the MIME types it may carry. */
  const AllowedFileTypes: seq<(string, seq<string>)> := [
    (".jpg", ["image/jpeg"]),
    (".jpeg", ["image/jpeg"]),
    (".png", ["image/png"]),
    (".gif", ["image/gif"]),
    (".webp", ["image/webp"]),
    (".svg", ["image/svg+xml"]),
    (".mp4", ["video/mp4"]),
    (".avi", ["video/x-msvideo"]),
    (".mov", ["video/quicktime"]),
    (".wmv", ["video/x-ms-wmv"]),
    (".webm", ["video/webm"]),
    (".pdf", ["application/pdf"]),
    (".doc", ["application/msword"]),
    (".docx", ["application/vnd.openxmlformats-officedocument.wordprocessingml.document"]),
    (".xls", ["application/vnd.ms-excel"]),
    (".xlsx", ["application/vnd.openxmlformats-officedocument.spreadsheetml.sheet"]),
    (".ppt", ["application/vnd.ms-powerpoint"]),
    (".pptx", ["application/vnd.openxmlformats-officedocument.presentationml.presentation"]),
    (".txt", ["text/plain"]),
    (".mp3", ["audio/mpeg"]),
    (".wav", ["audio/wav"]),
    (".ogg", ["audio/ogg"]),
    (".zip", ["application/zip"]),
    (".rar", ["application/vnd.rar"]),
    (".7z", ["application/x-7z-compressed"])
  ]

  /** The table's entry for `ext`, if it has one. */
  function Lookup(table: seq<(string, seq<string>)>, ext: string): (r: Option<seq<string>>)
    ensures r.Some? <==> exists i :: 0 <= i < |table| && table[i].0 == ext
    ensures r.Some? ==> exists i :: 0 <= i < |table| && table[i] == (ext, r.value)
  {
    if table == [] then None
    else if table[0].0 == ext then
      assert table[0] == (ext, table[0].1);
      Some(table[0].1)
    else
      var r := Lookup(table[1..], ext);
      assert forall i :: 1 <= i < |table| ==> table[i] == table[1..][i - 1];
      r
  }

  /** The MIME types allowed for an extension. */
  function MimesOf(ext: string): (r: Option<seq<string>>)
    ensures r.Some? <==> exists i :: 0 <= i < |AllowedFileTypes| && AllowedFileTypes[i].0 == ext
  {
    Lookup(AllowedFileTypes, ext)
  }

  /** Every extension in the table carries exactly one MIME type. */
  lemma TableSingletons()
    ensures forall i :: 0 <= i < |AllowedFileTypes| ==> |AllowedFileTypes[i].1| == 1
  {
  }

  /** In a table of single types, a type listed for a key is the only one listed for it. */
  lemma LookupOnly(table: seq<(string, seq<string>)>, ext: string, mime: string)
    requires forall i :: 0 <= i < |table| ==> |table[i].1| == 1
    requires Lookup(table, ext).Some? && mime in Lookup(table, ext).value
    ensures Lookup(table, ext) == Some([mime])
  {
    var v := Lookup(table, ext).value;
    var i :| 0 <= i < |table| && table[i] == (ext, v);
    assert |v| == 1 && v == [v[0]];
  }

  /** '.jpg' and '.jpeg' both map to 'image/jpeg'. */
  lemma JpegFacts()
    ensures MimesOf(".jpg") == Some(["image/jpeg"]) && MimesOf(".jpeg") == Some(["image/jpeg"])
  {
  }

  /** Every key is at least three characters long, so no shorter extension (the empty one included) is a key. */
  lemma ShortNotKey(ext: string)
    requires |ext| < 3
    ensures MimesOf(ext).None?
  {
    assert forall i :: 0 <= i < |AllowedFileTypes| ==> |AllowedFileTypes[i].0| >= 3;
  }

  /** The refusal of an extension that is not a key. */
  function ExtensionNotAllowed(ext: string): string
  {
    "File extension " + ext + " is not allowed"
  }

  /** The refusal of a type not listed for the extension. */
  function TypeMismatch(mime: string, ext: string): string
  {
    "File MIME type " + mime + " does not match extension " + ext
  }

  /** What the filter decides: accept, recording the lower-cased extension and type, or reject with a message. */
  datatype Decision = Accept(extension: string, mimeType: string) | Reject(message: string)

  /**
   * `fileFilter`: the lower-cased extension must be a key of the table, then the lower-cased
   * MIME type must be listed for it. A file without a MIME type fails inside the filter.
   */
  function FileFilter(originalName: string, mimetype: Option<string>): (r: Decision)
    ensures mimetype.None? ==> r == Reject("Error validating file type")
    ensures r.Accept? <==>
      (mimetype.Some? && MimesOf(Strings.Lower(ExtName(originalName))).Some? &&
       Strings.Lower(mimetype.value) in MimesOf(Strings.Lower(ExtName(originalName))).value)
    ensures r.Accept? ==> r.extension == Strings.Lower(ExtName(originalName)) && r.mimeType == Strings.Lower(mimetype.value)
    ensures mimetype.Some? && MimesOf(Strings.Lower(ExtName(originalName))).None? ==>
      r == Reject(ExtensionNotAllowed(Strings.Lower(ExtName(originalName))))
  {
    var ext := Strings.Lower(ExtName(originalName));
    match mimetype
    case None => Reject("Error validating file type")
    case Some(m) =>
      var mime := Strings.Lower(m);
      match MimesOf(ext)
      case None => Reject(ExtensionNotAllowed(ext))
      case Some(allowed) =>
        if mime !in allowed then Reject(TypeMismatch(mime, ext))
        else Accept(ext, mime)
  }

  /** A name without an extension is always refused. */
  lemma NoExtensionRefused(originalName: string, mime: string)
    requires ExtName(originalName) == ""
    ensures FileFilter(originalName, Some(mime)) == Reject(ExtensionNotAllowed(""))
  {
    ShortNotKey(Strings.Lower(ExtName(originalName)));
    assert Strings.Lower(ExtName(originalName)) == "";
  }

  /**
   * An accepted file's extension and type are already lower case, and the type is the
   * single one the table lists for the extension.
   */
  lemma AcceptedFacts(originalName: string, mimetype: Option<string>)
    requires FileFilter(originalName, mimetype).Accept?
    ensures var r := FileFilter(originalName, mimetype);
      Strings.Lower(r.extension) == r.extension && Strings.Lower(r.mimeType) == r.mimeType &&
      MimesOf(r.extension) == Some([r.mimeType])
  {
    var r := FileFilter(originalName, mimetype);
    var e := ExtName(originalName);
    assert r.extension == Strings.Lower(e) && r.mimeType == Strings.Lower(mimetype.value);
    assert MimesOf(r.extension).Some? && r.mimeType in MimesOf(r.extension).value;
    Strings.LowerIdempotent(e);
    Strings.LowerIdempotent(mimetype.value);
    OnlyListedType(r.extension, r.mimeType);
  }

  /** A type listed for an extension is the only one listed for it. */
  lemma OnlyListedType(ext: string, mime: string)
    requires MimesOf(ext).Some? && mime in MimesOf(ext).value
    ensures MimesOf(ext) == Some([mime])
  {
    TableSingletons();
    LookupOnly(AllowedFileTypes, ext, mime);
  }

  lemma LowerJpeg()
    ensures Strings.Lower("." + "JPG") == ".jpg"
    ensures Strings.Lower("IMAGE/JPEG") == "image/jpeg"
  {
  }

  /** An upper-case spelling of an allowed extension and type is accepted: a '.JPG' file sent as 'IMAGE/JPEG'. */
  lemma UpperCaseAccepted(stem: string)
    requires stem != "" && stem[0] != '.' && '/' !in stem
    ensures FileFilter(stem + "." + "JPG", Some("IMAGE/JPEG")) == Accept(".jpg", "image/jpeg")
  {
    ExtNameOfStem(stem, "JPG");
    LowerJpeg();
    JpegFacts();
  }
}
