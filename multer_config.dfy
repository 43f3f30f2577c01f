/**
 * The upload middleware's configuration (backend/src/config/multer.js): the `fileFilter`
 * that admits four image MIME types, reporting through its callback `cb(error, accept)`,
 * and the 5 MiB file size limit.
 */
module MulterConfig {
  import opened Options

  const AllowedTypes: seq<string> := ["image/jpeg", "image/jpg", "image/png", "image/webp"]
  const InvalidTypeMessage := "Invalid file type. Only JPG, PNG, and WEBP are allowed."
  const MaxFileSize := 5 * 1024 * 1024

  /** The arguments `fileFilter` passes to its callback: an error, and whether to accept. */
  datatype FilterCall = FilterCall(error: Option<string>, accept: bool)

  /** Why multer refuses an upload: the filter's error, or a file over the size limit. */
  datatype Refusal = FilteredOut(message: string) | FileTooLarge

  /** `fileFilter(req, file, cb)`: accept exactly the whitelisted MIME types. */
  function FileFilter(mimetype: string): (c: FilterCall)
    ensures c.accept <==> mimetype in AllowedTypes
    ensures c.accept <==> c.error.None?
    ensures !c.accept ==> c.error == Some(InvalidTypeMessage)
  {
    if mimetype in AllowedTypes then FilterCall(None, true)
    else FilterCall(Some(InvalidTypeMessage), false)
  }

  /**
   * An upload as a whole: the filter runs when the file part starts, before any byte is
   * counted, and the size limit then refuses a file longer than 5 MiB.
   */
  function Admit(mimetype: string, size: nat): (r: Option<Refusal>)
    ensures r.None? <==> mimetype in AllowedTypes && size <= MaxFileSize
    ensures mimetype !in AllowedTypes ==> r == Some(FilteredOut(InvalidTypeMessage))
    ensures mimetype in AllowedTypes && size > MaxFileSize ==> r == Some(FileTooLarge)
  {
    var call := FileFilter(mimetype);
    if !call.accept then Some(FilteredOut(call.error.value))
    else if size > MaxFileSize then Some(FileTooLarge)
    else None
  }

  /** HEIC and HEIF pictures, which the profile page lets through, are refused here. */
  lemma HeicRefused(size: nat)
    ensures Admit("image/heic", size) == Some(FilteredOut(InvalidTypeMessage))
    ensures Admit("image/heif", size) == Some(FilteredOut(InvalidTypeMessage))
  {
    assert "image/heic" != AllowedTypes[0] && "image/heic" != AllowedTypes[1];
    assert "image/heic" != AllowedTypes[2] && "image/heic" != AllowedTypes[3];
    assert "image/heif" != AllowedTypes[0] && "image/heif" != AllowedTypes[1];
    assert "image/heif" != AllowedTypes[2] && "image/heif" != AllowedTypes[3];
  }

  /** The filter's verdict depends on the MIME type alone: an oversized file is never misreported as the wrong type. */
  lemma TypeCheckedFirst(mimetype: string, size1: nat, size2: nat)
    requires mimetype !in AllowedTypes
    ensures Admit(mimetype, size1) == Admit(mimetype, size2)
  {
  }

  /** A file of exactly 5 MiB is admitted; one byte more is not. */
  lemma LimitIsInclusive(mimetype: string)
    requires mimetype in AllowedTypes
    ensures Admit(mimetype, 5242880).None?
    ensures Admit(mimetype, 5242881) == Some(FileTooLarge)
  {
  }
}
