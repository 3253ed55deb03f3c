/** file-viewer/src/components/FileUpload.tsx: the upload form, which
    vets a chosen file and posts it to the development server. */
module FileUpload {
  import opened Wrappers
  import opened Strings
  import opened Types
  import opened FileUtils

  /** The alternatives of `/\.(pdf|html?|jpe?g|png|gif|webp|svg)$/i`, with
      `html?` and `jpe?g` spelt out. */
  const UPLOAD_EXTENSIONS: seq<string> := ["pdf", "htm", "html", "jpg", "jpeg", "png", "gif", "webp", "svg"]

  /** 50 MiB. */
  const MAX_UPLOAD_SIZE: int := 50 * 1024 * 1024

  const TYPE_NOT_ALLOWED: string := "Only PDF, HTML, and image files are allowed"
  const TOO_LARGE: string := "File size must be less than 50MB"
  const NOT_AVAILABLE: string := "Upload functionality is not available in production"
  const UPLOAD_FAILED: string := "Upload failed"

  /** `window.location.hostname === 'localhost' || ... === '127.0.0.1'`:
      the page is served by the development setup, where the server's
      write endpoints exist. */
  predicate IsBackendAvailable(hostname: string) {
    hostname == "localhost" || hostname == "127.0.0.1"
  }

  /** The browser's `File`, reduced to what the form looks at. */
  datatype UploadFile = UploadFile(name: string, size: nat)

  /** `allowedTypes.test(name)`. */
  predicate AllowedType(name: string) {
    MatchesExtension(name, UPLOAD_EXTENSIONS)
  }

  /** The two checks of `handleFileSelect`, type first. */
  function CheckFile(file: UploadFile): Option<string> {
    if !AllowedType(file.name) then Some(TYPE_NOT_ALLOWED)
    else if file.size > MAX_UPLOAD_SIZE then Some(TOO_LARGE)
    else None
  }

  lemma UploadExtensionsSplit(e: string)
    ensures e in UPLOAD_EXTENSIONS <==> e in HTML_EXTENSIONS || e == "pdf" || e in IMAGE_EXTENSIONS
  {
  }

  /** The whitelist admits exactly the names with a '.' that `getFileType`
      tags 'html', 'pdf' or 'image'; a dot-less name such as "pdf" is
      refused although `getFileType` calls it a 'pdf'. */
  lemma AllowedTypeAgreesWithGetFileType(name: string)
    ensures AllowedType(name) <==> '.' in name && GetFileType(name) in {Html, Pdf, Image}
  {
    assert DotFree(UPLOAD_EXTENSIONS);
    MatchesExtensionIffLastExtension(name, UPLOAD_EXTENSIONS);
    var e := AfterLastDot(Lower(name));
    UploadExtensionsSplit(e);
    ExtensionListsDisjoint(e);
  }

  /** A file is accepted exactly when its type is allowed and it is at most
      50 MiB; a disallowed type reports the type error whatever the size. */
  lemma CheckFileOutcomes(file: UploadFile)
    ensures CheckFile(file).None? <==> AllowedType(file.name) && file.size <= 52428800
    ensures !AllowedType(file.name) ==> CheckFile(file) == Some(TYPE_NOT_ALLOWED)
    ensures AllowedType(file.name) && file.size > 52428800 ==> CheckFile(file) == Some(TOO_LARGE)
  {
  }

  /** A request to `/api/upload`: the file, and the `targetFolder` field
      when it is sent. */
  datatype UploadRequest = UploadRequest(file: UploadFile, targetFolder: Option<string>)

  /** What the awaited `fetch` produced: an ok response naming the stored
      file; a non-ok one whose body has the `error` field given ("" when
      absent); or a thrown `Error` with a message (Some) or another value. */
  datatype UploadOutcome = Uploaded(filename: string) | NotOk(errorField: string) | Threw(message: Option<string>)

  /** The message the catch block shows for a failed upload: the server's
      `error` field or the thrown `Error`'s message, with "Upload failed" as
      the fallback. A failure is therefore never silent, unless an `Error`
      with an empty message was thrown. */
  function FailureMessage(outcome: UploadOutcome): (message: string)
    requires !outcome.Uploaded?
    ensures message == "" <==> outcome == Threw(Some(""))
  {
    match outcome
    case NotOk(e) => if e != "" then e else UPLOAD_FAILED
    case Threw(m) => if m.Some? then m.value else UPLOAD_FAILED
  }

  /** The form's state fields. */
  class UploadForm {
    var selectedFile: Option<UploadFile>
    var uploading: bool
    var error: string
    var success: string

    constructor ()
      ensures selectedFile == None && !uploading && error == "" && success == ""
    {
      selectedFile := None;
      uploading := false;
      error := "";
      success := "";
    }

    /** `handleFileSelect`: with no file nothing changes; a refused file
        only sets the error and keeps the previous selection; an accepted
        one is selected and both messages clear. */
    method HandleFileSelect(file: Option<UploadFile>)
      modifies this
      ensures uploading == old(uploading)
      ensures file.None? ==>
        selectedFile == old(selectedFile) && error == old(error) && success == old(success)
      ensures file.Some? && CheckFile(file.value).Some? ==>
        selectedFile == old(selectedFile) && error == CheckFile(file.value).value && success == old(success)
      ensures file.Some? && CheckFile(file.value).None? ==>
        selectedFile == file && error == "" && success == ""
    {
      if file.Some? {
        var f := file.value;
        if !AllowedType(f.name) {
          error := TYPE_NOT_ALLOWED;
          return;
        }
        if f.size > MAX_UPLOAD_SIZE {
          error := TOO_LARGE;
          return;
        }
        selectedFile := file;
        error := "";
        success := "";
      }
    }

    /** `handleUpload` up to the await: nothing happens without a selected
        file; off the development host only the error is set; otherwise the
        upload starts with the selected file, naming the target folder only
        when it is given and non-empty. */
    method HandleUpload(hostname: string, targetFolder: Option<string>) returns (request: Option<UploadRequest>)
      modifies this
      ensures selectedFile == old(selectedFile) && success == old(success)
      ensures old(selectedFile).None? ==>
        request == None && uploading == old(uploading) && error == old(error)
      ensures old(selectedFile).Some? && !IsBackendAvailable(hostname) ==>
        request == None && uploading == old(uploading) && error == NOT_AVAILABLE
      ensures old(selectedFile).Some? && IsBackendAvailable(hostname) ==>
        && uploading && error == ""
        && request.Some? && request.value.file == old(selectedFile).value
        && (request.value.targetFolder.Some? <==> targetFolder.Some? && targetFolder.value != "")
        && (request.value.targetFolder.Some? ==> request.value.targetFolder == targetFolder)
    {
      if selectedFile.None? {
        return None;
      }
      if !IsBackendAvailable(hostname) {
        error := NOT_AVAILABLE;
        return None;
      }
      uploading := true;
      error := "";
      var folder: Option<string> := None;
      if targetFolder.Some? && targetFolder.value != "" {
        folder := targetFolder;
      }
      request := Some(UploadRequest(selectedFile.value, folder));
    }

    /** `handleUpload` after the await: success reports the stored name and
        clears the selection; a failure sets the error and keeps the
        selection. Either way the upload is over. The result says whether
        the parent is told of the success. */
    method CompleteUpload(outcome: UploadOutcome) returns (notifyParent: bool)
      modifies this
      ensures !uploading
      ensures notifyParent <==> outcome.Uploaded?
      ensures outcome.Uploaded? ==>
        && selectedFile == None && error == old(error)
        && success == "File \"" + outcome.filename + "\" uploaded successfully!"
      ensures !outcome.Uploaded? ==>
        selectedFile == old(selectedFile) && success == old(success) && error == FailureMessage(outcome)
    {
      if outcome.Uploaded? {
        success := "File \"" + outcome.filename + "\" uploaded successfully!";
        selectedFile := None;
        notifyParent := true;
      } else {
        error := FailureMessage(outcome);
        notifyParent := false;
      }
      uploading := false;
    }
  }
}
