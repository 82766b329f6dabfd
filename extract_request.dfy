/**
 The guard ladder of the `/extract` endpoint: the checks that decide, before
 anything touches the file system, whether a multipart request is answered
 with a 400 error or goes on to the save-and-extract path.

 The request's file mapping is a map from form-field name to the uploaded
 part. The save-and-extract path (sanitising the name, saving the upload,
 reading it back, asking the language model, removing the file) is I/O and
 is not modelled: it enters as the parameter `proceed`.
 */
module ExtractRequest {
  import opened FileTypes

  /** The form field the endpoint reads the upload from. */
  const FileField: string := "file"

  /**
   One uploaded part: its client-supplied filename, and whether the upload
   object counts as true in a condition (the rule for that belongs to the
   web framework and is not part of this model).
   */
  datatype FilePart = FilePart(filename: string, truthy: bool)

  /** What the guard ladder decides about a request. */
  datatype Verdict = NoFilePart | NoSelectedFile | TypeNotAllowed | Accepted(part: FilePart)

  datatype Body = Error(message: string) | ExtractedFeatures(content: string)

  /** An HTTP response: its status code and its JSON body. */
  datatype Response = Response(status: int, body: Body)

  /** The guards of the endpoint, in the order it runs them. */
  function Check(files: map<string, FilePart>): (v: Verdict)
    ensures v.NoFilePart? <==> FileField !in files
    ensures v.NoSelectedFile? <==> FileField in files && files[FileField].filename == ""
    ensures v.TypeNotAllowed? <==>
      FileField in files && files[FileField].filename != ""
      && !(files[FileField].truthy && AllowedFile(files[FileField].filename))
    ensures v.Accepted? ==> v.part == files[FileField]
  {
    if FileField !in files then NoFilePart
    else
      var file := files[FileField];
      if file.filename == "" then NoSelectedFile
      else if file.truthy && AllowedFile(file.filename) then Accepted(file)
      else TypeNotAllowed
  }

  /** The error text the endpoint sends for each rejection; each text names exactly one rejection. */
  function ErrorMessage(v: Verdict): (msg: string)
    requires !v.Accepted?
    ensures msg == "No file part" <==> v.NoFilePart?
    ensures msg == "No selected file" <==> v.NoSelectedFile?
    ensures msg == "File type not allowed" <==> v.TypeNotAllowed?
  {
    match v
    case NoFilePart => "No file part"
    case NoSelectedFile => "No selected file"
    case TypeNotAllowed => "File type not allowed"
  }

  /**
   The endpoint: a rejected request is answered with status 400 and the
   error text of the first guard it fails; an accepted one is handed, with
   its upload, to the save-and-extract path.
   */
  function ExtractFeatures(files: map<string, FilePart>, proceed: FilePart -> Response): (resp: Response)
    ensures FileField !in files ==> resp == Response(400, Error("No file part"))
    ensures FileField in files && files[FileField].filename == "" ==>
      resp == Response(400, Error("No selected file"))
    ensures (FileField in files && files[FileField].filename != ""
             && !(files[FileField].truthy && AllowedFile(files[FileField].filename))) ==>
      resp == Response(400, Error("File type not allowed"))
    ensures (FileField in files && files[FileField].filename != ""
             && files[FileField].truthy && AllowedFile(files[FileField].filename)) ==>
      resp == proceed(files[FileField])
  {
    var v := Check(files);
    if v.Accepted? then proceed(v.part) else Response(400, Error(ErrorMessage(v)))
  }

  /**
   Every rejection is decided before the save-and-extract path runs: the
   response to a rejected request does not depend on that path at all.
   */
  lemma RejectionBeforeAnyIO(files: map<string, FilePart>, proceed: FilePart -> Response, other: FilePart -> Response)
    requires !Check(files).Accepted?
    ensures ExtractFeatures(files, proceed) == ExtractFeatures(files, other)
    ensures ExtractFeatures(files, proceed).status == 400
  {
  }

  /** Only the `file` field of the request is consulted; other fields never change the verdict. */
  lemma OnlyFileFieldConsulted(files: map<string, FilePart>, other: map<string, FilePart>)
    requires FileField in files <==> FileField in other
    requires FileField in files ==> files[FileField] == other[FileField]
    ensures Check(files) == Check(other)
  {
  }

  /**
   Upper-casing the uploaded name never changes the verdict: an accepted
   upload stays accepted and a rejected one is rejected for the same reason.
   */
  lemma {:induction false} UpperCaseUploadSameVerdict(files: map<string, FilePart>)
    requires FileField in files
    ensures var part := files[FileField];
      var shouted := files[FileField := FilePart(Upper(part.filename), part.truthy)];
      Check(shouted).Accepted? == Check(files).Accepted?
      && Check(shouted).NoSelectedFile? == Check(files).NoSelectedFile?
      && Check(shouted).TypeNotAllowed? == Check(files).TypeNotAllowed?
  {
    UpperCaseSameVerdict(files[FileField].filename);
  }
}
