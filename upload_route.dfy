/** The `/api/upload` handlers: `POST` checks the form and uploads the file
    into the given folder, `DELETE` removes an image by its public id. */
module UploadRoute {
  import opened Wrappers
  import opened Js
  import opened Http
  import opened Cloudinary

  /** What `formData.get('file')` returns: nothing, a text value, or a
      file. */
  datatype FormEntry = Absent | Text(text: string) | Attached(file: File)

  /** How `request.formData()` completed, seen through the two entries the
      handler reads; `folder` is `None` when the entry is absent. */
  datatype UploadRequest = FormUnreadable(message: string) | UploadFields(file: FormEntry, folder: Option<string>)

  /** The `original` object of an upload's success body. */
  datatype Original = Original(width: int, height: int, bytes: int, format: string)

  /** The fields of an upload's success body besides `success: true`. */
  datatype Uploaded = Uploaded(public_id: string, secure_url: string, sizes: ResponsiveUrls, original: Original)

  /** What `POST` did: the upload it ran, if it got that far, and its
      response. */
  datatype PostRun = PostRun(upload: Option<UploadRun>, response: Reply<Uploaded>)

  /** The fields of a delete's success body besides `success: true`. */
  datatype Deleted = Deleted(publicId: string, message: Option<string>)

  /** What `DELETE` did: the delete it ran, if any, and its response. */
  datatype DeleteCall = DeleteCall(run: Option<DeleteRun>, response: Reply<Deleted>)

  /** How `request.json()` completed, seen through its `publicId`: `None`
      when the field is absent. */
  datatype DeleteRequest = BodyUnreadable(message: string) | DeleteBody(publicId: Option<string>)

  /** What V8 throws when `file.type.startsWith` is read on a text entry,
      whose `type` is undefined. */
  const UndefinedTypeMessage := "Cannot read properties of undefined (reading 'startsWith')"
  const NotFoundMessage := "Image not found (may already be deleted)"

  /** The options the route always uploads with. */
  function RouteOptions(folder: string): UploadOptions
  {
    UploadOptions(Some(folder), Some(true), Some(10))
  }

  /** `!value` for an optional string: absent or empty. */
  predicate Blank(s: Option<string>)
  {
    s.None? || s.value == ""
  }

  /** The success body of an upload that returned `r`. */
  function UploadedBody(u: Uploader, r: UploadResult): Uploaded
  {
    Uploaded(r.publicId, r.url, u.GenerateResponsiveUrls(r.publicId), Original(r.width, r.height, r.bytes, r.format))
  }

  /** `POST /api/upload`: the guards in order, then the upload, whose thrown
      error becomes a 500 response. */
  function Post(u: Uploader, request: UploadRequest, nowMillis: nat, sha1Hex: string -> string, reply: FetchReply): PostRun
  {
    match request
    case FormUnreadable(m) => PostRun(None, Crash("Upload failed", m))
    case UploadFields(file, folder) =>
      match file
      case Absent => PostRun(None, Refuse(BadRequest400, "No file provided"))
      case Text(t) =>
        if t == "" then PostRun(None, Refuse(BadRequest400, "No file provided"))
        else PostRun(None, Crash("Upload failed", UndefinedTypeMessage))
      case Attached(f) =>
        if !StartsWith(f.mimeType, "image/") then PostRun(None, Refuse(BadRequest400, "Invalid file type"))
        else if Blank(folder) then PostRun(None, Refuse(BadRequest400, "Folder path is required"))
        else
          var run := u.UploadOutcome(f, RouteOptions(folder.value), nowMillis, sha1Hex, reply);
          var response := match run.result
            case Thrown(m) => Crash("Upload failed", m)
            case Ok(r) => Answer(UploadedBody(u, r));
          PostRun(Some(run), response)
  }

  /** `DELETE /api/upload`: a missing id is refused; otherwise the delete
      runs and the answer is a success either way, with a note when nothing
      was deleted. */
  function Delete(u: Uploader, request: DeleteRequest, nowMillis: nat, sha1Hex: string -> string, reply: DestroyReply): DeleteCall
  {
    match request
    case BodyUnreadable(m) => DeleteCall(None, Crash("Delete failed", m))
    case DeleteBody(id) =>
      if Blank(id) then DeleteCall(None, Refuse(BadRequest400, "Public ID is required"))
      else
        var run := u.DeleteImage(id.value, nowMillis, sha1Hex, reply);
        DeleteCall(Some(run), Answer(Deleted(id.value, if run.deleted then None else Some(NotFoundMessage))))
  }

  // ---------------------------------------------------------------------
  // Properties
  // ---------------------------------------------------------------------

  /** The guards run in order, each refusing with its own message, and the
      upload runs exactly when all three pass: a file entry, an image type,
      a folder. */
  lemma PostGuardOrder(u: Uploader, file: FormEntry, folder: Option<string>, nowMillis: nat, sha1Hex: string -> string, reply: FetchReply)
    ensures var p := Post(u, UploadFields(file, folder), nowMillis, sha1Hex, reply);
      && (p.response == Refuse(BadRequest400, "No file provided") <==> file.Absent? || file == Text(""))
      && ((p.response == Refuse(BadRequest400, "Invalid file type"))
            <==> file.Attached? && !StartsWith(file.file.mimeType, "image/"))
      && ((p.response == Refuse(BadRequest400, "Folder path is required"))
            <==> file.Attached? && StartsWith(file.file.mimeType, "image/") && Blank(folder))
      && (p.upload.Some? <==> file.Attached? && StartsWith(file.file.mimeType, "image/") && !Blank(folder))
    ensures file.Text? && file.text != "" ==>
      Post(u, UploadFields(file, folder), nowMillis, sha1Hex, reply).response == Crash("Upload failed", UndefinedTypeMessage)
  {
  }

  /** A form that cannot be read fails with its message; no upload runs. */
  lemma PostUnreadable(u: Uploader, message: string, nowMillis: nat, sha1Hex: string -> string, reply: FetchReply)
    ensures Post(u, FormUnreadable(message), nowMillis, sha1Hex, reply)
            == PostRun(None, Reply(ServerError500, Failure("Upload failed", Some(message))))
  {
  }

  /** Once the guards pass, the file is uploaded into the given folder with
      compression on and a 10 MiB limit: the form carries the folder and both
      compression hints, and a file over the limit is refused before any
      request with the size message. */
  lemma PostUploadsIntoFolder(u: Uploader, f: File, folder: string, nowMillis: nat, sha1Hex: string -> string, reply: FetchReply)
    requires StartsWith(f.mimeType, "image/") && folder != ""
    ensures var p := Post(u, UploadFields(Attached(f), Some(folder)), nowMillis, sha1Hex, reply);
      && p.upload == Some(u.UploadOutcome(f, UploadOptions(Some(folder), Some(true), Some(10)), nowMillis, sha1Hex, reply))
      && (p.upload.value.request.Some? <==> f.Size() <= 10485760)
      && (p.upload.value.request.Some? ==>
            var form := p.upload.value.request.value.form;
            form[4] == ("folder", TextValue(folder))
            && form[5] == ("quality", TextValue("auto")) && form[6] == ("fetch_format", TextValue("auto")))
      && (f.Size() > 10485760 ==> p.response == Crash("Upload failed", "File size exceeds 10MB limit"))
  {
    var options := RouteOptions(folder);
    var run := u.UploadOutcome(f, options, nowMillis, sha1Hex, reply);
    UploadValidation(u, f, options, nowMillis, sha1Hex, reply);
    assert SizeLimit(options) == 10485760;
    if f.Size() <= 10485760 {
      var ts := Timestamp(nowMillis);
      var signature := u.Sign(UploadSignatureParams(folder, ts), sha1Hex);
      assert run.request.value.form == u.UploadForm(f, folder, true, ts, signature);
      UploadFormAt(u, f, folder, true, ts, signature);
    } else {
      TenText();
      assert run.result == Thrown("File size exceeds 10MB limit");
    }
  }

  lemma TenText()
    ensures NatToString(10) == "10"
  {
  }

  /** Since the route checks the type first, the upload's own type check
      never fires through it: no response to a readable form carries "File
      must be an image". */
  lemma PostNeverReachesTypeCheck(u: Uploader, file: FormEntry, folder: Option<string>, nowMillis: nat, sha1Hex: string -> string, reply: FetchReply)
    ensures Post(u, UploadFields(file, folder), nowMillis, sha1Hex, reply).response.body
            != Failure("Upload failed", Some("File must be an image"))
  {
    if file.Text? {
      TypeMessageDiffers();
    } else if file.Attached? && StartsWith(file.file.mimeType, "image/") && !Blank(folder) {
      SentUploadNotTypeError(u, file.file, folder.value, nowMillis, sha1Hex, reply);
    }
  }

  lemma TypeMessageDiffers()
    ensures UndefinedTypeMessage != "File must be an image"
  {
  }

  /** An image the route uploads never fails with the type message. */
  lemma SentUploadNotTypeError(u: Uploader, f: File, folder: string, nowMillis: nat, sha1Hex: string -> string, reply: FetchReply)
    requires StartsWith(f.mimeType, "image/")
    ensures u.UploadOutcome(f, RouteOptions(folder), nowMillis, sha1Hex, reply).result != Thrown("File must be an image")
  {
    var options := RouteOptions(folder);
    var r := u.UploadOutcome(f, options, nowMillis, sha1Hex, reply).result;
    UploadValidation(u, f, options, nowMillis, sha1Hex, reply);
    if f.Size() <= SizeLimit(options) {
      UploadSent(u, f, options, nowMillis, sha1Hex, reply);
      CompletionPrefixed(reply);
      if r.Thrown? {
        assert r.message[1] == 'a';
      }
    } else {
      assert r.message[5] == 's';
    }
  }

  /** Every error an upload that sent its request can throw begins with the
      upload failure prefix. */
  lemma CompletionPrefixed(reply: FetchReply)
    ensures UploadCompletion(reply).Thrown? ==> StartsWith(UploadCompletion(reply).message, UploadFailurePrefix)
  {
  }

  /** A sent upload answers 200 exactly when the host's reply is an ok JSON
      object; the body then reports the host's `public_id` and `secure_url`,
      the five responsive URLs of that id and the original size and format.
      Any failure answers 500 with the upload's message. */
  lemma PostResponse(u: Uploader, f: File, folder: string, nowMillis: nat, sha1Hex: string -> string, reply: FetchReply)
    requires StartsWith(f.mimeType, "image/") && folder != "" && f.Size() <= 10485760
    ensures var p := Post(u, UploadFields(Attached(f), Some(folder)), nowMillis, sha1Hex, reply);
      && (p.response.status == Ok200 <==> reply.HttpReply? && reply.ok && reply.json.JsonObject?)
      && (p.response.status == Ok200 ==>
            var fields := reply.json.fields;
            p.response.body == Success(Uploaded(fields.public_id, fields.secure_url, u.GenerateResponsiveUrls(fields.public_id),
                                                Original(fields.width, fields.height, fields.bytes, fields.format))))
      && (p.response.status != Ok200 ==>
            p.response.status == ServerError500 && p.response.body.Failure? && p.response.body.error == "Upload failed"
            && p.upload.Some? && p.upload.value.result.Thrown?
            && p.response.body.details == Some(p.upload.value.result.message))
  {
    UploadReplyMapping(u, f, RouteOptions(folder), nowMillis, sha1Hex, reply);
  }

  /** `DELETE` refuses a missing or empty id with 400 and fails with 500 only
      when the body cannot be read; otherwise it answers 200 with the id,
      adding the not-found note exactly when the host did not report `'ok'`,
      after sending the destroy request for that id. */
  lemma DeleteOutcomes(u: Uploader, request: DeleteRequest, nowMillis: nat, sha1Hex: string -> string, reply: DestroyReply)
    ensures var d := Delete(u, request, nowMillis, sha1Hex, reply);
      && (d.response.status == ServerError500 <==> request.BodyUnreadable?)
      && (request.BodyUnreadable? ==> d.response.body == Failure("Delete failed", Some(request.message)))
      && (d.response == Refuse(BadRequest400, "Public ID is required") <==> request.DeleteBody? && Blank(request.publicId))
      && (d.run.Some? <==> request.DeleteBody? && !Blank(request.publicId))
      && (d.run.Some? ==>
            var id := request.publicId.value;
            && d.run.value.request.form[0] == ("public_id", TextValue(id))
            && d.response.status == Ok200 && d.response.body.Success? && d.response.body.data.publicId == id
            && (d.response.body.data.message.None? <==> reply == DestroyReplied(Some("ok")))
            && (d.response.body.data.message.Some? ==> d.response.body.data.message.value == NotFoundMessage))
  {
    if request.DeleteBody? && !Blank(request.publicId) {
      DeleteOutcomeRule(u, request.publicId.value, nowMillis, sha1Hex, reply);
    }
  }
}
