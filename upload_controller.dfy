/**
 * The upload endpoints: an image arrives as base64 text (optionally behind a data-URL
 * prefix) or as a multipart file, is written under `uploads/photos/` with a fresh
 * name, and, when a session id comes with it, is linked to that session as a Photo row.
 * The file is written before the row is created, so a failure to link leaves it on disk.
 */
module UploadController {
  import opened Common
  import opened Entity
  import opened Store
  import opened FileSystem
  import opened Strings
  import PhotoService

  /** `Paths.get("uploads/photos/")`: the directory files are written to. */
  const UploadPath: string := "uploads/photos"

  /** The prefix of every public image URL. */
  const UrlPrefix: string := "/uploads/photos/"

  const DefaultExtension: string := "png"

  const Created: nat := 201
  const BadRequest: nat := 400
  const InternalServerError: nat := 500

  const FileIsEmpty: string := "File is empty"
  const SaveFailed: string := "Failed to save file: "
  const InvalidBase64: string := "Invalid base64 data: "

  datatype Base64UploadRequest = Base64UploadRequest(imageData: string, sessionId: Option<Id>, extension: Option<string>)

  /** A multipart upload: the client's file name, if any, and the content. */
  datatype MultipartFile = MultipartFile(originalFilename: Option<string>, content: Bytes)

  datatype UploadResponse = UploadResponse(
    success: bool, imageUrl: Option<string>, filename: Option<string>, photoId: Option<Id>, error: Option<string>)

  /** What a handler does: answer with a status and a body, or let an exception escape. */
  datatype Reply = Respond(status: nat, body: UploadResponse) | Raised(failure: Failure)

  /**
   * The base64 decoder's verdict: the bytes, or the message of the
   * `IllegalArgumentException` it throws on malformed input.
   */
  datatype Decoded = Decoded(bytes: Bytes) | Malformed(message: string)

  /** The body of every error reply: only the flag, false, and the message are set. */
  function Failed(message: string): (r: UploadResponse)
    ensures !r.success && r.error == Some(message)
    ensures r.imageUrl.None? && r.filename.None? && r.photoId.None?
  {
    UploadResponse(false, None, None, None, Some(message))
  }

  /** The body of a 201 reply: success, the file's public URL and name, the photo id if any, and no error. */
  function Stored(filename: string, photoId: Option<Id>): (r: UploadResponse)
    ensures r.success && r.error.None? && r.photoId == photoId
    ensures r.filename == Some(filename) && r.imageUrl == Some(UrlPrefix + filename)
  {
    UploadResponse(true, Some(PublicUrl(filename)), Some(filename), photoId, None)
  }

  // ---------------------------------------------------------------------------
  // Names and the data-URL prefix
  // ---------------------------------------------------------------------------

  /**
   * The text handed to the decoder: all of `imageData` when it has no comma, else the
   * second field of `split(",")`.  With fewer than two fields left once trailing empty
   * ones are dropped, reading the second raises an index-out-of-bounds error.
   */
  function Payload(imageData: string): (r: Result<string>)
    ensures ',' !in imageData ==> r == Ok(imageData)
    ensures r.Ok? ==> ',' !in r.value
    ensures r.Ok? && ',' in imageData ==> |Fields(imageData, ',')| >= 2 && r.value == Fields(imageData, ',')[1]
    ensures r.Err? <==> ',' in imageData && |Split(imageData, ',')| < 2
    ensures r.Err? ==> r.failure == IndexOutOfBounds(1, |Split(imageData, ',')|)
    ensures r.Ok? && ',' in imageData ==> r.value == Split(imageData, ',')[1]
  {
    if ',' !in imageData then Ok(imageData)
    else
      var parts := Split(imageData, ',');
      if |parts| < 2 then Err(IndexOutOfBounds(1, |parts|)) else Ok(parts[1])
  }

  /**
   * A prefix without a comma, a comma, then a non-empty field `x` that ends the input or
   * is followed by another comma: the decoder receives exactly `x`.  In particular a
   * data URL `"data:image/png;base64," + x` decodes like `x` alone.
   */
  lemma {:induction false} PayloadAfterPrefix(p: string, x: string, rest: string)
    requires ',' !in p && ',' !in x && x != ""
    requires rest == "" || rest[0] == ','
    ensures Payload(p + "," + x + rest) == Ok(x)
    ensures rest == "" ==> Payload(p + "," + x) == Payload(x)
  {
    var s := p + "," + x + rest;
    SecondFieldOf(p, x, rest);
    var fs := Fields(s, ',');
    assert ',' in s by { assert s[|p|] == ','; }
    SecondFieldKept(fs);
    var parts := Split(s, ',');
    assert parts == TrimTrailingEmpty(fs);
    assert parts[..2] == fs[..2];
    assert parts[1] == x;
    if rest == "" {
      assert s == p + "," + x;
    }
  }

  /** The fields of `p + "," + x + rest` start with `p` and `x`. */
  lemma SecondFieldOf(p: string, x: string, rest: string)
    requires ',' !in p && ',' !in x
    requires rest == "" || rest[0] == ','
    ensures |Fields(p + "," + x + rest, ',')| >= 2
    ensures Fields(p + "," + x + rest, ',')[..2] == [p, x]
  {
    var s := p + "," + x + rest;
    assert s == p + [','] + (x + rest);
    FieldsCons(p, ',', x + rest);
    FirstField(x, ',', rest);
    var fs := Fields(s, ',');
    assert fs[1] == x;
    assert fs[..2] == [p, x];
  }

  /**
   * An empty second field is kept when a non-empty field follows it: `"a,,b"` hands the
   * decoder the empty text rather than `"b"` or `",b"`.
   */
  lemma {:induction false} PayloadOfEmptySecondField(p: string, q: string)
    requires ',' !in p && ',' !in q && q != ""
    ensures Payload(p + ",," + q) == Ok("")
  {
    var s := p + ",," + q;
    assert s == p + [','] + ("" + [','] + q);
    FieldsCons(p, ',', "" + [','] + q);
    FieldsCons("", ',', q);
    assert "" + [','] + q == [','] + q;
    var fs := Fields(s, ',');
    assert fs == [p, "", q];
    assert ',' in s by { assert s[|p|] == ','; }
    assert TrimTrailingEmpty(fs) == fs;
  }

  /** A data-URL prefix with nothing after its comma raises instead of decoding. */
  lemma {:induction false} PayloadOfBarePrefix(p: string)
    requires ',' !in p
    ensures Payload(p + ",") == Err(IndexOutOfBounds(1, if p == "" then 0 else 1))
  {
    var s := p + ",";
    assert s == p + [','] + "";
    FieldsCons(p, ',', "");
    assert Fields(s, ',') == [p, ""];
    assert s[|p|] == ',';
    if p == "" {
      assert TrimTrailingEmpty([p, ""]) == TrimTrailingEmpty([p]) == [];
    } else {
      assert [p, ""][..1] == [p];
      assert TrimTrailingEmpty([p, ""]) == TrimTrailingEmpty([p]) == [p];
    }
  }

  /** The usual data URL: the decoder receives only the text after the comma. */
  lemma DataUrlPayload(x: string)
    requires ',' !in x && x != ""
    ensures Payload("data:image/png;base64," + x) == Ok(x)
  {
    var p := "data:image/png;base64";
    assert ',' !in p;
    assert p + "," == "data:image/png;base64,";
    assert p + "," + x + "" == "data:image/png;base64," + x;
    PayloadAfterPrefix(p, x, "");
  }

  /** A data URL with no data raises: one field is left once the trailing empty one is dropped. */
  lemma EmptyDataUrlPayload()
    ensures Payload("data:image/png;base64,") == Err(IndexOutOfBounds(1, 1))
  {
    PayloadOfBarePrefix("data:image/png;base64");
    assert "data:image/png;base64" + "," == "data:image/png;base64,";
  }

  /** The decoder's verdict on the request's image data, once any prefix is stripped. */
  function DecodedImage(imageData: string, decode: string -> Decoded): (r: Result<Decoded>)
    ensures r.Err? <==> Payload(imageData).Err?
    ensures r.Err? ==> r.failure == Payload(imageData).failure
    ensures r.Ok? ==> r.value == decode(Payload(imageData).value)
  {
    match Payload(imageData)
    case Err(f) => Err(f)
    case Ok(text) => Ok(decode(text))
  }

  /** The base64 extension: the request's own whenever it is present, even empty; "png" only when it is null. */
  function Base64Extension(extension: Option<string>): (r: string)
    ensures extension.Some? ==> r == extension.value
    ensures extension.None? ==> r == DefaultExtension
  {
    if extension.Some? then extension.value else DefaultExtension
  }

  /**
   * The multipart extension: the text after the last "." of the client's file name, or
   * "png" when there is no name or it has no ".".
   */
  function FileExtension(originalFilename: Option<string>): (r: string)
    ensures originalFilename.None? || '.' !in originalFilename.value ==> r == DefaultExtension
    ensures originalFilename.Some? && '.' in originalFilename.value ==>
      && '.' !in r
      && |r| < |originalFilename.value|
      && originalFilename.value == originalFilename.value[..|originalFilename.value| - |r| - 1] + "." + r
  {
    if originalFilename.Some? && '.' in originalFilename.value then
      var name := originalFilename.value;
      var i := LastIndexOf(name, '.');
      assert name == name[..i] + "." + name[i + 1..];
      name[i + 1..]
    else DefaultExtension
  }

  /** The stored file name: a fresh token, a dot, and the extension. */
  function Filename(token: string, extension: string): (r: string)
    ensures |r| == |token| + 1 + |extension|
    ensures r[..|token|] == token && r[|token|] == '.' && r[|token| + 1..] == extension
  {
    token + "." + extension
  }

  /** A file named with a dot-free extension gives that extension back to the multipart rule. */
  lemma FilenameExtension(token: string, extension: string)
    requires '.' !in extension
    ensures FileExtension(Some(Filename(token, extension))) == extension
  {
    var name := Filename(token, extension);
    assert name == token + ['.'] + extension;
    LastIndexOfBefore(token, '.', extension);
    assert '.' in name by { assert name[|token|] == '.'; }
  }

  /** Two distinct dot-free tokens (a UUID has no dot) never name the same file, whatever the extensions. */
  lemma FilenamesDistinct(t1: string, e1: string, t2: string, e2: string)
    requires '.' !in t1 && '.' !in t2 && t1 != t2
    ensures Filename(t1, e1) != Filename(t2, e2)
  {
    assert Filename(t1, e1) == t1 + ['.'] + e1;
    assert Filename(t2, e2) == t2 + ['.'] + e2;
    IndexOfAfter(t1, '.', e1);
    IndexOfAfter(t2, '.', e2);
  }

  /** `uploadPath.resolve(filename)`: where the file is written. */
  function StoredPath(filename: string): (r: string)
    ensures |r| == |UploadPath| + 1 + |filename|
    ensures r[..|UploadPath|] == UploadPath && r[|UploadPath|] == '/' && r[|UploadPath| + 1..] == filename
  {
    UploadPath + "/" + filename
  }

  /** The public URL of a stored file: its path under the web root. */
  function PublicUrl(filename: string): (r: string)
    ensures r == "/" + StoredPath(filename)
    ensures r[..|UrlPrefix|] == UrlPrefix && r[|UrlPrefix|..] == filename
  {
    UrlPrefix + filename
  }

  // ---------------------------------------------------------------------------
  // The handlers
  // ---------------------------------------------------------------------------

  /** The upload directory is there after the first step: it existed, or creating it succeeded. */
  predicate DirectoryReady(directories: set<string>, mkdirIo: IoResult)
  {
    UploadPath in directories || mkdirIo.IoOk?
  }

  /** Whether linking `filename` to `sessionId` stores a Photo row: the session exists and the URL fits its column. */
  predicate Links(sessions: map<Id, SessionRow>, sessionId: Option<Id>, filename: string)
  {
    sessionId.Some? && sessionId.value in sessions && |PublicUrl(filename)| <= ImageUrlMaxLength
  }

  /**
   * The reply once the file is written: 201 with the URL, the file name and the new
   * row's id when a row is stored, or no id when no session was given; otherwise the
   * failure of `createWithUrl` escapes.
   */
  function LinkReply(sessions: map<Id, SessionRow>, nextPhotoId: Id, sessionId: Option<Id>, filename: string): (r: Reply)
    ensures r.Respond? <==> sessionId.None? || Links(sessions, sessionId, filename)
    ensures r.Respond? ==> r.status == Created && r.body.success && r.body.filename == Some(filename)
    ensures r.Respond? ==> r.body.imageUrl == Some(PublicUrl(filename)) && r.body.error == None
    ensures r.Respond? ==> (r.body.photoId.Some? <==> sessionId.Some?)
    ensures r.Respond? && sessionId.Some? ==> r.body.photoId == Some(nextPhotoId)
    ensures sessionId.Some? && sessionId.value !in sessions ==> r == Raised(NotFound(SessionKind, sessionId.value))
    ensures sessionId.Some? && sessionId.value in sessions && !Links(sessions, sessionId, filename) ==>
      r == Raised(ValueTooLong("image_url", ImageUrlMaxLength))
  {
    match sessionId
    case None => Respond(Created, Stored(filename, None))
    case Some(s) =>
      if s !in sessions then Raised(NotFound(SessionKind, s))
      else if |PublicUrl(filename)| > ImageUrlMaxLength then Raised(ValueTooLong("image_url", ImageUrlMaxLength))
      else Respond(Created, Stored(filename, Some(nextPhotoId)))
  }

  /**
   * The common tail of both handlers: with a session id, `createWithUrl` links the
   * stored file to it; then the 201 reply is built.
   */
  method LinkAndRespond(db: Database, sessionId: Option<Id>, filename: string, now: Time) returns (reply: Reply)
    requires db.Valid() && db.clock <= now
    modifies db
    ensures db.Valid()
    ensures reply == LinkReply(old(db.sessions), old(db.nextPhotoId), sessionId, filename)
    ensures Links(old(db.sessions), sessionId, filename) ==>
      && db.photos == old(db.photos)[old(db.nextPhotoId) := PhotoRow(old(db.nextPhotoId), sessionId.value, PublicUrl(filename), now)]
      && db.nextPhotoId == old(db.nextPhotoId) + 1 && db.clock == now
    ensures !Links(old(db.sessions), sessionId, filename) ==>
      db.photos == old(db.photos) && db.nextPhotoId == old(db.nextPhotoId) && db.clock == old(db.clock)
    ensures db.users == old(db.users) && db.sessions == old(db.sessions)
    ensures db.nextUserId == old(db.nextUserId) && db.nextSessionId == old(db.nextSessionId)
  {
    var photoId: Option<Id> := None;
    if sessionId.Some? {
      var saved := PhotoService.CreateWithUrl(db, sessionId.value, PublicUrl(filename), now);
      if saved.Err? {
        return Raised(saved.failure);
      }
      photoId := Some(saved.value.id);
    }
    reply := Respond(Created, Stored(filename, photoId));
  }

  /** The name a base64 upload is stored under. */
  function Base64Filename(request: Base64UploadRequest, token: string): string
  {
    Filename(token, Base64Extension(request.extension))
  }

  /** Whether a base64 upload gets as far as a written file. */
  predicate Base64Written(directories: set<string>, request: Base64UploadRequest,
                          decode: string -> Decoded, mkdirIo: IoResult, writeIo: IoResult)
  {
    && DirectoryReady(directories, mkdirIo)
    && DecodedImage(request.imageData, decode).Ok?
    && DecodedImage(request.imageData, decode).value.Decoded?
    && writeIo.IoOk?
  }

  /**
   * `uploadBase64`: create the directory if missing, strip a data-URL prefix, decode,
   * write the file under a fresh name, then link it to the session if one is given.
   * `token` stands for the random UUID, `decode` for the JDK base64 decoder, and
   * `mkdirIo` and `writeIo` for what the operating system answers to the two calls.
   */
  method UploadBase64(db: Database, fs: FileStore, request: Base64UploadRequest, token: string, now: Time,
                      decode: string -> Decoded, mkdirIo: IoResult, writeIo: IoResult) returns (reply: Reply)
    requires db.Valid() && db.clock <= now
    modifies db, fs
    ensures db.Valid()
    ensures DirectoryReady(old(fs.directories), mkdirIo) ==> fs.directories == old(fs.directories) + {UploadPath}
    ensures !DirectoryReady(old(fs.directories), mkdirIo) ==> fs.directories == old(fs.directories)
    ensures !DirectoryReady(old(fs.directories), mkdirIo) ==>
      reply == Respond(InternalServerError, Failed(SaveFailed + mkdirIo.message))
    ensures DirectoryReady(old(fs.directories), mkdirIo) && Payload(request.imageData).Err? ==>
      reply == Raised(Payload(request.imageData).failure)
    ensures DirectoryReady(old(fs.directories), mkdirIo) && DecodedImage(request.imageData, decode).Ok? ==>
      var d := DecodedImage(request.imageData, decode).value;
      d.Malformed? ==> reply == Respond(BadRequest, Failed(InvalidBase64 + d.message))
    ensures DirectoryReady(old(fs.directories), mkdirIo) && DecodedImage(request.imageData, decode).Ok? ==>
      var d := DecodedImage(request.imageData, decode).value;
      d.Decoded? && writeIo.IoError? ==> reply == Respond(InternalServerError, Failed(SaveFailed + writeIo.message))
    ensures !Base64Written(old(fs.directories), request, decode, mkdirIo, writeIo) ==>
      fs.files == old(fs.files) && unchanged(db)
    ensures Base64Written(old(fs.directories), request, decode, mkdirIo, writeIo) ==>
      var name := Base64Filename(request, token);
      && fs.files == old(fs.files)[StoredPath(name) := DecodedImage(request.imageData, decode).value.bytes]
      && reply == LinkReply(old(db.sessions), old(db.nextPhotoId), request.sessionId, name)
    ensures Base64Written(old(fs.directories), request, decode, mkdirIo, writeIo) ==>
      var name := Base64Filename(request, token);
      Links(old(db.sessions), request.sessionId, name) ==>
        db.photos == old(db.photos)[old(db.nextPhotoId) := PhotoRow(old(db.nextPhotoId), request.sessionId.value, PublicUrl(name), now)]
        && db.nextPhotoId == old(db.nextPhotoId) + 1 && db.clock == now
    ensures !Links(old(db.sessions), request.sessionId, Base64Filename(request, token)) ==>
      db.photos == old(db.photos) && db.nextPhotoId == old(db.nextPhotoId) && db.clock == old(db.clock)
    ensures db.users == old(db.users) && db.sessions == old(db.sessions)
    ensures db.nextUserId == old(db.nextUserId) && db.nextSessionId == old(db.nextSessionId)
    ensures reply.Respond? ==> (reply.body.success <==> reply.status == Created)
    ensures reply.Respond? && reply.status == Created ==>
      && reply.body.filename.Some?
      && StoredPath(reply.body.filename.value) in fs.files
      && reply.body.imageUrl == Some("/" + StoredPath(reply.body.filename.value))
    ensures reply.Respond? && reply.body.photoId.Some? ==>
      && reply.body.photoId.value in db.photos
      && request.sessionId == Some(db.photos[reply.body.photoId.value].sessionId)
      && reply.body.imageUrl == Some(db.photos[reply.body.photoId.value].imageUrl)
  {
    if UploadPath !in fs.directories {
      var created := fs.CreateDirectories(UploadPath, mkdirIo);
      if created.IoError? {
        return Respond(InternalServerError, Failed(SaveFailed + created.message));
      }
    }
    var base64Data := request.imageData;
    if ',' in base64Data {
      var parts := Split(base64Data, ',');
      if |parts| < 2 {
        return Raised(IndexOutOfBounds(1, |parts|));
      }
      base64Data := parts[1];
    }
    var decoded := decode(base64Data);
    if decoded.Malformed? {
      return Respond(BadRequest, Failed(InvalidBase64 + decoded.message));
    }
    var extension := Base64Extension(request.extension);
    var filename := Filename(token, extension);
    var written := fs.Write(StoredPath(filename), decoded.bytes, writeIo);
    if written.IoError? {
      return Respond(InternalServerError, Failed(SaveFailed + written.message));
    }
    reply := LinkAndRespond(db, request.sessionId, filename, now);
  }

  /**
   * `uploadFile`: refuse an empty file before touching anything; otherwise create the
   * directory if missing, write the content under a fresh name keeping the client's
   * extension, then link it to the session if one is given.
   */
  method UploadFile(db: Database, fs: FileStore, file: MultipartFile, sessionId: Option<Id>, token: string, now: Time,
                    mkdirIo: IoResult, writeIo: IoResult) returns (reply: Reply)
    requires db.Valid() && db.clock <= now
    modifies db, fs
    ensures db.Valid()
    ensures |file.content| == 0 ==> reply == Respond(BadRequest, Failed(FileIsEmpty)) && unchanged(fs) && unchanged(db)
    ensures |file.content| > 0 && DirectoryReady(old(fs.directories), mkdirIo) ==>
      fs.directories == old(fs.directories) + {UploadPath}
    ensures !DirectoryReady(old(fs.directories), mkdirIo) ==> fs.directories == old(fs.directories)
    ensures |file.content| > 0 && !DirectoryReady(old(fs.directories), mkdirIo) ==>
      reply == Respond(InternalServerError, Failed(SaveFailed + mkdirIo.message))
    ensures |file.content| > 0 && DirectoryReady(old(fs.directories), mkdirIo) && writeIo.IoError? ==>
      reply == Respond(InternalServerError, Failed(SaveFailed + writeIo.message))
    ensures !(|file.content| > 0 && DirectoryReady(old(fs.directories), mkdirIo) && writeIo.IoOk?) ==>
      fs.files == old(fs.files) && unchanged(db)
    ensures |file.content| > 0 && DirectoryReady(old(fs.directories), mkdirIo) && writeIo.IoOk? ==>
      var name := Filename(token, FileExtension(file.originalFilename));
      && fs.files == old(fs.files)[StoredPath(name) := file.content]
      && reply == LinkReply(old(db.sessions), old(db.nextPhotoId), sessionId, name)
    ensures |file.content| > 0 && DirectoryReady(old(fs.directories), mkdirIo) && writeIo.IoOk? ==>
      var name := Filename(token, FileExtension(file.originalFilename));
      Links(old(db.sessions), sessionId, name) ==>
        db.photos == old(db.photos)[old(db.nextPhotoId) := PhotoRow(old(db.nextPhotoId), sessionId.value, PublicUrl(name), now)]
        && db.nextPhotoId == old(db.nextPhotoId) + 1 && db.clock == now
    ensures !Links(old(db.sessions), sessionId, Filename(token, FileExtension(file.originalFilename))) ==>
      db.photos == old(db.photos) && db.nextPhotoId == old(db.nextPhotoId) && db.clock == old(db.clock)
    ensures db.users == old(db.users) && db.sessions == old(db.sessions)
    ensures db.nextUserId == old(db.nextUserId) && db.nextSessionId == old(db.nextSessionId)
    ensures reply.Respond? ==> (reply.body.success <==> reply.status == Created)
    ensures reply.Respond? && reply.status == Created ==>
      && reply.body.filename.Some?
      && StoredPath(reply.body.filename.value) in fs.files
      && fs.files[StoredPath(reply.body.filename.value)] == file.content
      && reply.body.imageUrl == Some("/" + StoredPath(reply.body.filename.value))
    ensures reply.Respond? && reply.body.photoId.Some? ==>
      && reply.body.photoId.value in db.photos
      && sessionId == Some(db.photos[reply.body.photoId.value].sessionId)
      && reply.body.imageUrl == Some(db.photos[reply.body.photoId.value].imageUrl)
  {
    if |file.content| == 0 {
      return Respond(BadRequest, Failed(FileIsEmpty));
    }
    if UploadPath !in fs.directories {
      var created := fs.CreateDirectories(UploadPath, mkdirIo);
      if created.IoError? {
        return Respond(InternalServerError, Failed(SaveFailed + created.message));
      }
    }
    var extension := FileExtension(file.originalFilename);
    var filename := Filename(token, extension);
    var written := fs.Write(StoredPath(filename), file.content, writeIo);
    if written.IoError? {
      return Respond(InternalServerError, Failed(SaveFailed + written.message));
    }
    reply := LinkAndRespond(db, sessionId, filename, now);
  }
}
