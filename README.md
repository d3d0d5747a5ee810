# Photobooth backend core, modelled in Dafny

This project models the core of a photobooth REST backend. **Users** own photo
**sessions**, and sessions own **photos**. Each entity has a service: it creates rows,
lists them newest first, looks them up (failing with *not found*), and deletes them,
cascading from a user to its sessions and from a session to its photos. An upload
pipeline takes an image as base64 text (optionally behind a `data:` URL prefix) or
as a multipart file. It writes the image under `uploads/photos/` with a fresh name and,
when a session id is given, links it to that session as a photo row.

Modules, in dependency order:

- `Common`: ids, timestamps, `Option`/`Result`, and the failures the core raises
  (not found, an over-long column value, an index out of bounds).
- `Listing`: newest-first listings over identity keys, with the generic proof that a
  listing holds each row once, in order.
- `Entity`: stored rows as values, plus the transient `Session` and `Photo`
  objects whose pre-persist hook stamps the creation time in place.
- `Dto`: request constraints and response shapes. `UserResponseOf`,
  `SessionResponseOf` and `PhotoResponseOf` are the services' `mapToResponse`.
- `Store`: the three tables as a `Database` class. It has one identity counter per
  table and a clock. Its invariant `Valid` covers referential integrity, each row keyed
  by its own id, and creation times that never decrease with the id. The last makes
  "largest id first" the same order as "`createdAt` descending".
- `UserRepository`, `PhotoRepository`, `SessionRepository`: the derived queries.
- `UserService`, `SessionService`, `PhotoService`.
- `Strings`: the `java.lang.String` operations the upload pipeline relies on.
- `FileSystem`: the directories and files the upload pipeline touches.
- `UploadController`: the two upload handlers and the naming rules they use.

The current time is a `now` parameter, never earlier than the store's clock. The UUID
is a `token` parameter. The base64 decoder is a `decode` parameter. What the operating
system answers to the directory creation and to the write are the `mkdirIo` and
`writeIo` parameters.

## Model

| member | source | states |
|---|---|---|
| Listing.IdsDesc | src/main/java/com/photobooth/repository/UserRepository.java:22 | the listing holds exactly the keys below the identity counter, strictly decreasing |
| Listing.IdsDescLength | src/main/java/com/photobooth/repository/UserRepository.java:22 | when every key lies below the counter, the listing has exactly one entry per key |
| Listing.Listed | src/main/java/com/photobooth/repository/SessionRepository.java:25 | a listing of a table holds each stored row exactly once, ids strictly decreasing and creation times non-increasing |
| Entity.Session.Build | src/main/java/com/photobooth/entity/Session.java:41-46 | a built session has no id, the given user, `createdAt` set to now and an empty photo list |
| Entity.Session.OnCreate | src/main/java/com/photobooth/entity/Session.java:48-53 | the pre-persist hook fills `createdAt` only when it is null and otherwise keeps it |
| Entity.Session.UserId | src/main/java/com/photobooth/entity/Session.java:56-58 | null exactly when there is no user, otherwise that user's id |
| Entity.Photo.Build | src/main/java/com/photobooth/entity/Photo.java:42-43 | a built photo has no id, the given session and URL, and `createdAt` set to now |
| Entity.Photo.OnCreate | src/main/java/com/photobooth/entity/Photo.java:45-50 | the pre-persist hook fills `createdAt` only when it is null |
| Entity.Photo.SessionId | src/main/java/com/photobooth/entity/Photo.java:53-55 | null exactly when there is no session, otherwise that session's id |
| Store.UserCascadeKeepsIntegrity | src/main/java/com/photobooth/entity/Session.java:35-38 | deleting a user with its sessions and their photos keeps every foreign key live and removes exactly the rows that depended on the user |
| Store.SessionCascadeKeepsIntegrity | src/main/java/com/photobooth/entity/Session.java:44 | deleting a session with its photos keeps every foreign key live and removes exactly that session's photos |
| Store.Database.Empty | src/main/java/com/photobooth/entity/Session.java:31-33 | an empty store is valid and every identity counter starts at 1 |
| Store.Database.InsertUser | src/main/java/com/photobooth/service/UserService.java:40 | one new row under the next id, stamped now; nothing else changes; the invariant is kept |
| Store.Database.InsertSession | src/main/java/com/photobooth/service/SessionService.java:46 | the hook runs, one new row goes under the next id with the hook's timestamp, the object receives the id, and the invariant is kept |
| Store.Database.InsertPhoto | src/main/java/com/photobooth/entity/Photo.java:38-39 | a URL over 500 characters is refused and stores nothing; otherwise one new row goes under the next id and the invariant is kept |
| Store.Database.DeleteUser | src/main/java/com/photobooth/service/UserService.java:87 | the user goes, with every session of the user and every photo of those sessions; the invariant is kept |
| Store.Database.DeleteSession | src/main/java/com/photobooth/entity/Session.java:44 | the session goes with all its photos and nothing else; the invariant is kept |
| Store.Database.DeletePhoto | src/main/java/com/photobooth/service/PhotoService.java:114 | exactly that photo goes |
| Dto.UserResponseOf | src/main/java/com/photobooth/service/UserService.java:93-99 | the user response carries the row's id, name and creation time |
| Dto.SessionResponseOf | src/main/java/com/photobooth/service/SessionService.java:103-109 | the basic session response carries the row's id, user id and creation time, and no photo list |
| Dto.PhotoResponseOf | src/main/java/com/photobooth/service/PhotoService.java:120-127 | the photo response carries the row's id, session id, image URL and creation time |
| UserRepository.FindAllByOrderByCreatedAtDesc | src/main/java/com/photobooth/repository/UserRepository.java:22 | every user exactly once, newest first |
| UserRepository.ExistsByName | src/main/java/com/photobooth/repository/UserRepository.java:27 | true exactly when some stored user has that name |
| SessionRepository.FindAllByOrderByCreatedAtDesc | src/main/java/com/photobooth/repository/SessionRepository.java:25 | every session exactly once, newest first |
| SessionRepository.FindByUserIdOrderByCreatedAtDesc | src/main/java/com/photobooth/repository/SessionRepository.java:30 | exactly the user's sessions, each once, newest first |
| SessionRepository.FindByIdWithDetails | src/main/java/com/photobooth/repository/SessionRepository.java:35-39 | present exactly when the session exists; it carries its user's row and exactly its photos, each once |
| PhotoRepository.FindAllByOrderByCreatedAtDesc | src/main/java/com/photobooth/repository/PhotoRepository.java:22 | every photo exactly once, newest first |
| PhotoRepository.FindBySessionIdOrderByCreatedAtDesc | src/main/java/com/photobooth/repository/PhotoRepository.java:27 | exactly the session's photos, each once, newest first |
| PhotoRepository.CountBySessionId | src/main/java/com/photobooth/repository/PhotoRepository.java:32 | the number of the session's photos: the length of its listing, zero for an unknown session, and zero exactly when it has none |
| UserService.Create | src/main/java/com/photobooth/service/UserService.java:35-42 | the user is stored under the next id, stamped now, and can then be found by id and by name; duplicate names are not refused |
| UserService.FindAll | src/main/java/com/photobooth/service/UserService.java:50-55 | one response per stored user, each user once, newest first |
| UserService.FindById | src/main/java/com/photobooth/service/UserService.java:65-70 | the user's fields when it exists, otherwise not found for that id |
| UserService.FindEntityById | src/main/java/com/photobooth/service/UserService.java:75-78 | the stored user when it exists, otherwise not found for that id |
| UserService.Delete | src/main/java/com/photobooth/service/UserService.java:85-88 | not found and no change for an unknown id; otherwise the user, its sessions and their photos go, and the user can no longer be found |
| SessionService.Create | src/main/java/com/photobooth/service/SessionService.java:38-47 | not found and nothing stored for an unknown user; otherwise a session under the next id for that user, stamped now, with no photos and no photo list in the response |
| SessionService.MapToResponseWithDetails | src/main/java/com/photobooth/service/SessionService.java:114-130 | the session's id, user id and timestamp, plus one photo response per loaded photo, in order |
| SessionService.FindById | src/main/java/com/photobooth/service/SessionService.java:58-61 | not found for an unknown id; otherwise the session with exactly its photos, each once |
| SessionService.FindEntityById | src/main/java/com/photobooth/service/SessionService.java:68-70 | the stored session when it exists, otherwise not found for that id |
| SessionService.FindByUserId | src/main/java/com/photobooth/service/SessionService.java:80-88 | not found for an unknown user; otherwise exactly that user's sessions, each once, newest first |
| SessionService.Delete | src/main/java/com/photobooth/service/SessionService.java:95-98 | not found and no change for an unknown id; otherwise the session and exactly its photos go |
| PhotoService.CreateWithUrl | src/main/java/com/photobooth/service/PhotoService.java:57-68 | not found for an unknown session (checked first); a URL over 500 characters is refused by the database; otherwise the photo is stored under the next id, stamped now |
| PhotoService.Create | src/main/java/com/photobooth/service/PhotoService.java:37-48 | on a validated request the only failure is an unknown session; the stored photo can then be found by id |
| PhotoService.FindAll | src/main/java/com/photobooth/service/PhotoService.java:77-91 | without a session id, every photo; with one, not found for an unknown session, else exactly its photos; each once, newest first |
| PhotoService.FindById | src/main/java/com/photobooth/service/PhotoService.java:100-104 | the photo's fields when it exists, otherwise not found for that id |
| PhotoService.Delete | src/main/java/com/photobooth/service/PhotoService.java:111-115 | not found and no change for an unknown id; otherwise exactly that photo goes, and it can no longer be found |
| Strings.IndexOf | src/main/java/com/photobooth/controller/UploadController.java:64 | the first position of the character, or -1 exactly when it does not occur |
| Strings.LastIndexOf | src/main/java/com/photobooth/controller/UploadController.java:138 | the last position of the character, or -1 exactly when it does not occur |
| Strings.IndexOfAfter | src/main/java/com/photobooth/controller/UploadController.java:65 | after a text without the separator, the first separator is the one that follows it |
| Strings.LastIndexOfBefore | src/main/java/com/photobooth/controller/UploadController.java:138 | before a text without the dot, the last dot is the one that precedes it |
| Strings.Fields | src/main/java/com/photobooth/controller/UploadController.java:65 | at least one field, none containing the separator, and the whole text when there is no separator |
| Strings.Join | src/main/java/com/photobooth/controller/UploadController.java:65 | a single field joins to itself |
| Strings.FieldsCons | src/main/java/com/photobooth/controller/UploadController.java:65 | a separator-free field followed by the separator is split off as the first field |
| Strings.JoinFields | src/main/java/com/photobooth/controller/UploadController.java:65 | joining the fields of a text gives the text back |
| Strings.FieldsJoin | src/main/java/com/photobooth/controller/UploadController.java:65 | splitting a join of separator-free fields gives those fields back |
| Strings.TrimTrailingEmpty | src/main/java/com/photobooth/controller/UploadController.java:65 | a prefix of the fields that drops exactly the trailing empty ones |
| Strings.FirstField | src/main/java/com/photobooth/controller/UploadController.java:65 | a separator-free text that ends the input or meets a separator is the first field |
| Strings.SecondFieldKept | src/main/java/com/photobooth/controller/UploadController.java:65 | a non-empty second field survives the trimming, with the first |
| Strings.Split | src/main/java/com/photobooth/controller/UploadController.java:65 | the whole text when there is no separator, otherwise the fields minus exactly the trailing empty ones |
| UploadController.Payload | src/main/java/com/photobooth/controller/UploadController.java:63-66 | the whole input when it has no comma; otherwise the second element of `split(",")`, and an index-out-of-bounds error for index 1 against the split's length exactly when fewer than two elements remain; the result never contains a comma |
| UploadController.PayloadAfterPrefix | src/main/java/com/photobooth/controller/UploadController.java:63-68 | a comma-free prefix, a comma and a non-empty field decode exactly that field, the same bytes as the field alone |
| UploadController.SecondFieldOf | src/main/java/com/photobooth/controller/UploadController.java:65 | such an input's first two fields are the prefix and the data |
| UploadController.PayloadOfEmptySecondField | src/main/java/com/photobooth/controller/UploadController.java:65 | an empty second field followed by a non-empty one is kept, so the decoder receives the empty text |
| UploadController.PayloadOfBarePrefix | src/main/java/com/photobooth/controller/UploadController.java:65 | a prefix with nothing after its comma raises: one field is left, or none for an empty prefix |
| UploadController.DataUrlPayload | src/main/java/com/photobooth/controller/UploadController.java:63-66 | a PNG data URL followed by comma-free data hands exactly that data to the decoder |
| UploadController.EmptyDataUrlPayload | src/main/java/com/photobooth/controller/UploadController.java:63-66 | a PNG data URL with no data raises an index-out-of-bounds error |
| UploadController.DecodedImage | src/main/java/com/photobooth/controller/UploadController.java:63-68 | the split failure when stripping fails, otherwise the decoder's verdict on the stripped text |
| UploadController.Stored | src/main/java/com/photobooth/controller/UploadController.java:87-91 | a success body: success set, the file's public URL and name, the photo id if any, and no error |
| UploadController.Failed | src/main/java/com/photobooth/controller/UploadController.java:96-104 | an error body: success false, the message, and no URL, file name or photo id |
| UploadController.Base64Extension | src/main/java/com/photobooth/controller/UploadController.java:71 | the request's extension whenever one is present, even an empty one; "png" only when it is null |
| UploadController.FileExtension | src/main/java/com/photobooth/controller/UploadController.java:136-139 | "png" when there is no file name or no dot; otherwise the dot-free text after the last dot, so the name is a stem, a dot and the result |
| UploadController.Filename | src/main/java/com/photobooth/controller/UploadController.java:72 | the token, a dot, then the extension |
| UploadController.FilenameExtension | src/main/java/com/photobooth/controller/UploadController.java:137-140 | the multipart extension rule applied to a stored name gives back its dot-free extension |
| UploadController.FilenamesDistinct | src/main/java/com/photobooth/controller/UploadController.java:72 | distinct dot-free tokens never give the same file name, whatever the extensions |
| UploadController.StoredPath | src/main/java/com/photobooth/controller/UploadController.java:73 | the upload directory, the character '/', then the file name |
| UploadController.PublicUrl | src/main/java/com/photobooth/controller/UploadController.java:79 | the URL is "/uploads/photos/" and the file name, which is the stored path under the web root |
| UploadController.LinkReply | src/main/java/com/photobooth/controller/UploadController.java:81-93 | 201 with URL, file name and the new photo id when a session is given and linking succeeds, or no id without a session, never an error message; not found or the database's refusal escapes otherwise |
| UploadController.LinkAndRespond | src/main/java/com/photobooth/controller/UploadController.java:81-93 | a photo row is stored exactly when a live session is given and the URL fits; the reply is the one above |
| UploadController.UploadBase64 | src/main/java/com/photobooth/controller/UploadController.java:52-106 | step by step: directory failure gives 500; a bad split escapes; malformed base64 gives 400; write failure gives 500; otherwise the file holds the decoded bytes, then linking. Nothing is written or stored on any failure before the write. A 201 names a file that exists, and a returned photo id is a row of the given session with that URL |
| UploadController.UploadFile | src/main/java/com/photobooth/controller/UploadController.java:118-169 | an empty file gives 400 and touches nothing; otherwise the same steps with the client's extension and the file's bytes; a 201 names a file holding exactly the uploaded content |
| FileSystem.FileStore.CreateDirectories | src/main/java/com/photobooth/controller/UploadController.java:56-58 | on success the directory exists; on failure nothing changes |
| FileSystem.FileStore.Write | src/main/java/com/photobooth/controller/UploadController.java:76 | on success the path holds exactly the content; on failure nothing changes |

## Left out

- The HTTP layer is not modelled: the controllers other than the upload one, request
  binding, status mapping by the global exception handler, and CORS, OpenAPI and
  static-resource configuration. Validation constraints appear as `requires` (`Dto`).
- Transactions and concurrency are not modelled: each operation runs alone and to the end.
- The real clock, UUID generator, base64 decoder and file system are not modelled. They
  are the `now`, `token`, `decode`, `mkdirIo` and `writeIo` parameters.
- `UserRepository.ExistsByName` compares names exactly, character by character. On MySQL
  the comparison follows the column's collation, and the default collations ignore case
  (and, in MySQL 8, accents), so the database can report a match the model does not.
  The database collation is not part of this model.
- Identity values are unbounded integers, so `Long` overflow of an id is not modelled.
- `LocalDateTime` becomes a natural number. Rows with equal timestamps are listed with
  the larger id first; the source leaves that tie order to the database.
- `UserService.Create`: the reply's `createdAt` is the in-memory time, while the stored
  DATETIME keeps at most six fractional digits; the model stores the same value it echoes,
  so its `FindById(db, r.id) == Ok(r)` holds only up to the column's precision.
- `PhotoService.Create`: as for users, its `FindById(db, r.value.id) == Ok(r.value)`
  holds only up to the precision of the `created_at` column.
- `SessionService.Create`: the stored row and the reply share `now` in the model; in the
  database the stored time is rounded to the column's precision.
- `SessionRepository.FindByIdWithDetails`: the query declares no order for a session's
  photo collection; the model lists it newest first, and its contract promises only that it
  holds exactly the session's photos, each once.
- The User entity is not part of this model. `Store.Database.DeleteUser` assumes it
  cascades to the user's sessions, as their NOT NULL `user_id` requires.
- The database's refusal of an over-long `image_url` is a `ValueTooLong` failure. The
  exact exception type and message are not modelled.
- Orphan removal on `Session.photos` is covered only through the cascade on delete.
  Photo collections are never edited in memory.
- `UploadController.UploadFile`: an `IOException` from reading the multipart content
  is folded into the write failure `writeIo`. A partially written file is not modelled.
- `UploadController.UploadBase64`: a null `imageData` fails with a null-pointer
  exception after the upload directory step (UploadController.java:55-58), so the
  directory may already have been created; the model's request always carries a string.
- `UploadController.UploadBase64` and `UploadController.UploadFile`: a file name the
  file system refuses as a path is not modelled. In the base64 handler that failure
  would be caught as invalid base64 data.
- The not-found exception class is not part of this model. It is taken to be an
  unchecked exception that neither upload handler catches.
