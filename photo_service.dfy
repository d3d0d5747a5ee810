/** The photo service: create (from a request or from an upload), list, look up and delete photos. */
module PhotoService {
  import opened Common
  import opened Entity
  import opened Dto
  import opened Store
  import PhotoRepository
  import SessionService
  import Listing

  /**
   * `createWithUrl`: looks the session up first; an unknown session gives NotFound and
   * stores nothing.  Otherwise one photo is stored for that session under a fresh id,
   * stamped `now`; the database refuses a URL longer than its column.
   */
  method CreateWithUrl(db: Database, sessionId: Id, imageUrl: string, now: Time) returns (r: Result<PhotoResponse>)
    requires db.Valid() && db.clock <= now
    modifies db
    ensures db.Valid()
    ensures r.Err? <==> sessionId !in old(db.sessions) || |imageUrl| > ImageUrlMaxLength
    ensures sessionId !in old(db.sessions) ==> r == Err(NotFound(SessionKind, sessionId))
    ensures sessionId in old(db.sessions) && |imageUrl| > ImageUrlMaxLength ==>
      r == Err(ValueTooLong("image_url", ImageUrlMaxLength))
    ensures r.Err? ==> db.photos == old(db.photos)
    ensures r.Err? ==> db.nextPhotoId == old(db.nextPhotoId) && db.clock == old(db.clock)
    ensures r.Ok? ==> r.value == PhotoResponse(old(db.nextPhotoId), sessionId, imageUrl, now)
    ensures r.Ok? ==> r.value.id !in old(db.photos)
    ensures r.Ok? ==> db.photos == old(db.photos)[r.value.id := PhotoRow(r.value.id, sessionId, imageUrl, now)]
    ensures r.Ok? ==> db.nextPhotoId == old(db.nextPhotoId) + 1 && db.clock == now
    ensures db.users == old(db.users) && db.sessions == old(db.sessions)
    ensures db.nextUserId == old(db.nextUserId) && db.nextSessionId == old(db.nextSessionId)
  {
    var session := SessionService.FindEntityById(db, sessionId);
    if session.Err? {
      return Err(session.failure);
    }
    var photo := new Photo.Build(Some(session.value), imageUrl, now);
    var saved := db.InsertPhoto(photo, now);
    match saved
    case Err(f) => r := Err(f);
    case Ok(row) => r := Ok(PhotoResponseOf(row));
  }

  /**
   * `create`: the same steps as `createWithUrl` on a validated request, whose URL
   * always fits the column; so the only failure is an unknown session.
   */
  method Create(db: Database, sessionId: Id, imageUrl: string, now: Time) returns (r: Result<PhotoResponse>)
    requires db.Valid() && db.clock <= now
    requires ValidParentId(sessionId) && ValidImageUrl(imageUrl)
    modifies db
    ensures db.Valid()
    ensures r.Err? <==> sessionId !in old(db.sessions)
    ensures r.Err? ==> r.failure == NotFound(SessionKind, sessionId)
    ensures r.Err? ==> db.photos == old(db.photos)
    ensures r.Err? ==> db.nextPhotoId == old(db.nextPhotoId) && db.clock == old(db.clock)
    ensures r.Ok? ==> r.value == PhotoResponse(old(db.nextPhotoId), sessionId, imageUrl, now)
    ensures r.Ok? ==> r.value.id !in old(db.photos)
    ensures r.Ok? ==> db.photos == old(db.photos)[r.value.id := PhotoRow(r.value.id, sessionId, imageUrl, now)]
    ensures r.Ok? ==> db.nextPhotoId == old(db.nextPhotoId) + 1 && db.clock == now
    ensures r.Ok? ==> FindById(db, r.value.id) == Ok(r.value)
    ensures db.users == old(db.users) && db.sessions == old(db.sessions)
    ensures db.nextUserId == old(db.nextUserId) && db.nextSessionId == old(db.nextSessionId)
  {
    r := CreateWithUrl(db, sessionId, imageUrl, now);
  }

  /**
   * `findAll`: without a filter, every photo newest first; with a session id, NotFound
   * for an unknown session, otherwise exactly that session's photos newest first.
   */
  function FindAll(db: Database, sessionId: Option<Id>): (r: Result<seq<PhotoResponse>>)
    reads db
    requires PhotoRowsWellFormed(db.photos, db.nextPhotoId, db.clock)
    ensures r.Err? <==> sessionId.Some? && sessionId.value !in db.sessions
    ensures r.Err? ==> r.failure == NotFound(SessionKind, sessionId.value)
    ensures r.Ok? ==> forall i :: 0 <= i < |r.value| ==>
      && r.value[i].id in db.photos
      && r.value[i] == PhotoResponseOf(db.photos[r.value[i].id])
      && (sessionId.Some? ==> r.value[i].sessionId == sessionId.value)
    ensures r.Ok? ==> forall k :: k in db.photos && (sessionId.Some? ==> db.photos[k].sessionId == sessionId.value) ==>
      PhotoResponseOf(db.photos[k]) in r.value
    ensures r.Ok? ==> forall i, j :: 0 <= i < j < |r.value| ==> r.value[i].id != r.value[j].id
    ensures r.Ok? ==> forall i, j :: 0 <= i < j < |r.value| ==> r.value[i].createdAt >= r.value[j].createdAt
  {
    match sessionId
    case None =>
      var rows := PhotoRepository.FindAllByOrderByCreatedAtDesc(db);
      ResponsesOfListing(db.photos, rows, sessionId);
      Ok(Listing.Map(PhotoResponseOf, rows))
    case Some(s) =>
      // the session is looked up before the filtered query runs
      match SessionService.FindEntityById(db, s)
      case Err(f) => Err(f)
      case Ok(_) =>
        var rows := PhotoRepository.FindBySessionIdOrderByCreatedAtDesc(db, s);
        ResponsesOfListing(db.photos, rows, sessionId);
        Ok(Listing.Map(PhotoResponseOf, rows))
  }

  /**
   * Projecting a listing of the photos (of one session, when `sessionId` names one)
   * keeps each of them once, in the same order, newest first.
   */
  lemma ResponsesOfListing(photos: map<Id, PhotoRow>, rows: seq<PhotoRow>, sessionId: Option<Id>)
    requires forall i :: 0 <= i < |rows| ==> rows[i].id in photos && photos[rows[i].id] == rows[i]
    requires forall i :: 0 <= i < |rows| ==> sessionId.Some? ==> rows[i].sessionId == sessionId.value
    requires forall k :: k in photos && (sessionId.Some? ==> photos[k].sessionId == sessionId.value) ==> photos[k] in rows
    requires forall i, j :: 0 <= i < j < |rows| ==> rows[i].id > rows[j].id
    requires forall i, j :: 0 <= i < j < |rows| ==> rows[i].createdAt >= rows[j].createdAt
    ensures var r := Listing.Map(PhotoResponseOf, rows);
      && (forall i :: 0 <= i < |r| ==> r[i].id in photos && r[i] == PhotoResponseOf(photos[r[i].id]))
      && (forall i :: 0 <= i < |r| ==> sessionId.Some? ==> r[i].sessionId == sessionId.value)
      && (forall k :: k in photos && (sessionId.Some? ==> photos[k].sessionId == sessionId.value) ==>
            PhotoResponseOf(photos[k]) in r)
      && (forall i, j :: 0 <= i < j < |r| ==> r[i].id != r[j].id)
      && (forall i, j :: 0 <= i < j < |r| ==> r[i].createdAt >= r[j].createdAt)
  {
    Listing.MapHas(PhotoResponseOf, rows);
  }

  /** `findById`: the photo's response, or NotFound. */
  function FindById(db: Database, id: Id): (r: Result<PhotoResponse>)
    reads db
    requires db.Valid()
    ensures r.Ok? <==> id in db.photos
    ensures r.Err? ==> r.failure == NotFound(PhotoKind, id)
    ensures r.Ok? ==> r.value.id == id && r.value.sessionId == db.photos[id].sessionId
    ensures r.Ok? ==> r.value.imageUrl == db.photos[id].imageUrl && r.value.createdAt == db.photos[id].createdAt
  {
    if id in db.photos then Ok(PhotoResponseOf(db.photos[id])) else Err(NotFound(PhotoKind, id))
  }

  /** `delete`: NotFound for an unknown id; otherwise exactly that photo goes. */
  method Delete(db: Database, id: Id) returns (r: Outcome)
    requires db.Valid()
    modifies db
    ensures db.Valid()
    ensures r.Fail? <==> id !in old(db.photos)
    ensures r.Fail? ==> r.failure == NotFound(PhotoKind, id)
    ensures r.Fail? ==> db.photos == old(db.photos)
    ensures r.Done? ==> db.photos == old(db.photos) - {id}
    ensures r.Done? ==> FindById(db, id) == Err(NotFound(PhotoKind, id))
    ensures db.users == old(db.users) && db.sessions == old(db.sessions)
    ensures db.nextUserId == old(db.nextUserId) && db.nextSessionId == old(db.nextSessionId)
    ensures db.nextPhotoId == old(db.nextPhotoId) && db.clock == old(db.clock)
  {
    if id !in db.photos {
      return Fail(NotFound(PhotoKind, id));
    }
    db.DeletePhoto(id);
    r := Done;
  }
}
