/** The session service: create, look up, list per user and delete sessions. */
module SessionService {
  import opened Common
  import opened Entity
  import opened Dto
  import opened Store
  import SessionRepository
  import PhotoRepository
  import UserService
  import Listing

  /**
   * `create`: looks the user up first; an unknown user gives NotFound and stores
   * nothing.  Otherwise one session is stored for that user under a fresh id, stamped
   * `now`, with no photos, and the basic response (no photo list) is returned.
   */
  method Create(db: Database, userId: Id, now: Time) returns (r: Result<SessionResponse>)
    requires db.Valid() && db.clock <= now
    requires ValidParentId(userId)
    modifies db
    ensures db.Valid()
    ensures r.Err? <==> userId !in old(db.users)
    ensures r.Err? ==> r.failure == NotFound(UserKind, userId)
    ensures r.Err? ==> db.sessions == old(db.sessions)
    ensures r.Err? ==> db.nextSessionId == old(db.nextSessionId) && db.clock == old(db.clock)
    ensures r.Ok? ==> r.value == SessionResponse(old(db.nextSessionId), userId, now, None)
    ensures r.Ok? ==> r.value.id !in old(db.sessions)
    ensures r.Ok? ==> db.sessions == old(db.sessions)[r.value.id := SessionRow(r.value.id, userId, now)]
    ensures r.Ok? ==> db.nextSessionId == old(db.nextSessionId) + 1 && db.clock == now
    ensures r.Ok? ==> PhotoRepository.CountBySessionId(db, r.value.id) == 0
    ensures db.users == old(db.users) && db.photos == old(db.photos)
    ensures db.nextUserId == old(db.nextUserId) && db.nextPhotoId == old(db.nextPhotoId)
  {
    var user := UserService.FindEntityById(db, userId);
    if user.Err? {
      return Err(user.failure);
    }
    var session := new Session.Build(Some(user.value), now);
    var saved := db.InsertSession(session, now);
    r := Ok(SessionResponseOf(saved));
  }

  /** `mapToResponseWithDetails`: the basic fields plus the loaded photo collection. */
  function MapToResponseWithDetails(d: SessionRepository.SessionDetails): (r: SessionResponse)
    ensures r.id == d.session.id && r.userId == d.user.id && r.createdAt == d.session.createdAt
    ensures r.photos.Some? && |r.photos.value| == |d.photos|
    ensures forall i :: 0 <= i < |d.photos| ==> r.photos.value[i] == PhotoResponseOf(d.photos[i])
  {
    SessionResponse(d.session.id, d.user.id, d.session.createdAt, Some(Listing.Map(PhotoResponseOf, d.photos)))
  }

  /**
   * `findById`: NotFound for an unknown id; otherwise the session with exactly its
   * photos, each carrying this session's id.
   */
  function FindById(db: Database, id: Id): (r: Result<SessionResponse>)
    reads db
    requires db.Valid()
    ensures r.Ok? <==> id in db.sessions
    ensures r.Err? ==> r.failure == NotFound(SessionKind, id)
    ensures r.Ok? ==> r.value.id == id && r.value.userId == db.sessions[id].userId
    ensures r.Ok? ==> r.value.createdAt == db.sessions[id].createdAt
    ensures r.Ok? ==> r.value.photos.Some?
    ensures r.Ok? ==> forall i :: 0 <= i < |r.value.photos.value| ==>
      && r.value.photos.value[i].sessionId == id
      && r.value.photos.value[i].id in db.photos
      && r.value.photos.value[i] == PhotoResponseOf(db.photos[r.value.photos.value[i].id])
    ensures r.Ok? ==> forall k :: k in db.photos && db.photos[k].sessionId == id ==>
      PhotoResponseOf(db.photos[k]) in r.value.photos.value
    ensures r.Ok? ==> forall i, j :: 0 <= i < j < |r.value.photos.value| ==>
      r.value.photos.value[i].id != r.value.photos.value[j].id
  {
    match SessionRepository.FindByIdWithDetails(db, id)
    case None => Err(NotFound(SessionKind, id))
    case Some(d) =>
      Listing.MapHas(PhotoResponseOf, d.photos);
      Ok(MapToResponseWithDetails(d))
  }

  /** `findEntityById`: the stored session, or NotFound. */
  function FindEntityById(db: Database, id: Id): (r: Result<SessionRow>)
    reads db
    ensures r.Ok? <==> id in db.sessions
    ensures r.Ok? ==> r.value == db.sessions[id]
    ensures r.Err? ==> r.failure == NotFound(SessionKind, id)
  {
    if id in db.sessions then Ok(db.sessions[id]) else Err(NotFound(SessionKind, id))
  }

  /**
   * `findByUserId`: checks the user first (NotFound otherwise), then exactly that
   * user's sessions, newest first, in the basic form without photos.
   */
  function FindByUserId(db: Database, userId: Id): (r: Result<seq<SessionResponse>>)
    reads db
    requires db.Valid()
    ensures r.Ok? <==> userId in db.users
    ensures r.Err? ==> r.failure == NotFound(UserKind, userId)
    ensures r.Ok? ==> forall i :: 0 <= i < |r.value| ==>
      && r.value[i].userId == userId
      && r.value[i].id in db.sessions
      && r.value[i] == SessionResponseOf(db.sessions[r.value[i].id])
    ensures r.Ok? ==> forall k :: k in db.sessions && db.sessions[k].userId == userId ==>
      SessionResponseOf(db.sessions[k]) in r.value
    ensures r.Ok? ==> forall i, j :: 0 <= i < j < |r.value| ==> r.value[i].id != r.value[j].id
    ensures r.Ok? ==> forall i, j :: 0 <= i < j < |r.value| ==> r.value[i].createdAt >= r.value[j].createdAt
  {
    match UserService.FindEntityById(db, userId)
    case Err(f) => Err(f)
    case Ok(_) =>
      var rows := SessionRepository.FindByUserIdOrderByCreatedAtDesc(db, userId);
      Listing.MapHas(SessionResponseOf, rows);
      Ok(Listing.Map(SessionResponseOf, rows))
  }

  /**
   * `delete`: NotFound for an unknown id; otherwise the session goes and, by the
   * cascade, exactly its photos; nothing else changes.
   */
  method Delete(db: Database, id: Id) returns (r: Outcome)
    requires db.Valid()
    modifies db
    ensures db.Valid()
    ensures r.Fail? <==> id !in old(db.sessions)
    ensures r.Fail? ==> r.failure == NotFound(SessionKind, id)
    ensures r.Fail? ==> db.sessions == old(db.sessions) && db.photos == old(db.photos)
    ensures r.Done? ==> db.sessions == old(db.sessions) - {id}
    ensures r.Done? ==> db.photos == PhotosOfSessions(old(db.photos), db.sessions.Keys)
    ensures r.Done? ==> forall p :: p in old(db.photos) ==> (p in db.photos <==> old(db.photos)[p].sessionId != id)
    ensures r.Done? ==> FindEntityById(db, id) == Err(NotFound(SessionKind, id))
    ensures db.users == old(db.users)
    ensures db.nextUserId == old(db.nextUserId) && db.nextSessionId == old(db.nextSessionId)
    ensures db.nextPhotoId == old(db.nextPhotoId) && db.clock == old(db.clock)
  {
    var session := FindEntityById(db, id);
    if session.Err? {
      return Fail(session.failure);
    }
    SessionCascadeKeepsIntegrity(db.users, db.sessions, db.photos, id);
    db.DeleteSession(session.value.id);
    r := Done;
  }
}
