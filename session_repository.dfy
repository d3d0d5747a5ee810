/** The derived and declared queries of the session repository, as functions of the store. */
module SessionRepository {
  import opened Common
  import opened Entity
  import opened Store
  import Listing
  import PhotoRepository

  /** A session together with its eagerly fetched user and photo collection. */
  datatype SessionDetails = SessionDetails(session: SessionRow, user: UserRow, photos: seq<PhotoRow>)

  /** `findAllByOrderByCreatedAtDesc`: every session exactly once, newest first. */
  function FindAllByOrderByCreatedAtDesc(db: Database): (r: seq<SessionRow>)
    reads db
    requires SessionsWellFormed(db.sessions, db.nextSessionId, db.clock)
    ensures |r| == |db.sessions|
    ensures forall i :: 0 <= i < |r| ==> r[i].id in db.sessions && db.sessions[r[i].id] == r[i]
    ensures forall k :: k in db.sessions ==> db.sessions[k] in r
    ensures forall i, j :: 0 <= i < j < |r| ==> r[i].id > r[j].id
    ensures forall i, j :: 0 <= i < j < |r| ==> r[i].createdAt >= r[j].createdAt
  {
    Listing.Listed(db.sessions, db.sessions.Keys, db.nextSessionId,
      (s: SessionRow) => s.id, (s: SessionRow) => s.createdAt);
    Listing.Rows(db.sessions, Listing.IdsDesc(db.sessions.Keys, db.nextSessionId))
  }

  /** `findByUser_IdOrderByCreatedAtDesc`: exactly the sessions of user `u`, newest first. */
  function FindByUserIdOrderByCreatedAtDesc(db: Database, u: Id): (r: seq<SessionRow>)
    reads db
    requires SessionsWellFormed(db.sessions, db.nextSessionId, db.clock)
    ensures |r| == |SessionIdsOfUser(db.sessions, u)|
    ensures forall i :: 0 <= i < |r| ==>
      r[i].userId == u && r[i].id in db.sessions && db.sessions[r[i].id] == r[i]
    ensures forall k :: k in db.sessions && db.sessions[k].userId == u ==> db.sessions[k] in r
    ensures forall i, j :: 0 <= i < j < |r| ==> r[i].id > r[j].id
    ensures forall i, j :: 0 <= i < j < |r| ==> r[i].createdAt >= r[j].createdAt
  {
    var keys := SessionIdsOfUser(db.sessions, u);
    Listing.Listed(db.sessions, keys, db.nextSessionId,
      (s: SessionRow) => s.id, (s: SessionRow) => s.createdAt);
    Listing.Rows(db.sessions, Listing.IdsDesc(keys, db.nextSessionId))
  }

  /**
   * `findByIdWithDetails`: the session with its user and photos, present exactly when
   * the session exists.  The joins are outer joins, so a session without photos is
   * still found, with an empty collection.  The query orders nothing; the collection is
   * listed here newest first.
   */
  function FindByIdWithDetails(db: Database, id: Id): (r: Option<SessionDetails>)
    reads db
    requires db.Valid()
    ensures r.Some? <==> id in db.sessions
    ensures r.Some? ==> r.value.session == db.sessions[id]
    ensures r.Some? ==> r.value.user.id == r.value.session.userId && r.value.user == db.users[r.value.session.userId]
    ensures r.Some? ==> forall i :: 0 <= i < |r.value.photos| ==>
      r.value.photos[i].sessionId == id && r.value.photos[i].id in db.photos && r.value.photos[i] == db.photos[r.value.photos[i].id]
    ensures r.Some? ==> forall k :: k in db.photos && db.photos[k].sessionId == id ==> db.photos[k] in r.value.photos
    ensures r.Some? ==> forall i, j :: 0 <= i < j < |r.value.photos| ==> r.value.photos[i].id != r.value.photos[j].id
  {
    if id in db.sessions then
      var s := db.sessions[id];
      Some(SessionDetails(s, db.users[s.userId], PhotoRepository.FindBySessionIdOrderByCreatedAtDesc(db, id)))
    else
      None
  }
}
