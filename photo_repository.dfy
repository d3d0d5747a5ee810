/** The derived queries of the photo repository, as functions of the store. */
module PhotoRepository {
  import opened Common
  import opened Entity
  import opened Store
  import Listing

  /** `findAllByOrderByCreatedAtDesc`: every photo exactly once, newest first. */
  function FindAllByOrderByCreatedAtDesc(db: Database): (r: seq<PhotoRow>)
    reads db
    requires PhotoRowsWellFormed(db.photos, db.nextPhotoId, db.clock)
    ensures |r| == |db.photos|
    ensures forall i :: 0 <= i < |r| ==> r[i].id in db.photos && db.photos[r[i].id] == r[i]
    ensures forall k :: k in db.photos ==> db.photos[k] in r
    ensures forall i, j :: 0 <= i < j < |r| ==> r[i].id > r[j].id
    ensures forall i, j :: 0 <= i < j < |r| ==> r[i].createdAt >= r[j].createdAt
  {
    Listing.Listed(db.photos, db.photos.Keys, db.nextPhotoId, (p: PhotoRow) => p.id, (p: PhotoRow) => p.createdAt);
    Listing.Rows(db.photos, Listing.IdsDesc(db.photos.Keys, db.nextPhotoId))
  }

  /** `findBySession_IdOrderByCreatedAtDesc`: exactly the photos of session `s`, newest first. */
  function FindBySessionIdOrderByCreatedAtDesc(db: Database, s: Id): (r: seq<PhotoRow>)
    reads db
    requires PhotoRowsWellFormed(db.photos, db.nextPhotoId, db.clock)
    ensures |r| == |PhotoIdsOfSession(db.photos, s)|
    ensures forall i :: 0 <= i < |r| ==>
      r[i].sessionId == s && r[i].id in db.photos && db.photos[r[i].id] == r[i]
    ensures forall k :: k in db.photos && db.photos[k].sessionId == s ==> db.photos[k] in r
    ensures forall i, j :: 0 <= i < j < |r| ==> r[i].id > r[j].id
    ensures forall i, j :: 0 <= i < j < |r| ==> r[i].createdAt >= r[j].createdAt
  {
    var keys := PhotoIdsOfSession(db.photos, s);
    Listing.Listed(db.photos, keys, db.nextPhotoId, (p: PhotoRow) => p.id, (p: PhotoRow) => p.createdAt);
    Listing.Rows(db.photos, Listing.IdsDesc(keys, db.nextPhotoId))
  }

  /**
   * `countBySession_Id`: the number of photos the filtered listing returns; zero for a
   * session without photos and for an id no session has.
   */
  function CountBySessionId(db: Database, s: Id): (r: nat)
    reads db
    requires db.Valid()
    ensures r == |FindBySessionIdOrderByCreatedAtDesc(db, s)|
    ensures s !in db.sessions ==> r == 0
    ensures r == 0 <==> forall k :: k in db.photos ==> db.photos[k].sessionId != s
  {
    |PhotoIdsOfSession(db.photos, s)|
  }
}
