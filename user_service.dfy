/** The user service: create, list, look up and delete users. */
module UserService {
  import opened Common
  import opened Entity
  import opened Dto
  import opened Store
  import UserRepository
  import Listing

  /**
   * `create`: stores a new user under a fresh id, stamped `now`, and echoes it.  No
   * check is made that the name is unused, so creation never fails.
   */
  method Create(db: Database, name: string, now: Time) returns (r: UserResponse)
    requires db.Valid() && db.clock <= now
    requires ValidUserName(name)
    modifies db
    ensures db.Valid()
    ensures r == UserResponse(old(db.nextUserId), name, now) && r.id !in old(db.users)
    ensures db.users == old(db.users)[r.id := UserRow(r.id, name, now)]
    ensures db.sessions == old(db.sessions) && db.photos == old(db.photos)
    ensures db.nextUserId == old(db.nextUserId) + 1 && db.clock == now
    ensures db.nextSessionId == old(db.nextSessionId) && db.nextPhotoId == old(db.nextPhotoId)
    ensures FindById(db, r.id) == Ok(r)
    ensures UserRepository.ExistsByName(db, name)
  {
    var saved := db.InsertUser(name, now);
    r := UserResponseOf(saved);
  }

  /** `findAll`: every user exactly once, newest first. */
  function FindAll(db: Database): (r: seq<UserResponse>)
    reads db
    requires UsersWellFormed(db.users, db.nextUserId, db.clock)
    ensures |r| == |db.users|
    ensures forall i :: 0 <= i < |r| ==> r[i].id in db.users && r[i] == UserResponseOf(db.users[r[i].id])
    ensures forall k :: k in db.users ==> UserResponseOf(db.users[k]) in r
    ensures forall i, j :: 0 <= i < j < |r| ==> r[i].id != r[j].id
    ensures forall i, j :: 0 <= i < j < |r| ==> r[i].createdAt >= r[j].createdAt
  {
    var rows := UserRepository.FindAllByOrderByCreatedAtDesc(db);
    ResponsesOfListing(db.users, rows);
    Listing.Map(UserResponseOf, rows)
  }

  /** Projecting a listing of the users keeps each user once, in the same order, newest first. */
  lemma ResponsesOfListing(users: map<Id, UserRow>, rows: seq<UserRow>)
    requires forall i :: 0 <= i < |rows| ==> rows[i].id in users && users[rows[i].id] == rows[i]
    requires forall k :: k in users ==> users[k] in rows
    requires forall i, j :: 0 <= i < j < |rows| ==> rows[i].id > rows[j].id
    requires forall i, j :: 0 <= i < j < |rows| ==> rows[i].createdAt >= rows[j].createdAt
    ensures var r := Listing.Map(UserResponseOf, rows);
      && |r| == |rows|
      && (forall i :: 0 <= i < |r| ==> r[i].id in users && r[i] == UserResponseOf(users[r[i].id]))
      && (forall k :: k in users ==> UserResponseOf(users[k]) in r)
      && (forall i, j :: 0 <= i < j < |r| ==> r[i].id != r[j].id)
      && (forall i, j :: 0 <= i < j < |r| ==> r[i].createdAt >= r[j].createdAt)
  {
    Listing.MapHas(UserResponseOf, rows);
  }

  /** `findById`: the user's response, or NotFound. */
  function FindById(db: Database, id: Id): (r: Result<UserResponse>)
    reads db
    requires db.Valid()
    ensures r.Ok? <==> id in db.users
    ensures r.Ok? ==> r.value.id == id
    ensures r.Ok? ==> r.value.name == db.users[id].name && r.value.createdAt == db.users[id].createdAt
    ensures r.Err? ==> r.failure == NotFound(UserKind, id)
  {
    match FindEntityById(db, id)
    case Ok(u) => Ok(UserResponseOf(u))
    case Err(f) => Err(f)
  }

  /** `findEntityById`: the stored user, or NotFound. */
  function FindEntityById(db: Database, id: Id): (r: Result<UserRow>)
    reads db
    ensures r.Ok? <==> id in db.users
    ensures r.Ok? ==> r.value == db.users[id]
    ensures r.Err? ==> r.failure == NotFound(UserKind, id)
  {
    if id in db.users then Ok(db.users[id]) else Err(NotFound(UserKind, id))
  }

  /**
   * `delete`: NotFound for an unknown id; otherwise the user goes, and with it every
   * session of the user and every photo of those sessions.
   */
  method Delete(db: Database, id: Id) returns (r: Outcome)
    requires db.Valid()
    modifies db
    ensures db.Valid()
    ensures r.Fail? <==> id !in old(db.users)
    ensures r.Fail? ==> r.failure == NotFound(UserKind, id)
    ensures r.Fail? ==> db.users == old(db.users) && db.sessions == old(db.sessions) && db.photos == old(db.photos)
    ensures r.Done? ==> db.users == old(db.users) - {id}
    ensures r.Done? ==> db.sessions == SessionsNotOf(old(db.sessions), id)
    ensures r.Done? ==> db.photos == PhotosOfSessions(old(db.photos), db.sessions.Keys)
    ensures r.Done? ==> forall s :: s in old(db.sessions) ==> (s in db.sessions <==> old(db.sessions)[s].userId != id)
    ensures r.Done? ==> forall p :: p in old(db.photos) ==>
      (p in db.photos <==> old(db.sessions)[old(db.photos)[p].sessionId].userId != id)
    ensures r.Done? ==> FindEntityById(db, id) == Err(NotFound(UserKind, id))
    ensures db.nextUserId == old(db.nextUserId) && db.nextSessionId == old(db.nextSessionId)
    ensures db.nextPhotoId == old(db.nextPhotoId) && db.clock == old(db.clock)
  {
    var user := FindEntityById(db, id);
    if user.Err? {
      return Fail(user.failure);
    }
    UserCascadeKeepsIntegrity(db.users, db.sessions, db.photos, id);
    db.DeleteUser(user.value.id);
    r := Done;
  }
}
