/**
 * The three persistent entities.  A stored row is a value; the transient `Session` and
 * `Photo` objects are what the services build before handing them to the store, whose
 * pre-persist hook stamps the creation time in place.
 */
module Entity {
  import opened Common

  /** Column `photos.image_url` is declared NOT NULL with length 500. */
  const ImageUrlMaxLength: nat := 500

  /** A row of table `users` (the User entity itself is not part of this model). */
  datatype UserRow = UserRow(id: Id, name: string, createdAt: Time)

  /** A row of table `sessions`; `userId` is the NOT NULL foreign key `user_id`. */
  datatype SessionRow = SessionRow(id: Id, userId: Id, createdAt: Time)

  /** A row of table `photos`; `sessionId` is the NOT NULL foreign key `session_id`. */
  datatype PhotoRow = PhotoRow(id: Id, sessionId: Id, imageUrl: string, createdAt: Time)

  /** A Session object before it is persisted. */
  class Session {
    var id: Option<Id>
    var user: Option<UserRow>
    var createdAt: Option<Time>
    var photos: seq<PhotoRow>

    /** The builder: `createdAt` defaults to the current time and `photos` to an empty list. */
    constructor Build(user: Option<UserRow>, now: Time)
      ensures id == None && this.user == user
      ensures createdAt == Some(now) && photos == []
    {
      id := None;
      this.user := user;
      createdAt := Some(now);
      photos := [];
    }

    /** The pre-persist hook: fills `createdAt` only when it is still null. */
    method OnCreate(now: Time)
      modifies this`createdAt
      ensures old(createdAt).Some? ==> createdAt == old(createdAt)
      ensures old(createdAt).None? ==> createdAt == Some(now)
    {
      if createdAt == None {
        createdAt := Some(now);
      }
    }

    /** The owning user's id, null exactly when there is no user. */
    function UserId(): (r: Option<Id>)
      reads this
      ensures r.None? <==> user.None?
      ensures user.Some? ==> r == Some(user.value.id)
    {
      match user
      case None => None
      case Some(u) => Some(u.id)
    }
  }

  /** A Photo object before it is persisted. */
  class Photo {
    var id: Option<Id>
    var session: Option<SessionRow>
    var imageUrl: string
    var createdAt: Option<Time>

    /** The builder: `createdAt` defaults to the current time. */
    constructor Build(session: Option<SessionRow>, imageUrl: string, now: Time)
      ensures id == None && this.session == session && this.imageUrl == imageUrl
      ensures createdAt == Some(now)
    {
      id := None;
      this.session := session;
      this.imageUrl := imageUrl;
      createdAt := Some(now);
    }

    /** The pre-persist hook: fills `createdAt` only when it is still null. */
    method OnCreate(now: Time)
      modifies this`createdAt
      ensures old(createdAt).Some? ==> createdAt == old(createdAt)
      ensures old(createdAt).None? ==> createdAt == Some(now)
    {
      if createdAt == None {
        createdAt := Some(now);
      }
    }

    /** The owning session's id, null exactly when there is no session. */
    function SessionId(): (r: Option<Id>)
      reads this
      ensures r.None? <==> session.None?
      ensures session.Some? ==> r == Some(session.value.id)
    {
      match session
      case None => None
      case Some(s) => Some(s.id)
    }
  }
}
