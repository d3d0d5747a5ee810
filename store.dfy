/**
 * The relational store behind the three repositories: tables `users`, `sessions` and
 * `photos`, each keyed by an identity column, plus the primitive inserts and deletes the
 * repositories inherit (`save`, `delete`).  Deleting a parent row deletes its dependants.
 */
module Store {
  import opened Common
  import opened Entity

  /** Every session's user is live, and every photo's session is live. */
  ghost predicate Integrity(users: map<Id, UserRow>, sessions: map<Id, SessionRow>, photos: map<Id, PhotoRow>)
  {
    && (forall s :: s in sessions ==> sessions[s].userId in users)
    && (forall p :: p in photos ==> photos[p].sessionId in sessions)
  }

  /** The sessions left after user `u` and everything it owns is deleted. */
  function SessionsNotOf(sessions: map<Id, SessionRow>, u: Id): map<Id, SessionRow>
  {
    map k | k in sessions && sessions[k].userId != u :: sessions[k]
  }

  /** The photos whose session is one of `live`: what a cascade over sessions leaves behind. */
  function PhotosOfSessions(photos: map<Id, PhotoRow>, live: set<Id>): map<Id, PhotoRow>
  {
    map k | k in photos && photos[k].sessionId in live :: photos[k]
  }

  /** The ids of user `u`'s sessions: the rows behind `user_id = u`. */
  function SessionIdsOfUser(sessions: map<Id, SessionRow>, u: Id): set<Id>
  {
    set k | k in sessions && sessions[k].userId == u
  }

  /** The ids of session `s`'s photos: the rows behind `session_id = s`. */
  function PhotoIdsOfSession(photos: map<Id, PhotoRow>, s: Id): set<Id>
  {
    set k | k in photos && photos[k].sessionId == s
  }

  /**
   * Deleting user `u` together with its sessions and their photos leaves a store with
   * referential integrity, and removes exactly the rows that pointed, directly or not, at `u`.
   */
  lemma {:induction false} UserCascadeKeepsIntegrity(
    users: map<Id, UserRow>, sessions: map<Id, SessionRow>, photos: map<Id, PhotoRow>, u: Id)
    requires Integrity(users, sessions, photos)
    ensures var sessions' := SessionsNotOf(sessions, u);
      && Integrity(users - {u}, sessions', PhotosOfSessions(photos, sessions'.Keys))
      && (forall s :: s in sessions ==> (s in sessions' <==> sessions[s].userId != u))
      && (forall p :: p in photos ==>
            (p in PhotosOfSessions(photos, sessions'.Keys) <==> sessions[photos[p].sessionId].userId != u))
  {
  }

  /**
   * Deleting session `s` together with its photos leaves a store with referential
   * integrity, and removes exactly the photos of `s`.
   */
  lemma {:induction false} SessionCascadeKeepsIntegrity(
    users: map<Id, UserRow>, sessions: map<Id, SessionRow>, photos: map<Id, PhotoRow>, s: Id)
    requires Integrity(users, sessions, photos)
    ensures Integrity(users, sessions - {s}, PhotosOfSessions(photos, sessions.Keys - {s}))
    ensures forall p :: p in photos ==>
      (p in PhotosOfSessions(photos, sessions.Keys - {s}) <==> photos[p].sessionId != s)
  {
  }

  /**
   * The users table as the identity column and the clock leave it: keys in [1, next),
   * each row carrying its own key, stamped no later than `clock`, and a larger id never
   * stamped earlier than a smaller one.
   */
  ghost predicate UsersWellFormed(users: map<Id, UserRow>, next: Id, clock: Time)
  {
    && 1 <= next
    && (forall k :: k in users ==> 1 <= k < next && users[k].id == k && users[k].createdAt <= clock)
    && (forall a, b :: a in users && b in users && a < b ==> users[a].createdAt <= users[b].createdAt)
  }

  /** The sessions table, in the same sense as `UsersWellFormed`. */
  ghost predicate SessionsWellFormed(sessions: map<Id, SessionRow>, next: Id, clock: Time)
  {
    && 1 <= next
    && (forall k :: k in sessions ==> 1 <= k < next && sessions[k].id == k && sessions[k].createdAt <= clock)
    && (forall a, b :: a in sessions && b in sessions && a < b ==> sessions[a].createdAt <= sessions[b].createdAt)
  }

  /** The photos table, in the same sense as `UsersWellFormed`. */
  ghost predicate PhotoRowsWellFormed(photos: map<Id, PhotoRow>, next: Id, clock: Time)
  {
    && 1 <= next
    && (forall k :: k in photos ==> 1 <= k < next && photos[k].id == k && photos[k].createdAt <= clock)
    && (forall a, b :: a in photos && b in photos && a < b ==> photos[a].createdAt <= photos[b].createdAt)
  }

  /** The photos table with every URL within the column length. */
  ghost predicate PhotosWellFormed(photos: map<Id, PhotoRow>, next: Id, clock: Time)
  {
    && PhotoRowsWellFormed(photos, next, clock)
    && (forall k :: k in photos ==> |photos[k].imageUrl| <= ImageUrlMaxLength)
  }

  class Database {
    var users: map<Id, UserRow>
    var sessions: map<Id, SessionRow>
    var photos: map<Id, PhotoRow>
    /** The next value of each table's identity column. */
    var nextUserId: Id
    var nextSessionId: Id
    var nextPhotoId: Id
    /** The latest creation time stamped so far. */
    var clock: Time

    ghost predicate Valid()
      reads this
    {
      && Integrity(users, sessions, photos)
      && UsersWellFormed(users, nextUserId, clock)
      && SessionsWellFormed(sessions, nextSessionId, clock)
      && PhotosWellFormed(photos, nextPhotoId, clock)
    }

    constructor Empty()
      ensures Valid()
      ensures users == map[] && sessions == map[] && photos == map[]
      ensures nextUserId == 1 && nextSessionId == 1 && nextPhotoId == 1 && clock == 0
    {
      users, sessions, photos := map[], map[], map[];
      nextUserId, nextSessionId, nextPhotoId := 1, 1, 1;
      clock := 0;
    }

    /** `userRepository.save` of a new user: one new row under a fresh id. */
    method InsertUser(name: string, now: Time) returns (row: UserRow)
      requires Valid() && clock <= now
      modifies this
      ensures Valid()
      ensures row == UserRow(old(nextUserId), name, now) && row.id !in old(users)
      ensures users == old(users)[row.id := row]
      ensures sessions == old(sessions) && photos == old(photos)
      ensures nextUserId == old(nextUserId) + 1 && clock == now
      ensures nextSessionId == old(nextSessionId) && nextPhotoId == old(nextPhotoId)
    {
      row := UserRow(nextUserId, name, now);
      users := users[row.id := row];
      nextUserId := nextUserId + 1;
      clock := now;
    }

    /**
     * `sessionRepository.save` of a new session object: the pre-persist hook runs, the
     * row is inserted under a fresh id and the object receives that id.
     */
    method InsertSession(e: Session, now: Time) returns (row: SessionRow)
      requires Valid() && clock <= now
      requires e.user.Some? && e.user.value.id in users
      requires e.createdAt.Some? ==> clock <= e.createdAt.value
      modifies this, e`id, e`createdAt
      ensures Valid()
      ensures e.createdAt == Some(if old(e.createdAt).Some? then old(e.createdAt).value else now)
      ensures row == SessionRow(old(nextSessionId), old(e.user).value.id, e.createdAt.value)
      ensures row.id !in old(sessions) && e.id == Some(row.id)
      ensures sessions == old(sessions)[row.id := row]
      ensures users == old(users) && photos == old(photos)
      ensures nextSessionId == old(nextSessionId) + 1 && clock == row.createdAt
      ensures nextUserId == old(nextUserId) && nextPhotoId == old(nextPhotoId)
    {
      e.OnCreate(now);
      row := SessionRow(nextSessionId, e.UserId().value, e.createdAt.value);
      sessions := sessions[row.id := row];
      nextSessionId := nextSessionId + 1;
      clock := row.createdAt;
      e.id := Some(row.id);
    }

    /**
     * `photoRepository.save` of a new photo object.  The database refuses an image URL
     * longer than its column, and then nothing is stored.
     */
    method InsertPhoto(e: Photo, now: Time) returns (r: Result<PhotoRow>)
      requires Valid() && clock <= now
      requires e.session.Some? && e.session.value.id in sessions
      requires e.createdAt.Some? ==> clock <= e.createdAt.value
      modifies this, e`id, e`createdAt
      ensures Valid()
      ensures e.createdAt == Some(if old(e.createdAt).Some? then old(e.createdAt).value else now)
      ensures r.Err? <==> |e.imageUrl| > ImageUrlMaxLength
      ensures r.Err? ==> r.failure == ValueTooLong("image_url", ImageUrlMaxLength)
      ensures r.Err? ==> e.id == old(e.id) && photos == old(photos) && nextPhotoId == old(nextPhotoId)
      ensures r.Err? ==> clock == old(clock)
      ensures r.Ok? ==> r.value == PhotoRow(old(nextPhotoId), old(e.session).value.id, e.imageUrl, e.createdAt.value)
      ensures r.Ok? ==> r.value.id !in old(photos) && e.id == Some(r.value.id)
      ensures r.Ok? ==> photos == old(photos)[r.value.id := r.value]
      ensures r.Ok? ==> nextPhotoId == old(nextPhotoId) + 1 && clock == r.value.createdAt
      ensures users == old(users) && sessions == old(sessions)
      ensures nextUserId == old(nextUserId) && nextSessionId == old(nextSessionId)
    {
      e.OnCreate(now);
      if |e.imageUrl| > ImageUrlMaxLength {
        return Err(ValueTooLong("image_url", ImageUrlMaxLength));
      }
      var row := PhotoRow(nextPhotoId, e.SessionId().value, e.imageUrl, e.createdAt.value);
      photos := photos[row.id := row];
      nextPhotoId := nextPhotoId + 1;
      clock := row.createdAt;
      e.id := Some(row.id);
      r := Ok(row);
    }

    /**
     * `userRepository.delete`.  The User entity is not part of this model: the store
     * assumes it cascades to the user's sessions (whose `user_id` is NOT NULL) and
     * through them to their photos.
     */
    method DeleteUser(id: Id)
      requires Valid() && id in users
      modifies this
      ensures Valid()
      ensures users == old(users) - {id}
      ensures sessions == SessionsNotOf(old(sessions), id)
      ensures photos == PhotosOfSessions(old(photos), sessions.Keys)
      ensures nextUserId == old(nextUserId) && nextSessionId == old(nextSessionId)
      ensures nextPhotoId == old(nextPhotoId) && clock == old(clock)
    {
      UserCascadeKeepsIntegrity(users, sessions, photos, id);
      users := users - {id};
      sessions := SessionsNotOf(sessions, id);
      photos := PhotosOfSessions(photos, sessions.Keys);
    }

    /** `sessionRepository.delete`: the session's photos go with it (cascade ALL, orphan removal). */
    method DeleteSession(id: Id)
      requires Valid() && id in sessions
      modifies this
      ensures Valid()
      ensures sessions == old(sessions) - {id}
      ensures photos == PhotosOfSessions(old(photos), sessions.Keys)
      ensures users == old(users)
      ensures nextUserId == old(nextUserId) && nextSessionId == old(nextSessionId)
      ensures nextPhotoId == old(nextPhotoId) && clock == old(clock)
    {
      SessionCascadeKeepsIntegrity(users, sessions, photos, id);
      sessions := sessions - {id};
      photos := PhotosOfSessions(photos, sessions.Keys);
    }

    /** `photoRepository.delete`: a leaf, nothing else goes. */
    method DeletePhoto(id: Id)
      requires Valid() && id in photos
      modifies this
      ensures Valid()
      ensures photos == old(photos) - {id}
      ensures users == old(users) && sessions == old(sessions)
      ensures nextUserId == old(nextUserId) && nextSessionId == old(nextSessionId)
      ensures nextPhotoId == old(nextPhotoId) && clock == old(clock)
    {
      photos := photos - {id};
    }
  }
}
