/** The derived queries of the user repository, as functions of the store. */
module UserRepository {
  import opened Common
  import opened Entity
  import opened Store
  import Listing

  /** `findAllByOrderByCreatedAtDesc`: every user exactly once, newest first. */
  function FindAllByOrderByCreatedAtDesc(db: Database): (r: seq<UserRow>)
    reads db
    requires UsersWellFormed(db.users, db.nextUserId, db.clock)
    ensures |r| == |db.users|
    ensures forall i :: 0 <= i < |r| ==> r[i].id in db.users && db.users[r[i].id] == r[i]
    ensures forall k :: k in db.users ==> db.users[k] in r
    ensures forall i, j :: 0 <= i < j < |r| ==> r[i].id > r[j].id
    ensures forall i, j :: 0 <= i < j < |r| ==> r[i].createdAt >= r[j].createdAt
  {
    Listing.Listed(db.users, db.users.Keys, db.nextUserId, (u: UserRow) => u.id, (u: UserRow) => u.createdAt);
    Listing.Rows(db.users, Listing.IdsDesc(db.users.Keys, db.nextUserId))
  }

  /** `existsByName`: whether some stored user carries exactly this name. */
  function ExistsByName(db: Database, name: string): (r: bool)
    reads db
    ensures r <==> exists k :: k in db.users && db.users[k].name == name
  {
    name in (set k | k in db.users :: db.users[k].name)
  }
}
