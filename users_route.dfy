/**
 * The administrator's user routes (backend/src/routes/users.js): the list of
 * all users, the soft-delete toggle and the hard delete.
 */
module UsersRoute {
  import opened Wrappers
  import opened Numbers
  import opened Ordering
  import opened Http
  import opened Store

  /** A listed user: the whole stored record and the number of its comments. */
  datatype UserItem = UserItem(user: User, commentCount: nat)

  function UserCreatedAt(u: User): int { u.createdAt }

  function IsCommentBy(userId: int): Comment -> bool {
    (c: Comment) => c.userId == userId
  }

  function CommentCountOf(comments: map<int, Comment>, nc: int, userId: int): nat {
    |Filter(Rows(comments, nc), IsCommentBy(userId))|
  }

  function UserItems(us: seq<User>, comments: map<int, Comment>, nc: int): (r: seq<UserItem>)
    ensures |r| == |us|
    ensures forall i :: 0 <= i < |r| ==> r[i] == UserItem(us[i], CommentCountOf(comments, nc, us[i].id))
  {
    seq(|us|, i requires 0 <= i < |us| => UserItem(us[i], CommentCountOf(comments, nc, us[i].id)))
  }

  /** GET `/all`: every user, newest first, with a comment count. */
  function AllUsers(users: map<int, User>, nu: int, comments: map<int, Comment>, nc: int): seq<UserItem> {
    UserItems(Query(users, nu, (u: User) => true, UserCreatedAt), comments, nc)
  }

  /** `r` lists every stored user once, newest first, each with its comment count. */
  predicate UsersListed(r: seq<UserItem>, users: map<int, User>, comments: map<int, Comment>, nc: int) {
    && (forall i, j :: 0 <= i < j < |r| ==> r[i].user.createdAt >= r[j].user.createdAt && r[i].user != r[j].user)
    && (forall i :: 0 <= i < |r| ==>
          r[i].user in users.Values && r[i].commentCount == CommentCountOf(comments, nc, r[i].user.id))
    && (forall k :: k in users ==> exists i :: 0 <= i < |r| && r[i].user == users[k])
  }

  /**
   * Every stored user is listed once, newest first, as the full record
   * (stored password hash included) with its comment count.
   */
  lemma AllUsersCorrect(users: map<int, User>, nu: int, comments: map<int, Comment>, nc: int)
    requires Keyed(users, nu, UserId)
    ensures UsersListed(AllUsers(users, nu, comments, nc), users, comments, nc)
  {
    QueryCorrect(users, nu, (u: User) => true, UserCreatedAt, UserId);
    UserItemsCorrect(Query(users, nu, (u: User) => true, UserCreatedAt), users, comments, nc);
  }

  lemma UserItemsCorrect(us: seq<User>, users: map<int, User>, comments: map<int, Comment>, nc: int)
    requires SortedDesc(us, UserCreatedAt) && NoDuplicates(us)
    requires forall u :: u in us ==> u in users.Values
    requires forall k :: k in users ==> users[k] in us
    ensures UsersListed(UserItems(us, comments, nc), users, comments, nc)
  {
    var r := UserItems(us, comments, nc);
    forall k | k in users ensures exists i :: 0 <= i < |r| && r[i].user == users[k] {
      var i :| 0 <= i < |us| && us[i] == users[k];
      assert r[i].user == users[k];
    }
    forall i | 0 <= i < |r| ensures r[i].user in users.Values {
      assert r[i].user == us[i] && us[i] in us;
    }
  }

  /** The record with its soft-delete flag flipped. */
  function Toggled(u: User): (r: User)
    ensures r.isDeleted == !u.isDeleted
  {
    u.(isDeleted := !u.isDeleted)
  }

  /** Flipping changes no field but the flag, and flipping twice restores the record. */
  lemma ToggledOnlyFlag(u: User)
    ensures Toggled(u).(isDeleted := u.isDeleted) == u
    ensures Toggled(Toggled(u)) == u
    ensures Toggled(u) != u
  {
  }

  /** The table after the toggle of user `id`. */
  function ToggleAt(users: map<int, User>, id: int): (r: map<int, User>)
    requires id in users
    ensures r.Keys == users.Keys
  {
    users[id := Toggled(users[id])]
  }

  /** The toggle touches no other user, and applying it twice restores the table. */
  lemma ToggleAtTwice(users: map<int, User>, id: int)
    requires id in users
    ensures forall k :: k in users && k != id ==> ToggleAt(users, id)[k] == users[k]
    ensures ToggleAt(ToggleAt(users, id), id) == users
  {
    ToggledOnlyFlag(users[id]);
    var twice := ToggleAt(ToggleAt(users, id), id);
    assert forall k :: k in users ==> twice[k] == users[k];
  }

  const Toggle := "User deleted successfully"

  /**
   * POST `/:id`: 400 on a non-numeric id, 404 when absent, else the user's
   * `isDeleted` flag is flipped, with the same message either way.
   */
  method ToggleUser(db: Database, idParam: string) returns (r: Response<string>)
    requires db.Valid()
    modifies db`users
    ensures db.Valid()
    ensures ParseInt(idParam).None? ==> r == Error(400, "Invalid user ID") && db.users == old(db.users)
    ensures ParseInt(idParam).Some? && ParseInt(idParam).value !in old(db.users) ==>
      r == Error(404, "User not found") && db.users == old(db.users)
    ensures ParseInt(idParam).Some? && ParseInt(idParam).value in old(db.users) ==>
      r == Reply(200, Toggle) && db.users == ToggleAt(old(db.users), ParseInt(idParam).value)
  {
    var parsed := ParseInt(idParam);
    if parsed.None? {
      return Error(400, "Invalid user ID");
    }
    var id := parsed.value;
    if id !in db.users {
      return Error(404, "User not found");
    }
    var existing := db.users[id];
    var updated := if existing.isDeleted then existing.(isDeleted := false) else existing.(isDeleted := true);
    UsersValidUpdate(db.users, db.nextUserId, id, updated);
    db.users := db.users[id := updated];
    r := Reply(200, Toggle);
  }

  /** DELETE `/:id`: 400 on a non-numeric id, 404 when absent, else that user alone is removed. */
  method DeleteUser(db: Database, idParam: string) returns (r: Response<string>)
    requires db.Valid()
    modifies db`users
    ensures db.Valid()
    ensures ParseInt(idParam).None? ==> r == Error(400, "Invalid user ID") && db.users == old(db.users)
    ensures ParseInt(idParam).Some? && ParseInt(idParam).value !in old(db.users) ==>
      r == Error(404, "User not found") && db.users == old(db.users)
    ensures ParseInt(idParam).Some? && ParseInt(idParam).value in old(db.users) ==>
      r == Reply(200, "User deleted permanently") && db.users == old(db.users) - {ParseInt(idParam).value}
  {
    var parsed := ParseInt(idParam);
    if parsed.None? {
      return Error(400, "Invalid user ID");
    }
    var id := parsed.value;
    if id !in db.users {
      return Error(404, "User not found");
    }
    UsersValidRemove(db.users, db.nextUserId, id);
    db.users := db.users - {id};
    r := Reply(200, "User deleted permanently");
  }
}
