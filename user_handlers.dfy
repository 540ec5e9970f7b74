/**
 * User handlers (handlers/user.go). They run behind the auth gate but never
 * read the caller's identity: any authenticated user can read or update any user.
 */
module UserHandlers {
  import opened Wrappers
  import opened Models
  import opened Http
  import Store

  const MsgUserNotFound := "User not found"
  const MsgUpdateFailed := "Failed to update user"
  const MsgUpdated := "User successfully updated"

  /** `GetUser`: the user with its visible blogs preloaded, or 404. */
  method GetUser(db: Store.Db, id: nat) returns (resp: Response)
    requires db.Valid()
    ensures id !in db.users ==> resp == Error(StatusNotFound, MsgUserNotFound)
    ensures id in db.users ==>
      && resp.status == StatusOK && resp.body.UserJson?
      && resp.body.user == db.users[id]
      && (forall b :: b in resp.body.blogs <==> b.id in db.blogs && db.blogs[b.id] == b && b.userId == id)
      && (forall i, j :: 0 <= i < j < |resp.body.blogs| ==> resp.body.blogs[i].id != resp.body.blogs[j].id)
  {
    if id !in db.users {
      return Error(StatusNotFound, MsgUserNotFound);
    }
    var blogs := db.FindBlogs(Some(id));
    resp := Response(StatusOK, UserJson(db.users[id], blogs));
  }

  /**
   * `UpdateUser`: replace exactly the username and the email (a key the body
   * omits becomes ""), with no ownership check and none of the registration rules;
   * only the unique indexes can refuse the save.
   */
  method UpdateUser(db: Store.Db, id: nat, body: Option<Profile>) returns (resp: Response)
    requires db.Valid()
    modifies db
    ensures db.Valid()
    ensures id !in old(db.users) ==> resp == Error(StatusNotFound, MsgUserNotFound) && unchanged(db)
    ensures id in old(db.users) && body.None? ==> resp == Error(StatusBadRequest, MsgInvalidPayload) && unchanged(db)
    ensures id in old(db.users) && body.Some? ==>
      var u := old(db.users)[id].(username := body.value.username, email := body.value.email);
      if Store.Collides(old(db.users), u) then
        resp == Error(StatusInternalServerError, MsgUpdateFailed) && unchanged(db)
      else
        && resp == Response(StatusOK, Message(MsgUpdated))
        && db.users == old(db.users)[id := u]
        && db.users[id].password == old(db.users)[id].password
        && db.blogs == old(db.blogs)
  {
    if id !in db.users {
      return Error(StatusNotFound, MsgUserNotFound);
    }
    var user := db.users[id];
    if body.None? {
      return Error(StatusBadRequest, MsgInvalidPayload);
    }
    var input := body.value;
    user := user.(username := input.username, email := input.email);
    var ok := db.SaveUser(user);
    if !ok {
      return Error(StatusInternalServerError, MsgUpdateFailed);
    }
    resp := Response(StatusOK, Message(MsgUpdated));
  }
}
