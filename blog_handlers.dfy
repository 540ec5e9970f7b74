/**
 * Blog handlers (handlers/blog.go). Every one of them runs behind the auth gate;
 * `caller` is the user ID the gate attached to the request. Update and delete
 * look the blog up (404), then compare its owner with the caller (401), and
 * only then read the body or write.
 */
module BlogHandlers {
  import opened Wrappers
  import opened Models
  import opened Http
  import Store

  const MsgBlogNotFound := "Blog not found"
  const MsgUnauthorized := "Unauthorized"
  const MsgCreateFailed := "Failed to create blog"
  const MsgUpdateFailed := "Failed to update blog"
  const MsgDeleted := "Blog successfully deleted"

  /** The record `CreateBlog` hands to `Create`: the body over a zero `Blog`, owned by the caller. */
  function NewBlog(input: BlogInput, caller: nat): (b: Blog)
    ensures b.userId == caller
    ensures b.id == input.id.GetOr(0)
  {
    DecodeOver(ZeroBlog, input).(userId := caller)
  }

  /** Every blog `before` gives an owner other than `u` is still in `after`, unchanged. */
  predicate KeepsOthersBlogs(before: map<nat, Blog>, after: map<nat, Blog>, u: nat) {
    forall k :: k in before && before[k].userId != u ==> k in after && after[k] == before[k]
  }

  /**
   * `CreateBlog`: the body is decoded into a zero `Blog` and its owner is forced to
   * the caller; a body `ID` is the key it is created under, else the sequence's.
   */
  method CreateBlog(db: Store.Db, caller: nat, body: Option<BlogInput>) returns (resp: Response)
    requires db.Valid()
    modifies db
    ensures db.Valid()
    ensures body.None? ==> resp == Error(StatusBadRequest, MsgInvalidPayload) && unchanged(db)
    ensures body.Some? ==>
      var b := NewBlog(body.value, caller);
      var key := old(db.BlogKey(b));
      if old(db.BlogKeyTaken(key)) || caller !in old(db.users) then
        && resp == Error(StatusInternalServerError, MsgCreateFailed)
        && db.blogs == old(db.blogs)
      else
        && resp == Response(StatusOK, BlogJson(b.(id := key)))
        && key !in old(db.blogs)
        && db.blogs == old(db.blogs)[key := b.(id := key)]
    ensures db.users == old(db.users) && db.deletedBlogs == old(db.deletedBlogs)
    ensures resp.status == StatusOK ==> resp.body.BlogJson? && resp.body.blog.userId == caller
    ensures KeepsOthersBlogs(old(db.blogs), db.blogs, caller)
  {
    if body.None? {
      return Error(StatusBadRequest, MsgInvalidPayload);
    }
    var blog := DecodeOver(ZeroBlog, body.value);
    blog := blog.(userId := caller);
    var created := db.InsertBlog(blog);
    if created.None? {
      return Error(StatusInternalServerError, MsgCreateFailed);
    }
    resp := Response(StatusOK, BlogJson(created.value));
  }

  /** `GetUserBlogs`: exactly the caller's visible blogs, each once. */
  method GetUserBlogs(db: Store.Db, caller: nat) returns (resp: Response)
    requires db.Valid()
    ensures resp.status == StatusOK && resp.body.BlogsJson?
    ensures forall b :: b in resp.body.blogs <==> b.id in db.blogs && db.blogs[b.id] == b && b.userId == caller
    ensures forall i, j :: 0 <= i < j < |resp.body.blogs| ==> resp.body.blogs[i].id != resp.body.blogs[j].id
  {
    var blogs := db.FindBlogs(Some(caller));
    resp := Response(StatusOK, BlogsJson(blogs));
  }

  /** `GetAllBlogs`: every visible blog, each once, whoever owns it. */
  method GetAllBlogs(db: Store.Db) returns (resp: Response)
    requires db.Valid()
    ensures resp.status == StatusOK && resp.body.BlogsJson?
    ensures forall b :: b in resp.body.blogs <==> b.id in db.blogs && db.blogs[b.id] == b
    ensures forall i, j :: 0 <= i < j < |resp.body.blogs| ==> resp.body.blogs[i].id != resp.body.blogs[j].id
  {
    var blogs := db.FindBlogs(None);
    resp := Response(StatusOK, BlogsJson(blogs));
  }

  /**
   * `UpdateBlog` as written: the body is decoded over the stored record, so
   * omitted fields keep their values and supplied ones overwrite them, `user_id`
   * and the primary key included. `Save` then writes to whatever key the decoded
   * record holds: a body `ID` sends the write past the ownership check to another
   * row, and a zero `ID` turns it into a `Create`.
   */
  method UpdateBlog(db: Store.Db, caller: nat, id: nat, body: Option<BlogInput>) returns (resp: Response)
    requires db.Valid()
    modifies db
    ensures db.Valid()
    ensures id !in old(db.blogs) ==> resp == Error(StatusNotFound, MsgBlogNotFound) && unchanged(db)
    ensures id in old(db.blogs) && old(db.blogs)[id].userId != caller ==>
      resp == Error(StatusUnauthorized, MsgUnauthorized) && unchanged(db)
    ensures id in old(db.blogs) && old(db.blogs)[id].userId == caller && body.None? ==>
      resp == Error(StatusBadRequest, MsgInvalidPayload) && unchanged(db)
    ensures id in old(db.blogs) && old(db.blogs)[id].userId == caller && body.Some? ==>
      var b := DecodeOver(old(db.blogs)[id], body.value);
      var key := old(db.BlogKey(b));
      if (b.id == 0 && old(db.BlogKeyTaken(key))) || b.userId !in old(db.users) then
        && resp == Error(StatusInternalServerError, MsgUpdateFailed)
        && db.blogs == old(db.blogs) && db.deletedBlogs == old(db.deletedBlogs)
      else
        && resp == Response(StatusOK, BlogJson(b.(id := key)))
        && db.blogs == old(db.blogs)[key := b.(id := key)]
        && db.deletedBlogs == old(db.deletedBlogs) - {key}
    ensures db.users == old(db.users)
    ensures db.blogs != old(db.blogs) ==> id in old(db.blogs) && old(db.blogs)[id].userId == caller
  {
    if id !in db.blogs {
      return Error(StatusNotFound, MsgBlogNotFound);
    }
    var blog := db.blogs[id];
    if blog.userId != caller {
      return Error(StatusUnauthorized, MsgUnauthorized);
    }
    if body.None? {
      return Error(StatusBadRequest, MsgInvalidPayload);
    }
    blog := DecodeOver(blog, body.value);
    var saved := db.SaveBlog(blog);
    if saved.None? {
      return Error(StatusInternalServerError, MsgUpdateFailed);
    }
    resp := Response(StatusOK, BlogJson(saved.value));
  }

  /**
   * The bypass in `UpdateBlog`: the owner of blog `mine` sends a body whose `ID` is
   * `theirs`, a blog of another user. The update succeeds, `mine` is untouched, and
   * `theirs` is overwritten and now belongs to the caller.
   */
  method BodyIdRedirectsUpdate(db: Store.Db, caller: nat, mine: nat, theirs: nat, title: string)
    returns (resp: Response)
    requires db.Valid()
    requires mine in db.blogs && db.blogs[mine].userId == caller
    requires theirs in db.blogs && db.blogs[theirs].userId != caller
    modifies db
    ensures resp.status == StatusOK && mine in db.blogs && theirs in db.blogs
    ensures db.blogs[mine] == old(db.blogs)[mine]
    ensures db.blogs[theirs] == old(db.blogs)[mine].(id := theirs, title := title)
    ensures !KeepsOthersBlogs(old(db.blogs), db.blogs, caller)
  {
    resp := UpdateBlog(db, caller, mine, Some(BlogInput(Some(theirs), Some(title), None, None, None)));
  }

  /**
   * `UpdateBlog` with the path's key pinned after decoding, so that a body `ID` is
   * ignored and `Save` writes the row the ownership check looked at.
   */
  method UpdateOwnBlog(db: Store.Db, caller: nat, id: nat, body: Option<BlogInput>) returns (resp: Response)
    requires db.Valid()
    modifies db
    ensures db.Valid()
    ensures id !in old(db.blogs) ==> resp == Error(StatusNotFound, MsgBlogNotFound) && unchanged(db)
    ensures id in old(db.blogs) && old(db.blogs)[id].userId != caller ==>
      resp == Error(StatusUnauthorized, MsgUnauthorized) && unchanged(db)
    ensures id in old(db.blogs) && old(db.blogs)[id].userId == caller && body.None? ==>
      resp == Error(StatusBadRequest, MsgInvalidPayload) && unchanged(db)
    ensures id in old(db.blogs) && old(db.blogs)[id].userId == caller && body.Some? ==>
      var b := DecodeOver(old(db.blogs)[id], body.value).(id := id);
      if b.userId !in old(db.users) then
        resp == Error(StatusInternalServerError, MsgUpdateFailed) && unchanged(db)
      else
        && resp == Response(StatusOK, BlogJson(b))
        && db.blogs == old(db.blogs)[id := b]
        && db.users == old(db.users) && db.deletedBlogs == old(db.deletedBlogs)
        && db.nextBlogId == old(db.nextBlogId)
    ensures db.blogs != old(db.blogs) ==>
      && id in old(db.blogs) && old(db.blogs)[id].userId == caller
      && db.blogs.Keys == old(db.blogs).Keys
      && (forall k :: k in old(db.blogs) && k != id ==> db.blogs[k] == old(db.blogs)[k])
    ensures KeepsOthersBlogs(old(db.blogs), db.blogs, caller)
  {
    if id !in db.blogs {
      return Error(StatusNotFound, MsgBlogNotFound);
    }
    var blog := db.blogs[id];
    if blog.userId != caller {
      return Error(StatusUnauthorized, MsgUnauthorized);
    }
    if body.None? {
      return Error(StatusBadRequest, MsgInvalidPayload);
    }
    blog := DecodeOver(blog, body.value).(id := id);
    assert blog.id != 0;
    var saved := db.SaveBlog(blog);
    if saved.None? {
      return Error(StatusInternalServerError, MsgUpdateFailed);
    }
    resp := Response(StatusOK, BlogJson(saved.value));
  }

  /** `DeleteBlog`: the same two guards, then a soft delete of that one blog. */
  method DeleteBlog(db: Store.Db, caller: nat, id: nat) returns (resp: Response)
    requires db.Valid()
    modifies db
    ensures db.Valid()
    ensures id !in old(db.blogs) ==> resp == Error(StatusNotFound, MsgBlogNotFound) && unchanged(db)
    ensures id in old(db.blogs) && old(db.blogs)[id].userId != caller ==>
      resp == Error(StatusUnauthorized, MsgUnauthorized) && unchanged(db)
    ensures id in old(db.blogs) && old(db.blogs)[id].userId == caller ==>
      && resp == Response(StatusOK, Message(MsgDeleted))
      && id !in db.blogs
      && (forall other :: other != id ==> (other in db.blogs <==> other in old(db.blogs)))
      && (forall other :: other in db.blogs ==> db.blogs[other] == old(db.blogs)[other])
      && db.users == old(db.users)
    ensures KeepsOthersBlogs(old(db.blogs), db.blogs, caller)
  {
    if id !in db.blogs {
      return Error(StatusNotFound, MsgBlogNotFound);
    }
    var blog := db.blogs[id];
    if blog.userId != caller {
      return Error(StatusUnauthorized, MsgUnauthorized);
    }
    db.DeleteBlog(blog.id);
    resp := Response(StatusOK, Message(MsgDeleted));
  }

  /** `GetBlogById`: the stored blog, with no ownership check, or 404. */
  method GetBlogById(db: Store.Db, id: nat) returns (resp: Response)
    requires db.Valid()
    ensures id !in db.blogs ==> resp == Error(StatusNotFound, MsgBlogNotFound)
    ensures id in db.blogs ==> resp == Response(StatusOK, BlogJson(db.blogs[id])) && db.blogs[id].id == id
  {
    if id !in db.blogs {
      return Error(StatusNotFound, MsgBlogNotFound);
    }
    resp := Response(StatusOK, BlogJson(db.blogs[id]));
  }
}
