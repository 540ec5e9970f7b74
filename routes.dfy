/**
 * The routing table (routes/routes.go). `/api/register` and `/api/login` are
 * registered first and reach their handlers directly; every other route is on
 * the `/api` subrouter, which runs the auth gate before the handler. That
 * includes `/api/feed` and `/api/blog/{id}`: no blog read is public.
 */
module Routes {
  import opened Wrappers
  import opened Models
  import opened Http
  import Store
  import Token
  import Middleware
  import AuthHandlers
  import BlogHandlers
  import UserHandlers

  /** A request to one of the gated routes, with its path ID and decoded body. */
  datatype ApiRequest =
    | CreateBlogRequest(blogBody: Option<BlogInput>)              // POST   /api/user/blog
    | FeedRequest                                                 // GET    /api/feed
    | UserBlogsRequest                                            // GET    /api/user/blogs
    | BlogRequest(id: nat)                                        // GET    /api/blog/{id}
    | UserRequest(id: nat)                                        // GET    /api/user/{id}
    | UpdateUserRequest(id: nat, profile: Option<Profile>)        // PUT    /api/user/{id}
    | UpdateBlogRequest(id: nat, blogBody: Option<BlogInput>)     // PUT    /api/user/blog/{id}
    | DeleteBlogRequest(id: nat)                                  // DELETE /api/user/blog/{id}

  /**
   * A request on the `/api` subrouter: the gate first; on a rejection the handler
   * never runs and nothing changes; on a forward the handler runs once, as the
   * user the gate parsed (`identity`). `PUT /api/user/blog/{id}` goes to
   * `UpdateOwnBlog`, the update with the path's key pinned.
   */
  method ServeApi(db: Store.Db, authValues: seq<string>, req: ApiRequest, verify: Token.Verifier, now: int)
    returns (resp: Response, identity: Option<nat>)
    requires db.Valid()
    modifies db
    ensures db.Valid()
    ensures var d := Middleware.Authenticate(authValues, verify, now);
      d.Reject? ==> resp == Error(StatusUnauthorized, d.message) && identity.None? && unchanged(db)
    ensures var d := Middleware.Authenticate(authValues, verify, now);
      d.Forward? ==> identity == Some(d.userId) && BlogHandlers.KeepsOthersBlogs(old(db.blogs), db.blogs, d.userId)
    // Only the forwarded user's own requests change the blogs: a create, or an
    // update or delete of a blog that user owned.
    ensures var d := Middleware.Authenticate(authValues, verify, now);
      db.blogs != old(db.blogs) ==>
        && d.Forward?
        && (|| req.CreateBlogRequest?
            || ((req.UpdateBlogRequest? || req.DeleteBlogRequest?) &&
                req.id in old(db.blogs) && old(db.blogs)[req.id].userId == d.userId))
    ensures var d := Middleware.Authenticate(authValues, verify, now);
      db.users != old(db.users) ==> d.Forward? && req.UpdateUserRequest? && db.users.Keys == old(db.users).Keys
    // The read routes change nothing and answer as their handlers do.
    ensures req.FeedRequest? || req.UserBlogsRequest? || req.BlogRequest? || req.UserRequest? ==> unchanged(db)
    ensures var d := Middleware.Authenticate(authValues, verify, now);
      d.Forward? && req.BlogRequest? ==>
        resp == if req.id in db.blogs then Response(StatusOK, BlogJson(db.blogs[req.id]))
                else Error(StatusNotFound, BlogHandlers.MsgBlogNotFound)
    ensures var d := Middleware.Authenticate(authValues, verify, now);
      d.Forward? && (req.FeedRequest? || req.UserBlogsRequest?) ==>
        && resp.status == StatusOK && resp.body.BlogsJson?
        && (forall b :: b in resp.body.blogs <==>
              b.id in db.blogs && db.blogs[b.id] == b && (req.UserBlogsRequest? ==> b.userId == d.userId))
    ensures var d := Middleware.Authenticate(authValues, verify, now);
      d.Forward? && req.UserRequest? ==>
        if req.id in db.users then resp.status == StatusOK && resp.body.UserJson? && resp.body.user == db.users[req.id]
        else resp == Error(StatusNotFound, UserHandlers.MsgUserNotFound)
    // The write routes: the create, and the guards of update and delete.
    ensures var d := Middleware.Authenticate(authValues, verify, now);
      d.Forward? && req.CreateBlogRequest? && req.blogBody.Some? ==>
        var b := BlogHandlers.NewBlog(req.blogBody.value, d.userId);
        var key := old(db.BlogKey(b));
        if old(db.BlogKeyTaken(key)) || d.userId !in old(db.users) then
          resp == Error(StatusInternalServerError, BlogHandlers.MsgCreateFailed) && db.blogs == old(db.blogs)
        else
          resp == Response(StatusOK, BlogJson(b.(id := key))) && db.blogs == old(db.blogs)[key := b.(id := key)]
    ensures var d := Middleware.Authenticate(authValues, verify, now);
      d.Forward? && (req.UpdateBlogRequest? || req.DeleteBlogRequest?) ==>
        && (req.id !in old(db.blogs) ==> resp == Error(StatusNotFound, BlogHandlers.MsgBlogNotFound) && unchanged(db))
        && (req.id in old(db.blogs) && old(db.blogs)[req.id].userId != d.userId ==>
              resp == Error(StatusUnauthorized, BlogHandlers.MsgUnauthorized) && unchanged(db))
  {
    var decision := Middleware.Authenticate(authValues, verify, now);
    if decision.Reject? {
      return Error(StatusUnauthorized, decision.message), None;
    }
    var caller := decision.userId;
    identity := Some(caller);
    match req {
      case CreateBlogRequest(body) => resp := BlogHandlers.CreateBlog(db, caller, body);
      case FeedRequest => resp := BlogHandlers.GetAllBlogs(db);
      case UserBlogsRequest => resp := BlogHandlers.GetUserBlogs(db, caller);
      case BlogRequest(id) => resp := BlogHandlers.GetBlogById(db, id);
      case UserRequest(id) => resp := UserHandlers.GetUser(db, id);
      case UpdateUserRequest(id, body) => resp := UserHandlers.UpdateUser(db, id, body);
      case UpdateBlogRequest(id, body) => resp := BlogHandlers.UpdateOwnBlog(db, caller, id, body);
      case DeleteBlogRequest(id) => resp := BlogHandlers.DeleteBlog(db, caller, id);
    }
  }

  /**
   * A client of the contracts above, first half: a user who registers can log in,
   * and the token is the one `GenerateJWT` signs for the new user's key. The oracles
   * are assumed to behave: bcrypt accepts the password against its own hash and
   * signing does not fail; the key the user is created under must be free.
   */
  method RegisterThenLogin(db: Store.Db, reg: Registration,
                           isValidEmail: string -> bool, hash: string -> Option<string>,
                           passwordMatches: (string, string) -> bool, sign: Token.Signer, now: int)
    returns (registered: Response, loggedIn: Response)
    requires db.Valid()
    requires AuthHandlers.RegistrationError(reg, isValidEmail).None?
    requires hash(reg.password).Some? && passwordMatches(hash(reg.password).value, reg.password)
    requires forall id :: id in db.users ==> db.users[id].username != reg.username && db.users[id].email != reg.email
    requires (if reg.id == 0 then db.nextUserId else reg.id) !in db.users
    requires forall key, c :: sign(key, c).Success?
    modifies db
    ensures db.Valid()
    ensures registered == Response(StatusCreated, Message(AuthHandlers.MsgRegistered))
    ensures var key := if reg.id == 0 then old(db.nextUserId) else reg.id;
      && key in db.users && db.blogs == old(db.blogs)
      && loggedIn.status == StatusOK && loggedIn.body.TokenJson?
      && Token.GenerateJwt(key, now, sign) == Success(loggedIn.body.token)
  {
    var newId := if reg.id == 0 then db.nextUserId else reg.id;
    registered := AuthHandlers.Register(db, Some(reg), isValidEmail, hash);
    assert !Store.Collides(old(db.users), User(newId, reg.username, reg.email, hash(reg.password).value));
    assert db.users[newId] == User(newId, reg.username, reg.email, hash(reg.password).value);

    loggedIn := AuthHandlers.Login(db, Some(Credentials(reg.username, reg.password)), passwordMatches, sign, now);
    assert reg.password != "" by {
      assert AuthHandlers.StrongPassword(reg.password);
    }
    var matching := db.users[newId];
    assert matching.username == reg.username && passwordMatches(matching.password, reg.password);
    assert !(forall id :: id in db.users && db.users[id].username == reg.username ==>
               !passwordMatches(db.users[id].password, reg.password));
    assert loggedIn.status != StatusUnauthorized;
    assert loggedIn.status != StatusInternalServerError;
    assert loggedIn.status == StatusOK;
    var id :| id in db.users && db.users[id].username == reg.username
      && Token.GenerateJwt(id, now, sign) == Success(loggedIn.body.token);
    Store.UsernameNamesOneUser(db.users, id, newId);
  }

  /**
   * Second half: with that token sent as `Bearer <token>` before it expires, both
   * requests pass the gate as the token's user; when the key the blog is created
   * under is free, the create succeeds, and reading the blog back by ID through
   * the gated `/api/blog/{id}` gives the fields that were sent, owned by that user.
   */
  method PostThenRead(db: Store.Db, userId: nat, token: string, post: BlogInput,
                      sign: Token.Signer, verify: Token.Verifier, issued: int, now: int)
    returns (created: Response, fetched: Response)
    requires db.Valid() && userId in db.users && userId <= MaxUint64
    requires Token.SoundOracle(sign, verify)
    requires Token.GenerateJwt(userId, issued, sign) == Success(token)
    requires now <= issued + Token.TokenLifetime
    requires !db.BlogKeyTaken(db.BlogKey(BlogHandlers.NewBlog(post, userId)))
    modifies db
    ensures db.Valid()
    ensures created.status == StatusOK && created.body.BlogJson?
    ensures created.status == StatusOK && fetched.status == StatusOK && fetched.body.BlogJson?
    ensures fetched.body.blog == created.body.blog
    ensures fetched.body.blog.title == post.title.GetOr("")
    ensures fetched.body.blog.description == post.description.GetOr("")
    ensures fetched.body.blog.completed == post.completed.GetOr(false)
    ensures fetched.body.blog.userId == userId
  {
    Middleware.IssuedTokenAuthenticates(userId, issued, now, sign, verify, token);
    var header := [Middleware.BearerPrefix + token];
    var who;
    created, who := ServeApi(db, header, CreateBlogRequest(Some(post)), verify, now);
    fetched, who := ServeApi(db, header, BlogRequest(created.body.blog.id), verify, now);
  }
}
