/**
 * The persisted records (models/user.go, models/task.go), the decoded request
 * bodies the handlers read, and the HTTP responses they write.
 *
 * `gorm.Model` contributes the numeric primary key `id`; its timestamps are not
 * modelled. The key has no json tag, so a body's `ID` key (matched without regard
 * to case) decodes into it like any other field. Soft deletion is kept by the
 * store as a set of hidden keys, so no `DeletedAt` field is needed.
 */
module Models {
  import opened Wrappers

  /** The largest value of Go's `uint64` (and of `uint` on a 64-bit platform). */
  const MaxUint64: nat := 0xFFFF_FFFF_FFFF_FFFF

  /** A row of the `users` table. `Blogs` is an association, computed on load. */
  datatype User = User(id: nat, username: string, email: string, password: string)

  /** A row of the `blogs` table; `userId` is the owner's `users.id`. */
  datatype Blog = Blog(id: nat, title: string, description: string, completed: bool, userId: nat)

  /** The login body (`models.Credentials`); a key the client omits decodes to "". */
  datatype Credentials = Credentials(username: string, password: string)

  /**
   * The registration body decoded into a `models.User`; omitted keys decode to ""
   * and an omitted `ID` to 0, the zero key that lets the database pick one.
   */
  datatype Registration = Registration(id: nat, username: string, email: string, password: string)

  /**
   * A blog body as JSON decoding sees it: `None` for a key that is absent (or null),
   * which leaves the destination field as it was.
   */
  datatype BlogInput = BlogInput(
    id: Option<nat>,
    title: Option<string>,
    description: Option<string>,
    completed: Option<bool>,
    userId: Option<nat>)

  /** The body of a user update; omitted keys decode to "". */
  datatype Profile = Profile(username: string, email: string)

  /** The blog a handler starts from before decoding: Go's zero value. */
  const ZeroBlog := Blog(0, "", "", false, 0)

  /**
   * `json.Decoder.Decode` into an existing `Blog`: the keys present overwrite the
   * matching fields, the primary key included; everything else keeps its value.
   */
  function DecodeOver(b: Blog, input: BlogInput): (r: Blog)
    ensures input.id.None? ==> r.id == b.id
    ensures input.id.Some? ==> r.id == input.id.value
  {
    Blog(input.id.GetOr(b.id),
         input.title.GetOr(b.title),
         input.description.GetOr(b.description),
         input.completed.GetOr(b.completed),
         input.userId.GetOr(b.userId))
  }

  /** Decoding a body with no keys changes nothing. */
  lemma DecodeEmptyKeepsRecord(b: Blog)
    ensures DecodeOver(b, BlogInput(None, None, None, None, None)) == b
  {
  }

  /** Decoding the same body twice gives what decoding it once gave. */
  lemma DecodeIdempotent(b: Blog, input: BlogInput)
    ensures DecodeOver(DecodeOver(b, input), input) == DecodeOver(b, input)
  {
  }

  /** Decoding is last-writer-wins: decoding a record's own fields over any record yields it. */
  lemma DecodeFullOverwrites(b: Blog, c: Blog)
    ensures DecodeOver(b, BlogInput(Some(c.id), Some(c.title), Some(c.description), Some(c.completed), Some(c.userId))) == c
  {
  }
}

/** HTTP status codes and the responses the handlers write. */
module Http {
  import opened Models

  const StatusOK: nat := 200
  const StatusCreated: nat := 201
  const StatusBadRequest: nat := 400
  const StatusUnauthorized: nat := 401
  const StatusNotFound: nat := 404
  const StatusInternalServerError: nat := 500

  /** What a handler writes: a message, or one of the JSON encodings it sends. */
  datatype Body =
    | Message(text: string)
    | BlogJson(blog: Blog)
    | BlogsJson(blogs: seq<Blog>)
    | UserJson(user: User, blogs: seq<Blog>)
    | TokenJson(token: string)

  datatype Response = Response(status: nat, body: Body)

  /** `http.Error(w, msg, status)`. */
  function Error(status: nat, msg: string): Response {
    Response(status, Message(msg))
  }

  const MsgInvalidPayload := "Invalid request payload"
}
