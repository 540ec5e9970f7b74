# Blogsite in Dafny: auth policy, auth gate, token claims and ownership-checked CRUD

This project models the logic of the Blogsite HTTP API (a Go service over
PostgreSQL through GORM) and proves properties of it:

- the registration policy (`validateUsername`, `validatePassword`, the order of
  the checks in `Register`) and the login flow (`Login`), over a user table;
- the auth gate `AuthMiddleware`: four early-return checks, each a 401 with its
  own message, and otherwise a forward carrying the parsed user ID;
- token issuing and parsing (`GenerateJWT`, `ParseJWT`): the user ID written in
  decimal, the 72-hour expiry, one key for signing and verifying, and the round
  trip from `GenerateJWT` through the gate back to the same user ID;
- the blog handlers (create, list, read, update, delete) over a blog table, with
  the 404-then-401 ownership guards, and the user handlers (read, update);
- the routing fact that every `/api` route except register and login, including
  `/api/feed` and `/api/blog/{id}`, is behind the gate.

Files, one module each (one per source file where there is one):
`wrappers.dfy` (Option, Result, Outcome), `models.dfy` (records, decoded bodies,
responses), `ascii.dfy` (character classes), `decimal.dfy` (`strconv` base-10
format and parse), `token.dfy`, `middleware.dfy`, `store.dfy` (the two tables and
their constraints, as a class), `auth_handlers.dfy`, `blog_handlers.dfy`,
`user_handlers.dfy`, `routes.dfy`.

Modelling choices:

- A Go string is a byte string; a `string` here holds one `char` per byte, so
  `|s|` is Go's `len(s)`. All regular-expression classes in the validators are
  ASCII, and Go's regexp never matches a byte >= 0x80 against them, so testing
  bytes one at a time gives Go's answers.
- Foreign code is passed in as functions: `isValidEmail` for
  `mail.ParseAddress` succeeding, `hash` for `bcrypt.GenerateFromPassword`
  (`None` is its error), `passwordMatches` for `bcrypt.CompareHashAndPassword`,
  `sign` and `verify` for HS256 signing and `jwt.Parse` (the sense of section 3.2
  of RFC 7518, as RFC 7519 uses it), and `now` for `time.Now().Unix()`.
  `Token.SoundOracle` states what the proofs assume of the token oracle: a token
  signed under a key verifies under that key with its claims while
  `now <= exp`, and fails to verify afterwards.
- The database is `Store.Db`, a class whose `users` and `blogs` maps, set of
  soft-deleted blog keys and two key sequences are reassigned by the handlers'
  writes. `Valid()` holds the schema's constraints: primary keys are positive and
  match the record IDs, usernames and emails are unique (models/user.go:7-8),
  and every visible blog's owner is a user (the foreign key of models/user.go:10,
  created by the auto-migration). A write that would break one of them, or an
  insert under a key a row already holds, fails and changes no row; the
  handlers turn that failure into their 500 response.
- Keys follow GORM on PostgreSQL (config/database.go:32). `Create` of a record
  with a zero key takes the sequence's next value, and the sequence moves on
  even if the insert fails; a record with a non-zero key is inserted under it
  and the sequence stays, so the sequence can later hand out a taken key.
  `Save` of a blog with a zero key is a `Create`; with a non-zero key it
  overwrites that key's row, inserting it if no visible row has it and clearing
  a soft deletion. A soft delete moves the key from `blogs`, the rows queries
  can see, to `deletedBlogs`.
- A request body that does not decode is `None`. A decoded blog body is a
  `BlogInput` whose absent keys are `None` and leave the destination field as it
  was (`Models.DecodeOver`); `gorm.Model`'s `ID` has no json tag, so a body's
  `ID` key is one of those fields. Registration, login and profile bodies hold
  strings, "" for an absent key, as Go's zero value, and a registration's `ID`
  is 0 when absent.
- Where the repository's description and the code disagree the code is modelled:
  `/api/feed` and `/api/blog/{id}` are behind the gate (the description calls
  them public); `CreateBlog` answers 200, not 201; `Login` refuses only an empty
  password with 400, not an empty username; and the gate's 401 messages are
  distinct for each check.

## Model

| member | source | states |
|---|---|---|
| Ascii.ContainsAny | handlers/auth.go:93-104 | a one-class pattern such as `[A-Z]` matches exactly when some byte of the string is in the class |
| Ascii.MatchesOnly | handlers/auth.go:69 | `^[a-zA-Z0-9]+$` matches exactly when the string is non-empty and every byte is in the class |
| Decimal.FormatUint | utils/token.go:15 | the rendering is canonical (digits only, no leading zero except "0") and denotes the number |
| Decimal.ParseUint | middlewares/auth.go:39 | `ParseUint(s, 10, 64)` succeeds exactly for a non-empty all-digit string whose value is at most 2^64-1, and yields that value; the empty string, a sign, or any other byte fails |
| Decimal.ParseFormatRoundTrip | utils/token.go:15 | parsing the decimal rendering of any 64-bit ID gives the ID back |
| Decimal.FormatParseRoundTrip | middlewares/auth.go:39 | a canonical string that parses renders back to itself, so the canonical rendering is the unique one |
| Token.NewClaims | utils/token.go:14-17 | the `userID` claim is the canonical decimal rendering, which parses back to the ID, and `exp` is 72 × 3600 seconds after issue |
| Token.GenerateJwt | utils/token.go:13-20 | the token is the signature, under the one key, of the claims `NewClaims` builds (this clause repeats the body; what those claims are is stated by `Token.NewClaims`, and the round trip by `Token.IssuedTokenParses`) |
| Token.ParseJwt | utils/token.go:23-36 | a verification error is passed on with an empty user ID; a token verified valid gives its `userID` claim unchanged and no error; one that verifies without error but is not valid gives "" and no error; a non-empty user ID comes only from a valid token |
| Token.IssuedTokenParses | utils/token.go:13-36 | a token issued for a user, verified under the same key at any time up to 72 hours later, parses to the decimal rendering of that user's ID |
| Token.IssuedTokenExpires | utils/token.go:16 | after the 72 hours the issued token fails to parse |
| Middleware.CheckToken | middlewares/auth.go:32-44 | a token that fails to parse is rejected with "Invalid token"; otherwise the request is forwarded exactly when the claim is a base-10 `uint64`, with that value, and else rejected with "Invalid user ID in token" |
| Middleware.Authenticate | middlewares/auth.go:18-49 | an empty or absent header gives "Authorization header is required"; a header without the exact `Bearer ` prefix gives "Bearer token required"; otherwise the verdict is that of the token after the prefix; a forwarded ID fits 64 bits |
| Middleware.ForwardedExactly | middlewares/auth.go:20-48 | the request is forwarded as `u` if and only if the header has the prefix, the rest parses without error and its claim parses to `u` |
| Middleware.LowerCaseBearerRejected | middlewares/auth.go:26-30 | the prefix check is case-sensitive: `bearer ` is refused with "Bearer token required" |
| Middleware.BareBearerChecksEmptyToken | middlewares/auth.go:26-32 | a header of exactly `Bearer ` passes the prefix check and hands the empty token to verification |
| Middleware.PrefixStrippedOnce | middlewares/auth.go:26 | only one leading `Bearer ` is stripped |
| Middleware.UnmarkedTokenBadUserId | utils/token.go:31-35 | a token that parses without error but is not valid yields an empty claim, which the gate refuses as "Invalid user ID in token" |
| Middleware.IssuedTokenAuthenticates | middlewares/auth.go:26-48 | `Bearer ` plus a token `GenerateJWT` issued for a user passes all four checks within 72 hours and is forwarded with that user's ID |
| Middleware.ExpiredTokenRejected | middlewares/auth.go:32-37 | after 72 hours the same header is refused with "Invalid token" |
| Models.DecodeOver | handlers/blog.go:81 | the record keeps its ID exactly when the body has no `ID` key, and otherwise takes the body's |
| Models.DecodeEmptyKeepsRecord | handlers/blog.go:81 | a body with no keys leaves the record as it was |
| Models.DecodeIdempotent | handlers/blog.go:81 | decoding the same body a second time changes nothing more |
| Models.DecodeFullOverwrites | handlers/blog.go:81 | a body supplying every field, `ID` and `user_id` included, replaces the whole record by the supplied one |
| Store.Db.constructor | config/database.go:38 | the migrated tables start empty, with no soft-deleted rows, and satisfy the schema's constraints |
| Store.Db.InsertUser | handlers/auth.go:52 | the user goes under its own key, or under the sequence's next one when its key is zero (the sequence then moves on, whatever the outcome); the insert fails, changing no row, exactly when that key is taken or another user has the username or email; otherwise exactly that one row is added and blogs are untouched |
| Store.Db.SaveUser | handlers/user.go:49 | the save fails, changing nothing, exactly when another user has the new username or email; otherwise only that row is replaced |
| Store.Db.InsertBlog | handlers/blog.go:26 | the blog goes under its own key or the sequence's next one, as for users; the insert fails, changing no row, exactly when a visible or soft-deleted row holds that key or the owner is not a user; otherwise exactly that one row is added |
| Store.Db.SaveBlog | handlers/blog.go:86 | a zero key makes the save an insert as above; a non-zero key, whatever row holds it or whether any does, fails with nothing changed exactly when the owner is not a user, and otherwise makes that key's visible row the record, clearing a soft deletion |
| Store.Db.DeleteBlog | handlers/blog.go:114 | the soft delete moves exactly that key from the visible blogs to the soft-deleted ones and changes nothing else |
| Store.Db.FindBlogs | handlers/blog.go:42 | the query returns every visible blog the filter selects and only those, each exactly once |
| Store.Db.FirstUserByName | handlers/auth.go:122 | the lookup misses exactly when no user has the username, and otherwise returns the stored user with that username |
| Store.UsernameNamesOneUser | models/user.go:7 | under the unique index two users with the same username are the same user |
| AuthHandlers.ValidateUsername | handlers/auth.go:64-74 | accepts exactly the strings of at least 6 bytes made only of ASCII letters and digits; a shorter string gets the length message whatever its bytes, a long enough one with another byte gets the alphanumeric message |
| AuthHandlers.ValidatePassword | handlers/auth.go:81-106 | accepts exactly the passwords of at least 8 bytes with an upper-case letter, a lower-case letter, a digit and one of `!@#~$%^&*()+|_`; otherwise reports the first failing rule in the order length, upper, lower, digit, special |
| AuthHandlers.WeakPasswordTooShort | handlers/authRegister_test.go:60-69 | the password `weak` gets the length message |
| AuthHandlers.RegistrationError | handlers/auth.go:25-41 | no error exactly when username, email and password are all acceptable; otherwise the username's message if it fails, else the email message, else the password's message |
| AuthHandlers.Register | handlers/auth.go:16-62 | an undecodable body, a failed check (400 with the first failing rule's message) or a hashing error leave the store unchanged; otherwise the user is stored with the hash in place of the password, under the body's `ID` or else the sequence's next key, and the answer is 201, unless that key, the username or the email is taken (500, users unchanged); the users table changes exactly when the answer is 201, and blogs never |
| AuthHandlers.Login | handlers/auth.go:108-140 | an undecodable body or empty password is a 400 before any lookup; for a non-empty password the answer is the one 401 "Invalid credentials" exactly when no user with that username has a matching password, so an unknown user and a wrong password look the same; a 200 carries the token `GenerateJWT` signed for the matched user's ID |
| BlogHandlers.NewBlog | handlers/blog.go:19-24 | the record to be created is owned by the caller whatever `user_id` the body held, and has the body's `ID`, or 0 |
| BlogHandlers.CreateBlog | handlers/blog.go:15-34 | an undecodable body is a 400 with the table unchanged; otherwise the blog is stored with the body's fields over zero values and its owner set to the caller, under the body's `ID` or the sequence's next key, and a 500 with no row changed when that key is taken; no other user's blog changes |
| BlogHandlers.GetUserBlogs | handlers/blog.go:37-49 | the answer lists exactly the visible blogs owned by the caller, each once |
| BlogHandlers.GetAllBlogs | handlers/blog.go:51-60 | the answer lists every visible blog, each once |
| BlogHandlers.UpdateBlog | handlers/blog.go:63-93 | as written: an absent ID is a 404 and another owner's blog a 401, both decided before the body is read and with no write; otherwise the body is decoded over the stored record (omitted fields kept, `user_id` and `ID` may be replaced) and saved under the key the decoded record holds, which need not be the path's: that row is written, or a new one created for a zero `ID` |
| BlogHandlers.BodyIdRedirectsUpdate | handlers/blog.go:76-86 | the owner of one blog who sends a body with another user's blog's `ID` gets a 200, leaves their own blog as it was, and overwrites the other blog, which now belongs to them |
| BlogHandlers.UpdateOwnBlog | handlers/blog.go:63-93 | corrected update: the same 404, 401 and 400; otherwise only the path's row changes, to the decoded body with the path's key kept, or a 500 with nothing changed when the new owner is not a user; no other user's blog changes and no row appears or disappears |
| BlogHandlers.DeleteBlog | handlers/blog.go:96-123 | the same 404 and 401 guards with no write; for the owner only that ID leaves the visible blogs, every other blog is unchanged, and a later lookup of it misses |
| BlogHandlers.GetBlogById | handlers/blog.go:125-137 | an absent ID is a 404; otherwise the stored record, with no ownership check |
| UserHandlers.GetUser | handlers/user.go:13-23 | an absent ID is a 404; otherwise the user with `Blogs` equal to the visible blogs it owns, each once |
| UserHandlers.UpdateUser | handlers/user.go:25-58 | an absent ID is a 404 before the body is read, an undecodable body a 400, both unchanged; otherwise exactly the username and email are replaced (omitted keys become "") with the password kept, with no ownership or policy check, unless the unique indexes refuse the save (500, unchanged) |
| Routes.ServeApi | routes/routes.go:16-26 | on every `/api` subroute, `/api/feed` and `/api/blog/{id}` included, a gate rejection is a 401 with the gate's message and nothing changes; on a forward the identity is the gate's user, blogs change only through that user's create or through an update or delete of a blog that user owned, no other user's blog changes, users change only through the user update, the read routes change nothing and answer with the stored blog or 404, the listed blogs, or the stored user or 404, the create answers as `CreateBlog` does for the gate's user, and update and delete give the 404 and 401 guards against the gate's user with nothing changed |
| Routes.RegisterThenLogin | handlers/auth.go:44-61 | a user who registers with acceptable details under a free key can log in with the same password and receives the token signed for that key |
| Routes.PostThenRead | handlers/blog.go:24-33 | with that token, both requests pass the gate; when the key the blog goes under is free, the create succeeds, and reading it back by ID through `/api/blog/{id}` gives the created record, with the title, description and completion flag that were sent, owned by the token's user |

## Findings

| source | as written | input that shows it | evidently intended | confidence | as-written member | corrected member |
|---|---|---|---|---|---|---|
| handlers/blog.go:76-86 | the ownership check at line 76 looks at the path's blog, but the body decoded at line 81 can set `ID`, and `Save` at line 86 writes the row with that key | the owner of blog 5 sends `PUT /api/user/blog/5` with `{"ID": 6, "title": "x"}`, where blog 6 belongs to another user: blog 6 is overwritten with blog 5's fields and the new title and now belongs to the caller (an `ID` of 0 instead creates a new blog) | only the blog at the path, which the caller owns, is written | high; not executed | BlogHandlers.BodyIdRedirectsUpdate | BlogHandlers.UpdateOwnBlog |

## Left out

- Database failures other than the schema's constraints (lost connection, timeouts): the model's writes fail only on a unique-index or foreign-key violation, and its queries do not fail, so the 500 answers of `GetUserBlogs`, `GetAllBlogs` and `DeleteBlog` are not modelled.
- IDs are unbounded naturals; the range of PostgreSQL's `bigint`, 64-bit ID overflow and a body `ID` out of range are not modelled, and the gate's `uint(userID)` is taken to be a 64-bit conversion.
- The timestamps of `gorm.Model` and the contents of soft-deleted rows (only the keys they still hold are modelled); a body's `CreatedAt`, `UpdatedAt` or `DeletedAt` key, which `Save` would also write, is not modelled.
- JSON details: a body is either undecodable or gives the fields the handler reads and its `ID`; a nested `blogs` list in a registration body (which GORM would also insert) is not modelled, nor is the spelling of keys (Go matches them without regard to case).
- Path IDs are modelled as numbers. The handlers hand the raw path text to `First` (handlers/blog.go:71, 104 and 130; handlers/user.go:17 and 30), and GORM takes non-numeric text as an inline SQL condition, so that `/api/blog/1=1` reads the first blog; that text-as-condition lookup is not modelled.
- The type-assertion panics on the context value (handlers/blog.go:16) and on a non-string `userID` claim (utils/token.go:32).
- bcrypt, `mail.ParseAddress`, HMAC signing and verification, and the clock are parameters, not models; so is the randomness of the bcrypt salt.
- Register: its contract says that a failed check leaves the store unchanged; that bcrypt is not even called then is visible in the method body but not stated, because the hash is a pure parameter.
- Routes.ServeApi: dispatches `PUT /api/user/blog/{id}` to the corrected `UpdateOwnBlog`, not to `UpdateBlog` as written (see "## Findings"); on the update-user and the update and delete routes it states the guards, which rows may change and whose blogs stay, and leaves the remaining detail of the answer to the handler methods' contracts.
- `/api/register` and `/api/login` are dispatched before the subrouter and go straight to `Register` and `Login`; the mux matching itself (and its 404 and 405 answers) is not modelled.
- Logging, response headers and the trailing newline `http.Error` appends to a message.
- The race between the ownership check and the write in update and delete: the model runs each request alone.
