/**
 * The two tables the handlers share, with the constraints the schema declares:
 * unique usernames and emails (models/user.go:7-8) and the foreign key from
 * `blogs.user_id` to `users.id` (models/user.go:10). Each method stands for one
 * GORM call on PostgreSQL (config/database.go:32). A write that would break a
 * constraint, or an insert under a key the table already holds, fails and
 * changes no row.
 *
 * Keys: `Create` of a record whose key is zero leaves the key to the table's
 * sequence, which hands out `next...Id` and moves on even when the insert then
 * fails; a record with a non-zero key is inserted under that key and the
 * sequence does not move. So the sequence may later hand out a key that an
 * explicit insert already took, and that insert fails.
 *
 * Soft deletion: `blogs` holds the rows queries can see; `deletedBlogs` holds
 * the keys of soft-deleted rows, which still occupy their key.
 */
module Store {
  import opened Wrappers
  import opened Models

  /** Some other user already has `u`'s username or email. */
  predicate Collides(users: map<nat, User>, u: User) {
    exists id :: id in users && id != u.id &&
      (users[id].username == u.username || users[id].email == u.email)
  }

  ghost predicate UniqueAccounts(users: map<nat, User>) {
    forall a, b :: a in users && b in users && a != b ==>
      users[a].username != users[b].username && users[a].email != users[b].email
  }

  /** A blog passes the query filter: every blog, or only those of one owner. */
  predicate Selected(b: Blog, owner: Option<nat>) {
    owner.None? || b.userId == owner.value
  }

  class Db {
    var users: map<nat, User>
    var blogs: map<nat, Blog>
    var deletedBlogs: set<nat>
    var nextUserId: nat
    var nextBlogId: nat

    ghost predicate Valid()
      reads this
    {
      && 0 < nextUserId && 0 < nextBlogId
      && (forall id :: id in users ==> users[id].id == id && 0 < id)
      && (forall id :: id in blogs ==> blogs[id].id == id && 0 < id)
      && (forall id :: id in deletedBlogs ==> 0 < id && id !in blogs)
      && (forall id :: id in blogs ==> blogs[id].userId in users)
      && UniqueAccounts(users)
    }

    /** The key `Create` inserts a user under: its own, or the sequence's next one. */
    function UserKey(u: User): nat
      reads this
    {
      if u.id == 0 then nextUserId else u.id
    }

    /** The key `Create` inserts a blog under: its own, or the sequence's next one. */
    function BlogKey(b: Blog): nat
      reads this
    {
      if b.id == 0 then nextBlogId else b.id
    }

    /** A blog row, visible or soft-deleted, already occupies the key. */
    predicate BlogKeyTaken(k: nat)
      reads this
    {
      k in blogs || k in deletedBlogs
    }

    /** Empty tables; both sequences start at 1. */
    constructor ()
      ensures Valid() && users == map[] && blogs == map[] && deletedBlogs == {}
    {
      users, blogs, deletedBlogs := map[], map[], {};
      nextUserId, nextBlogId := 1, 1;
    }

    /**
     * `DB.Create(&user)`: insert under `UserKey(u)`, unless a user already has
     * that key, or another user has the username or email.
     */
    method InsertUser(u: User) returns (r: Option<User>)
      requires Valid()
      modifies this
      ensures Valid()
      ensures nextUserId == old(nextUserId) + (if u.id == 0 then 1 else 0)
      ensures nextBlogId == old(nextBlogId) && blogs == old(blogs) && deletedBlogs == old(deletedBlogs)
      ensures r.None? <==>
        old(UserKey(u)) in old(users) || Collides(old(users), u.(id := old(UserKey(u))))
      ensures r.None? ==> users == old(users)
      ensures r.Some? ==>
        && r.value == u.(id := old(UserKey(u)))
        && r.value.id !in old(users)
        && users == old(users)[r.value.id := r.value]
    {
      var created := u.(id := UserKey(u));
      if u.id == 0 {
        nextUserId := nextUserId + 1;
      }
      if created.id in users || Collides(users, created) {
        return None;
      }
      users := users[created.id := created];
      r := Some(created);
    }

    /** `DB.Save(&user)` of a loaded user: overwrite the row unless another user has the username or email. */
    method SaveUser(u: User) returns (ok: bool)
      requires Valid() && u.id in users
      modifies this
      ensures Valid()
      ensures ok <==> !Collides(old(users), u)
      ensures !ok ==> unchanged(this)
      ensures ok ==> users == old(users)[u.id := u] && blogs == old(blogs) && deletedBlogs == old(deletedBlogs)
      ensures nextUserId == old(nextUserId) && nextBlogId == old(nextBlogId)
    {
      if Collides(users, u) {
        return false;
      }
      users := users[u.id := u];
      ok := true;
    }

    /**
     * `DB.Create(&blog)`: insert under `BlogKey(b)`, unless a row, visible or
     * soft-deleted, already has that key, or the owner is not a user.
     */
    method InsertBlog(b: Blog) returns (r: Option<Blog>)
      requires Valid()
      modifies this
      ensures Valid()
      ensures nextBlogId == old(nextBlogId) + (if b.id == 0 then 1 else 0)
      ensures nextUserId == old(nextUserId) && users == old(users) && deletedBlogs == old(deletedBlogs)
      ensures r.None? <==> old(BlogKeyTaken(BlogKey(b))) || b.userId !in old(users)
      ensures r.None? ==> blogs == old(blogs)
      ensures r.Some? ==>
        && r.value == b.(id := old(BlogKey(b)))
        && r.value.id !in old(blogs)
        && blogs == old(blogs)[r.value.id := r.value]
    {
      var created := b.(id := BlogKey(b));
      if b.id == 0 {
        nextBlogId := nextBlogId + 1;
      }
      if created.id in blogs || created.id in deletedBlogs || b.userId !in users {
        return None;
      }
      blogs := blogs[created.id := created];
      r := Some(created);
    }

    /**
     * `DB.Save(&blog)`. A zero key makes it a `Create`. Otherwise it updates every
     * column of the visible row with that key; when no visible row has it, GORM
     * inserts the record under that key, and on a clash with a soft-deleted row
     * overwrites that row, clearing its deletion. Either way the foreign key must hold.
     */
    method SaveBlog(b: Blog) returns (r: Option<Blog>)
      requires Valid()
      modifies this
      ensures Valid()
      ensures nextBlogId == old(nextBlogId) + (if b.id == 0 then 1 else 0)
      ensures nextUserId == old(nextUserId) && users == old(users)
      ensures r.None? <==> (b.id == 0 && old(BlogKeyTaken(BlogKey(b)))) || b.userId !in old(users)
      ensures r.None? ==> blogs == old(blogs) && deletedBlogs == old(deletedBlogs)
      ensures r.None? && b.id != 0 ==> unchanged(this)
      ensures r.Some? ==>
        && r.value == b.(id := old(BlogKey(b)))
        && blogs == old(blogs)[r.value.id := r.value]
        && deletedBlogs == old(deletedBlogs) - {r.value.id}
    {
      if b.id == 0 {
        r := InsertBlog(b);
        return;
      }
      if b.userId !in users {
        return None;
      }
      blogs := blogs[b.id := b];
      deletedBlogs := deletedBlogs - {b.id};
      r := Some(b);
    }

    /** `DB.Delete(&blog)`, a soft delete: the row leaves the visible table but keeps its key. */
    method DeleteBlog(id: nat)
      requires Valid() && id in blogs
      modifies this
      ensures Valid()
      ensures blogs == old(blogs) - {id} && deletedBlogs == old(deletedBlogs) + {id}
      ensures users == old(users) && nextUserId == old(nextUserId) && nextBlogId == old(nextBlogId)
    {
      blogs := blogs - {id};
      deletedBlogs := deletedBlogs + {id};
    }

    /**
     * `DB.Find(&blogs)`, or `DB.Where("user_id = ?", owner).Find(&blogs)`: every
     * visible blog the filter selects, each once, in no particular order.
     */
    method FindBlogs(owner: Option<nat>) returns (r: seq<Blog>)
      requires Valid()
      ensures forall b :: b in r <==> b.id in blogs && blogs[b.id] == b && Selected(b, owner)
      ensures forall i, j :: 0 <= i < j < |r| ==> r[i].id != r[j].id
    {
      r := [];
      var rest := blogs.Keys;
      while rest != {}
        invariant rest <= blogs.Keys
        invariant forall b :: b in r <==> b.id in blogs && b.id !in rest && blogs[b.id] == b && Selected(b, owner)
        invariant forall i, j :: 0 <= i < j < |r| ==> r[i].id != r[j].id
        decreases rest
      {
        var id :| id in rest;
        if Selected(blogs[id], owner) {
          r := r + [blogs[id]];
        }
        rest := rest - {id};
      }
    }

    /** `DB.Where("username = ?", name).First(&user)`: the user with that username, if any. */
    method FirstUserByName(name: string) returns (r: Option<User>)
      requires Valid()
      ensures r.None? <==> forall id :: id in users ==> users[id].username != name
      ensures r.Some? ==> r.value.id in users && users[r.value.id] == r.value && r.value.username == name
    {
      if id :| id in users && users[id].username == name {
        r := Some(users[id]);
      } else {
        r := None;
      }
    }
  }

  /** Usernames are unique, so a username names at most one user. */
  lemma UsernameNamesOneUser(users: map<nat, User>, a: nat, b: nat)
    requires UniqueAccounts(users)
    requires a in users && b in users && users[a].username == users[b].username
    ensures a == b
  {
  }
}
