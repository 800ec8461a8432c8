/** The User record as the handlers read and write it, password hashing, and the
    store queries on users (`findOne({ email })`, `find().select('-password')`). */
module UserModel {
  import opened Http

  type UserId = nat

  /** A password hash. Salting and the work factor are not modelled: a digest is
      determined by the password, and two passwords never share one. */
  datatype Digest = Digest(secret: string)

  /** `bcrypt.hash(password, salt)`. */
  function Hash(password: string): Digest {
    Digest(password)
  }

  /** `bcrypt.compare(password, digest)`. */
  predicate Verify(password: string, d: Digest) {
    d == Hash(password)
  }

  /** A digest verifies exactly the password it was made from. */
  lemma VerifyHash(p: string, q: string)
    ensures Verify(p, Hash(q)) <==> p == q
  {
  }

  /** A stored user. `avatar` is "" when the user has none; `posts` is the
      denormalised count of the user's posts, kept by the post handlers. */
  datatype User = User(name: string, email: string, password: Digest, avatar: string, posts: int)

  /** A user document as returned with all its fields, password hash included. */
  datatype UserDoc = UserDoc(id: UserId, user: User)

  /** A user document with the password field excluded (`select('-password')`). */
  datatype PublicUser = PublicUser(id: UserId, name: string, email: string, avatar: string, posts: int)

  function Public(id: UserId, u: User): PublicUser {
    PublicUser(id, u.name, u.email, u.avatar, u.posts)
  }

  /** The public view carries nothing of the password: users that differ only in
      their password hash have the same view, and the view determines every other field. */
  lemma PublicHidesOnlyPassword(id: UserId, u: User, v: User)
    ensures Public(id, u) == Public(id, v) <==> u.(password := v.password) == v
  {
  }

  /** No two stored users share an email, compared as stored. */
  ghost predicate EmailsUnique(users: map<UserId, User>) {
    forall a, b :: a in users && b in users && users[a].email == users[b].email ==> a == b
  }

  /** `User.findOne({ email })` over the ids below `n`: the first user, in id order,
      whose stored email equals `email` exactly. */
  function FindByEmail(users: map<UserId, User>, n: nat, email: string): (r: Option<UserId>)
    ensures r.Some? ==> r.value < n && r.value in users && users[r.value].email == email
    ensures r.Some? ==> forall id :: id < r.value && id in users ==> users[id].email != email
    ensures r.None? <==> forall id :: id < n && id in users ==> users[id].email != email
    decreases n
  {
    if n == 0 then None
    else
      match FindByEmail(users, n - 1, email)
      case Some(id) => Some(id)
      case None => if n - 1 in users && users[n - 1].email == email then Some(n - 1) else None
  }

  /** `User.find().select('-password')` over the ids below `n`: every stored user
      exactly once, each without its password. */
  function Authors(users: map<UserId, User>, n: nat): (r: seq<PublicUser>)
    ensures forall a :: multiset(r)[a] == if a.id < n && a.id in users && a == Public(a.id, users[a.id]) then 1 else 0
    decreases n
  {
    if n == 0 then []
    else Authors(users, n - 1) + if n - 1 in users then [Public(n - 1, users[n - 1])] else []
  }
}
