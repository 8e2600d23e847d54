/** The state behind the user service: the `users` collection as a map
    from ObjectId to record, the `favorites` collection as a set of rows,
    and the foreign libraries the service calls (`validator.isEmail`,
    `ObjectId.isValid` with `new ObjectId`, `bcrypt.hash`/`bcrypt.compare`)
    as an oracle record. */
module UserModel {
  import opened Results
  import opened JsStrings

  /** A MongoDB ObjectId, in its canonical form. */
  type Oid = string

  /** `bcrypt.hash(password, saltRounds)` cost factor. */
  const SaltRounds: nat := 12
  const MinPasswordLength: nat := 6

  const MsgFieldsRequired: string := "Email, password, and name are required"
  const MsgInvalidEmail: string := "Invalid email format"
  const MsgPasswordTooShort: string := "Password must be at least 6 characters long"
  const MsgEmailExists: string := "User with this email already exists"
  const MsgCredentialsRequired: string := "Email and password are required"
  const MsgInvalidCredentials: string := "Invalid email or password"
  const MsgInvalidUserId: string := "Invalid user ID"
  const MsgInvalidQuoteId: string := "Invalid quote ID"
  const MsgUserNotFound: string := "User not found"
  const MsgEmailTaken: string := "Email is already taken"
  const MsgUserUpdated: string := "User updated successfully"
  const MsgUserDeleted: string := "User deleted successfully"
  const MsgAlreadyFavorite: string := "Quote is already in favorites"
  const MsgFavoriteAdded: string := "Quote added to favorites"
  const MsgFavoriteNotFound: string := "Quote not found in favorites"
  const MsgFavoriteRemoved: string := "Quote removed from favorites"

  /** A stored user document (its `_id` is the map key). */
  datatype User = User(email: string, passwordHash: string, name: string, createdAt: nat, updatedAt: nat)

  /** A user as returned to callers: the document with `_id` and without `password`. */
  datatype UserView = UserView(id: Oid, email: string, name: string, createdAt: nat, updatedAt: nat)

  /** A row of the `favorites` collection. */
  datatype Favorite = Favorite(userId: Oid, quoteId: Oid, addedAt: nat)

  datatype State = State(users: map<Oid, User>, favorites: set<Favorite>)

  /** A state transition: the state afterwards and what the call returned or threw. */
  datatype Step<+T> = Step(state: State, result: Result<T>)

  /** The foreign libraries: email syntax, ObjectId validity and conversion
      (`None` for a string `ObjectId.isValid` rejects), salted hashing with a
      cost factor and salt, and hash comparison. */
  datatype Oracles = Oracles(
    isEmail: string -> bool,
    parseId: string -> Option<Oid>,
    hash: (string, nat, string) -> string,
    compare: (string, string) -> bool)

  /** The one property assumed of the hasher: a password matches any hash made from it. */
  ghost predicate HashSound(o: Oracles) {
    forall p: string, salt: string :: o.compare(p, o.hash(p, SaltRounds, salt))
  }

  /** `const { password, ...rest } = user`, with the id attached. */
  function View(id: Oid, u: User): UserView {
    UserView(id, u.email, u.name, u.createdAt, u.updatedAt)
  }

  /** `findOne({email})` finds something. */
  predicate EmailTaken(users: map<Oid, User>, email: string) {
    exists id :: id in users && users[id].email == email
  }

  /** `findOne({email, _id: {$ne: self}})` finds something. */
  predicate EmailTakenByOther(users: map<Oid, User>, email: string, self: Oid) {
    exists id :: id in users && id != self && users[id].email == email
  }

  /** The favorites of one user. */
  function FavoritesOf(favorites: set<Favorite>, u: Oid): set<Favorite> {
    set f | f in favorites && f.userId == u
  }

  predicate HasPair(favorites: set<Favorite>, u: Oid, q: Oid) {
    exists f :: f in favorites && f.userId == u && f.quoteId == q
  }

  // ------------------------------------------------------------ invariants

  /** The unique index on `email`. */
  predicate EmailsUnique(users: map<Oid, User>) {
    forall a, b :: a in users && b in users && users[a].email == users[b].email ==> a == b
  }

  /** Every stored email went through `toLowerCase`. */
  predicate EmailsLower(users: map<Oid, User>) {
    forall a :: a in users ==> IsLower(users[a].email)
  }

  /** The unique compound index on `(userId, quoteId)`. */
  predicate PairsUnique(favorites: set<Favorite>) {
    forall f, g :: f in favorites && g in favorites && f.userId == g.userId && f.quoteId == g.quoteId ==> f == g
  }

  /** What the indexes and the service keep true of every reachable state.
      Because stored emails are lowercase, uniqueness is uniqueness under
      lowercasing. */
  predicate Valid(st: State) {
    EmailsUnique(st.users) && EmailsLower(st.users) && PairsUnique(st.favorites)
  }

  /** Two users never share an email up to ASCII case. */
  lemma ValidEmailsDistinctUpToCase(st: State, a: Oid, b: Oid)
    requires Valid(st)
    requires a in st.users && b in st.users && a != b
    ensures !SameUpToCase(st.users[a].email, st.users[b].email)
  {
    var ea, eb := st.users[a].email, st.users[b].email;
    LowerIdempotent(ea);
    LowerIdempotent(eb);
    LowerEqualIffSameUpToCase(ea, eb);
  }
}
