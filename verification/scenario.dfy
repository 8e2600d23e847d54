/** An end-to-end session across the three services: register, log in,
    read the profile through the token gate, add/check/remove a favorite,
    update the profile and delete the account. The session is stated for
    any credentials of the right shape; `ExampleCredentials` shows that the
    test client's values have that shape. */
module Scenario {
  import opened Results
  import opened JsStrings
  import opened Auth
  import opened UserModel
  import opened UserService
  import opened Favorites

  /** Credentials registration accepts on syntax, already in the form the
      service stores them, with `shouted` the address in another case. */
  predicate WellFormedCredentials(o: Oracles, email: string, shouted: string, password: string, name: string) {
    && o.isEmail(email) && email != "" && IsLower(email) && SameUpToCase(email, shouted)
    && |password| >= MinPasswordLength && name != "" && Trim(name) == name
  }

  /** The test client's address is stored as given. */
  lemma ExampleEmailLower()
    ensures IsLower("test@example.com")
  {
  }

  /** The test client's address matches its capitalised form. */
  lemma ExampleEmailShouted()
    ensures SameUpToCase("test@example.com", "TEST@EXAMPLE.COM")
  {
  }

  /** Any address matches itself up to case, so logging in with the
      address exactly as registered is the special case `shouted == email`. */
  lemma SameUpToCaseReflexive(a: string)
    ensures SameUpToCase(a, a)
  {
  }

  /** The test client's name and new name survive trimming unchanged. */
  lemma ExampleNames()
    ensures Trimmed("Test User") && Trimmed("Updated Test User")
  {
  }

  /** The test client's account with its login as registered, the same
      login with the address in capitals, and its new name have the
      required shape. */
  lemma ExampleCredentials(o: Oracles)
    requires o.isEmail("test@example.com")
    ensures WellFormedCredentials(o, "test@example.com", "test@example.com", "password123", "Test User")
    ensures WellFormedCredentials(o, "test@example.com", "TEST@EXAMPLE.COM", "password123", "Test User")
    ensures Trim("Updated Test User") == "Updated Test User"
  {
    ExampleEmailLower();
    ExampleEmailShouted();
    SameUpToCaseReflexive("test@example.com");
    ExampleNames();
    TrimmedFixed("Test User");
    TrimmedFixed("Updated Test User");
  }

  /** Registering, then logging in with the address in another case. */
  lemma SessionRegister(st: State, o: Oracles, email: string, shouted: string, password: string, name: string,
                        id: Oid, salt: string, now: nat)
    requires Valid(st) && HashSound(o)
    requires WellFormedCredentials(o, email, shouted, password, name)
    requires id !in st.users && !EmailTaken(st.users, email)
    ensures var reg := RegisterUser(st, o, Some(email), Some(password), Some(name), salt, id, now);
            && reg.result.Ok? && Valid(reg.state) && id in reg.state.users
            && reg.state.users[id].name == name
            && reg.state.favorites == st.favorites
            && LoginUser(reg.state, o, Some(shouted), Some(password)) == reg.result
  {
    LowerIdempotent(email);
    assert RegistrationAccepted(st, o, Some(email), Some(password), Some(name));
    RegisterThenLogin(st, o, email, shouted, password, name, salt, id, now);
  }

  /** Reading the profile with the issued "Bearer" token finds the account;
      without a token the read is refused with 401. */
  lemma SessionProfile(st: State, o: Oracles, jwt: Jwt, secret: string, id: Oid, email: string, now: nat)
    requires JwtSound(jwt)
    requires o.parseId(id) == Some(id) && id in st.users
    ensures var gate := AuthenticateToken(jwt, secret, Some("Bearer " + GenerateToken(jwt, secret, id, email, now)), now);
            && gate.nextCalls == 1 && gate.user.Some? && gate.user.value.userId == id
            && GetUserById(st, o, gate.user.value.userId) == Ok(View(id, st.users[id]))
            && AuthenticateToken(jwt, secret, None, now).response == Some(Response(401, false, MsgTokenRequired))
  {
    var t := GenerateToken(jwt, secret, id, email, now);
    IssuedTokenPassesGate(jwt, secret, "Bearer", id, email, now, now);
    assert "Bearer" + " " + t == "Bearer " + t;
  }

  /** Add, list, add again, check, remove, check: success, the user's
      earlier favorites plus the new one, conflict, true, success, false,
      and the ledger ends as it began. */
  lemma SessionFavorite(st: State, o: Oracles, id: Oid, quote: Oid, now: nat)
    requires o.parseId(id) == Some(id) && o.parseId(quote) == Some(quote)
    requires !HasPair(st.favorites, id, quote)
    ensures var add := AddToFavorites(st, o, id, quote, now);
            && add.result == Ok(MsgFavoriteAdded)
            && FavoritesOf(add.state.favorites, id) == FavoritesOf(st.favorites, id) + {Favorite(id, quote, now)}
            && AddToFavorites(add.state, o, id, quote, now).result == Err(MsgAlreadyFavorite)
            && IsFavorite(add.state, o, id, quote) == Checked(true)
            && var rem := RemoveFromFavorites(add.state, o, id, quote);
            && rem == Step(st, Ok(MsgFavoriteRemoved))
            && IsFavorite(rem.state, o, id, quote) == Checked(false)
  {
    CheckAcrossAddAndRemove(st, o, id, quote, now);
    AddTwiceConflicts(st, o, id, quote, now, now);
    AddThenRemoveRestores(st, o, id, quote, now);
  }

  /** Renaming the account and then deleting it; the profile is gone. */
  lemma SessionClose(st: State, o: Oracles, id: Oid, newName: string, now: nat)
    requires o.parseId(id) == Some(id) && id in st.users
    requires newName != "" && Trim(newName) == newName
    ensures var upd := UpdateUser(st, o, id, Some(newName), None, now);
            && upd.result == Ok(MsgUserUpdated)
            && id in upd.state.users && upd.state.users[id].name == newName
            && var del := DeleteUser(upd.state, o, id);
            && del.result == Ok(MsgUserDeleted)
            && GetUserById(del.state, o, id) == Err(MsgUserNotFound)
            && FavoritesOf(del.state.favorites, id) == {}
  {
    RenameOnly(st, o, id, id, newName, now);
    var upd := UpdateUser(st, o, id, Some(newName), None, now);
    DeleteExisting(upd.state, o, id, id);
  }

  /** The whole session, each step on the state the previous one left. */
  lemma AccountSession(st: State, o: Oracles, jwt: Jwt, secret: string,
                       email: string, shouted: string, password: string, name: string, newName: string,
                       id: Oid, quote: Oid, salt: string, now: nat)
    requires Valid(st) && HashSound(o) && JwtSound(jwt)
    requires WellFormedCredentials(o, email, shouted, password, name)
    requires newName != "" && Trim(newName) == newName
    requires o.parseId(id) == Some(id) && o.parseId(quote) == Some(quote)
    requires id !in st.users && !EmailTaken(st.users, email)
    requires !HasPair(st.favorites, id, quote)
    ensures var reg := RegisterUser(st, o, Some(email), Some(password), Some(name), salt, id, now);
            && reg.result.Ok? && Valid(reg.state)
            && LoginUser(reg.state, o, Some(shouted), Some(password)) == reg.result
            && AuthenticateToken(jwt, secret, Some("Bearer " + GenerateToken(jwt, secret, id, email, now)), now).user.Some?
            && GetUserById(reg.state, o, id).Ok? && GetUserById(reg.state, o, id).value.name == name
            && var add := AddToFavorites(reg.state, o, id, quote, now);
            && add.result.Ok?
            && var rem := RemoveFromFavorites(add.state, o, id, quote);
            && rem.result.Ok? && IsFavorite(rem.state, o, id, quote) == Checked(false)
            && var del := DeleteUser(UpdateUser(rem.state, o, id, Some(newName), None, now).state, o, id);
            && del.result.Ok? && GetUserById(del.state, o, id) == Err(MsgUserNotFound)
  {
    SessionRegister(st, o, email, shouted, password, name, id, salt, now);
    var reg := RegisterUser(st, o, Some(email), Some(password), Some(name), salt, id, now);
    SessionProfile(reg.state, o, jwt, secret, id, email, now);
    assert GetUserById(reg.state, o, id) == Ok(View(id, reg.state.users[id]));
    SessionFavorite(reg.state, o, id, quote, now);
    var add := AddToFavorites(reg.state, o, id, quote, now);
    var rem := RemoveFromFavorites(add.state, o, id, quote);
    assert rem.state == reg.state;
    SessionClose(reg.state, o, id, newName, now);
  }
}
