/** Account operations of the user service: register, login, read,
    update and delete, each a transition of `UserModel.State`. */
module UserService {
  import opened Results
  import opened JsStrings
  import opened UserModel

  /** The four ordered registration checks pass. */
  predicate RegistrationAccepted(st: State, o: Oracles, email: Option<string>, password: Option<string>, name: Option<string>) {
    && Truthy(email) && Truthy(password) && Truthy(name)
    && o.isEmail(email.value)
    && |password.value| >= MinPasswordLength
    && !EmailTaken(st.users, Lower(email.value))
  }

  /** `registerUser({email, password, name})`. The checks run in a fixed
      order and the first that fails decides the message; on success the
      new record is stored under the id the driver generated. */
  function RegisterUser(st: State, o: Oracles, email: Option<string>, password: Option<string>, name: Option<string>,
                        salt: string, newId: Oid, now: nat): (r: Step<UserView>)
    requires newId !in st.users
    ensures r.result.Err? ==> r.state == st
    ensures r.result == Err(MsgFieldsRequired) <==> !(Truthy(email) && Truthy(password) && Truthy(name))
    ensures r.result == Err(MsgInvalidEmail) <==>
              Truthy(email) && Truthy(password) && Truthy(name) && !o.isEmail(email.value)
    ensures r.result == Err(MsgPasswordTooShort) <==>
              Truthy(email) && Truthy(password) && Truthy(name) && o.isEmail(email.value)
              && |password.value| < MinPasswordLength
    ensures r.result == Err(MsgEmailExists) <==>
              Truthy(email) && Truthy(password) && Truthy(name) && o.isEmail(email.value)
              && |password.value| >= MinPasswordLength && EmailTaken(st.users, Lower(email.value))
    ensures r.result.Ok? <==> RegistrationAccepted(st, o, email, password, name)
    ensures r.result.Ok? ==>
              && r.result.value.id == newId
              && r.state.favorites == st.favorites
              && r.state.users.Keys == st.users.Keys + {newId}
              && |r.state.users| == |st.users| + 1
              && (forall id :: id in st.users ==> r.state.users[id] == st.users[id])
              && r.state.users[newId].email == Lower(email.value)
              && r.state.users[newId].name == Trim(name.value)
              && r.state.users[newId].passwordHash == o.hash(password.value, SaltRounds, salt)
              && r.state.users[newId].createdAt == now && r.state.users[newId].updatedAt == now
              && r.result.value == View(newId, r.state.users[newId])
  {
    if !(Truthy(email) && Truthy(password) && Truthy(name)) then Step(st, Err(MsgFieldsRequired))
    else if !o.isEmail(email.value) then Step(st, Err(MsgInvalidEmail))
    else if |password.value| < MinPasswordLength then Step(st, Err(MsgPasswordTooShort))
    else if EmailTaken(st.users, Lower(email.value)) then Step(st, Err(MsgEmailExists))
    else
      var u := User(Lower(email.value), o.hash(password.value, SaltRounds, salt), Trim(name.value), now, now);
      Step(State(st.users[newId := u], st.favorites), Ok(View(newId, u)))
  }

  /** `loginUser(email, password)`: look the user up by lowercased email and
      compare the password with the stored hash. Unknown email and wrong
      password give the same message. */
  function LoginUser(st: State, o: Oracles, email: Option<string>, password: Option<string>): (r: Result<UserView>)
    requires Valid(st)
    ensures !(Truthy(email) && Truthy(password)) ==> r == Err(MsgCredentialsRequired)
    ensures Truthy(email) && Truthy(password) && r.Err? ==> r == Err(MsgInvalidCredentials)
    ensures r.Ok? <==>
              Truthy(email) && Truthy(password) &&
              exists id :: id in st.users && st.users[id].email == Lower(email.value)
                           && o.compare(password.value, st.users[id].passwordHash)
    ensures r.Ok? ==> r.value.id in st.users && r.value == View(r.value.id, st.users[r.value.id])
                      && r.value.email == Lower(email.value)
  {
    if !(Truthy(email) && Truthy(password)) then Err(MsgCredentialsRequired)
    else
      var key := Lower(email.value);
      if !EmailTaken(st.users, key) then Err(MsgInvalidCredentials)
      else
        var id :| id in st.users && st.users[id].email == key;
        if !o.compare(password.value, st.users[id].passwordHash) then Err(MsgInvalidCredentials)
        else Ok(View(id, st.users[id]))
  }

  /** `getUserById(userId)`. */
  function GetUserById(st: State, o: Oracles, userId: string): (r: Result<UserView>)
    ensures o.parseId(userId).None? ==> r == Err(MsgInvalidUserId)
    ensures o.parseId(userId).Some? && o.parseId(userId).value !in st.users ==> r == Err(MsgUserNotFound)
    ensures r.Ok? <==> o.parseId(userId).Some? && o.parseId(userId).value in st.users
    ensures r.Ok? ==> r.value == View(o.parseId(userId).value, st.users[o.parseId(userId).value])
  {
    match o.parseId(userId)
    case None => Err(MsgInvalidUserId)
    case Some(id) => if id in st.users then Ok(View(id, st.users[id])) else Err(MsgUserNotFound)
  }

  /** `updateUser(userId, {name, email})`. Only a supplied name (trimmed),
      a supplied email (lowercased) and `updatedAt` change. The email checks
      run before the existence check, so a taken email is reported even for
      an id that matches no user. */
  function UpdateUser(st: State, o: Oracles, userId: string, name: Option<string>, email: Option<string>, now: nat): (r: Step<string>)
    ensures r.result.Err? ==> r.state == st
    ensures o.parseId(userId).None? ==> r.result == Err(MsgInvalidUserId)
    ensures o.parseId(userId).Some? ==>
              var id := o.parseId(userId).value;
              && (Truthy(email) && !o.isEmail(email.value) ==> r.result == Err(MsgInvalidEmail))
              && (r.result == Err(MsgEmailTaken) <==>
                    Truthy(email) && o.isEmail(email.value) && EmailTakenByOther(st.users, Lower(email.value), id))
              && (r.result == Err(MsgUserNotFound) <==>
                    (Truthy(email) ==> o.isEmail(email.value) && !EmailTakenByOther(st.users, Lower(email.value), id))
                    && id !in st.users)
              && (r.result.Ok? <==>
                    (Truthy(email) ==> o.isEmail(email.value) && !EmailTakenByOther(st.users, Lower(email.value), id))
                    && id in st.users)
    ensures r.result.Ok? ==>
              var id := o.parseId(userId).value;
              && r.result.value == MsgUserUpdated
              && id in st.users
              && r.state.favorites == st.favorites
              && r.state.users.Keys == st.users.Keys
              && var old_, new_ := st.users[id], r.state.users[id];
              && (forall other :: other in st.users && other != id ==> r.state.users[other] == st.users[other])
              && new_.name == (if Truthy(name) then Trim(name.value) else old_.name)
              && new_.email == (if Truthy(email) then Lower(email.value) else old_.email)
              && new_.passwordHash == old_.passwordHash
              && new_.createdAt == old_.createdAt
              && new_.updatedAt == now
  {
    match o.parseId(userId)
    case None => Step(st, Err(MsgInvalidUserId))
    case Some(id) =>
      if Truthy(email) && !o.isEmail(email.value) then Step(st, Err(MsgInvalidEmail))
      else if Truthy(email) && EmailTakenByOther(st.users, Lower(email.value), id) then Step(st, Err(MsgEmailTaken))
      else if id !in st.users then Step(st, Err(MsgUserNotFound))
      else
        var u := st.users[id];
        var u1 := u.(updatedAt := now);
        var u2 := if Truthy(name) then u1.(name := Trim(name.value)) else u1;
        var u3 := if Truthy(email) then u2.(email := Lower(email.value)) else u2;
        Step(State(st.users[id := u3], st.favorites), Ok(MsgUserUpdated))
  }

  /** `deleteUser(userId)`: the user's favorites are deleted first, then the
      user. A missing user is reported only after the favorites deletion
      has run, so that deletion persists even on the error path. */
  function DeleteUser(st: State, o: Oracles, userId: string): (r: Step<string>)
    ensures o.parseId(userId).None? ==> r == Step(st, Err(MsgInvalidUserId))
    ensures o.parseId(userId).Some? ==>
              var id := o.parseId(userId).value;
              && (forall f :: f in r.state.favorites <==> f in st.favorites && f.userId != id)
              && FavoritesOf(r.state.favorites, id) == {}
              && id !in r.state.users
              && r.state.users == st.users - {id}
              && (r.result.Ok? <==> id in st.users)
              && (r.result.Ok? ==> r.result.value == MsgUserDeleted)
              && (r.result.Err? ==> r.result.msg == MsgUserNotFound)
  {
    match o.parseId(userId)
    case None => Step(st, Err(MsgInvalidUserId))
    case Some(id) =>
      var favorites := st.favorites - FavoritesOf(st.favorites, id);
      if id !in st.users then Step(State(st.users, favorites), Err(MsgUserNotFound))
      else Step(State(st.users - {id}, favorites), Ok(MsgUserDeleted))
  }

  // ------------------------------------------------------------ invariants

  lemma RegisterPreservesValid(st: State, o: Oracles, email: Option<string>, password: Option<string>, name: Option<string>,
                               salt: string, newId: Oid, now: nat)
    requires Valid(st)
    requires newId !in st.users
    ensures Valid(RegisterUser(st, o, email, password, name, salt, newId, now).state)
  {
    var r := RegisterUser(st, o, email, password, name, salt, newId, now);
    if r.result.Ok? {
      LowerIsLower(email.value);
      assert r.state.users == st.users[newId := r.state.users[newId]];
      assert EmailsLower(r.state.users);
    }
  }

  lemma UpdatePreservesValid(st: State, o: Oracles, userId: string, name: Option<string>, email: Option<string>, now: nat)
    requires Valid(st)
    ensures Valid(UpdateUser(st, o, userId, name, email, now).state)
  {
    var r := UpdateUser(st, o, userId, name, email, now);
    if r.result.Ok? {
      var id := o.parseId(userId).value;
      if Truthy(email) {
        LowerIsLower(email.value);
      }
    }
  }

  lemma DeletePreservesValid(st: State, o: Oracles, userId: string)
    requires Valid(st)
    ensures Valid(DeleteUser(st, o, userId).state)
  {
  }

  // ------------------------------------------------------------ properties

  /** A second registration of the same address, in any letter case, is a
      conflict and adds no record. */
  lemma RegisterSameEmailTwiceConflicts(st: State, o: Oracles, email: string, email2: string, password: string, password2: string,
                                        name: string, name2: string, salt: string, salt2: string, id1: Oid, id2: Oid, t1: nat, t2: nat)
    requires id1 !in st.users && id2 !in st.users && id1 != id2
    requires SameUpToCase(email, email2)
    requires RegisterUser(st, o, Some(email), Some(password), Some(name), salt, id1, t1).result.Ok?
    requires o.isEmail(email2) && |password2| >= MinPasswordLength && password2 != "" && name2 != ""
    ensures var s1 := RegisterUser(st, o, Some(email), Some(password), Some(name), salt, id1, t1).state;
            RegisterUser(s1, o, Some(email2), Some(password2), Some(name2), salt2, id2, t2)
              == Step(s1, Err(MsgEmailExists))
  {
    var s1 := RegisterUser(st, o, Some(email), Some(password), Some(name), salt, id1, t1).state;
    LowerEqualIffSameUpToCase(email, email2);
    assert email2 != "";
    assert s1.users[id1].email == Lower(email2);
  }

  /** A name of only white space passes the presence check and is stored
      as the empty string. */
  lemma RegisterBlankNameStoresEmpty(st: State, o: Oracles, email: string, password: string, name: string,
                                     salt: string, newId: Oid, now: nat)
    requires newId !in st.users
    requires name != "" && AllWhitespace(name)
    requires RegistrationAccepted(st, o, Some(email), Some(password), Some(name))
    ensures RegisterUser(st, o, Some(email), Some(password), Some(name), salt, newId, now).result.value.name == ""
  {
  }

  /** Logging in with the registered address (in any letter case) and
      password returns the registered user, provided the hasher is sound. */
  lemma RegisterThenLogin(st: State, o: Oracles, email: string, email2: string, password: string, name: string,
                          salt: string, newId: Oid, now: nat)
    requires Valid(st) && HashSound(o)
    requires newId !in st.users
    requires SameUpToCase(email, email2)
    requires RegisterUser(st, o, Some(email), Some(password), Some(name), salt, newId, now).result.Ok?
    ensures var r := RegisterUser(st, o, Some(email), Some(password), Some(name), salt, newId, now);
            Valid(r.state) && LoginUser(r.state, o, Some(email2), Some(password)) == r.result
  {
    var r := RegisterUser(st, o, Some(email), Some(password), Some(name), salt, newId, now);
    RegisterPreservesValid(st, o, Some(email), Some(password), Some(name), salt, newId, now);
    LowerEqualIffSameUpToCase(email, email2);
    assert email2 != "";
    assert o.compare(password, o.hash(password, SaltRounds, salt));
    var l := LoginUser(r.state, o, Some(email2), Some(password));
    assert l.Ok?;
    assert l.value.id == newId;
  }

  /** Login reveals nothing about which part was wrong: an unknown address
      and a wrong password for a known one produce the same error. */
  lemma LoginFailuresIndistinguishable(st: State, o: Oracles, unknown: string, known: string, p1: string, p2: string)
    requires Valid(st)
    requires unknown != "" && known != "" && p1 != "" && p2 != ""
    requires !EmailTaken(st.users, Lower(unknown))
    requires forall id :: id in st.users && st.users[id].email == Lower(known) ==> !o.compare(p2, st.users[id].passwordHash)
    ensures LoginUser(st, o, Some(unknown), Some(p1)) == LoginUser(st, o, Some(known), Some(p2)) == Err(MsgInvalidCredentials)
  {
  }

  /** Re-submitting one's own email, in any letter case, is not a conflict. */
  lemma UpdateOwnEmailAllowed(st: State, o: Oracles, userId: string, email: string, now: nat)
    requires Valid(st)
    requires o.parseId(userId).Some? && o.parseId(userId).value in st.users
    requires SameUpToCase(email, st.users[o.parseId(userId).value].email)
    requires o.isEmail(email) && email != ""
    ensures UpdateUser(st, o, userId, None, Some(email), now).result == Ok(MsgUserUpdated)
    ensures UpdateUser(st, o, userId, None, Some(email), now).state.users == st.users
              [o.parseId(userId).value := st.users[o.parseId(userId).value].(updatedAt := now)]
  {
    var id := o.parseId(userId).value;
    var e := st.users[id].email;
    LowerEqualIffSameUpToCase(email, e);
    LowerIdempotent(e);
    assert Lower(email) == e;
  }

  /** After a delete the account cannot be read and owns no favorites. */
  lemma DeleteThenGone(st: State, o: Oracles, userId: string)
    requires o.parseId(userId).Some?
    ensures var s := DeleteUser(st, o, userId).state;
            GetUserById(s, o, userId) == Err(MsgUserNotFound)
            && FavoritesOf(s.favorites, o.parseId(userId).value) == {}
  {
  }

  /** Renaming an existing user with an already-trimmed name changes the
      name and the update time and nothing else. */
  lemma RenameOnly(st: State, o: Oracles, userId: string, id: Oid, name: string, now: nat)
    requires o.parseId(userId) == Some(id) && id in st.users
    requires name != "" && Trim(name) == name
    ensures var r := UpdateUser(st, o, userId, Some(name), None, now);
            && r.result == Ok(MsgUserUpdated) && id in r.state.users
            && r.state.users == st.users[id := st.users[id].(name := name, updatedAt := now)]
            && r.state.favorites == st.favorites
  {
    var r := UpdateUser(st, o, userId, Some(name), None, now);
    var u := st.users[id].(name := Trim(name), updatedAt := now);
    assert r.state.users == st.users[id := u];
  }

  /** Deleting an existing user succeeds, and afterwards neither the user
      nor any of its favorites remains. */
  lemma DeleteExisting(st: State, o: Oracles, userId: string, id: Oid)
    requires o.parseId(userId) == Some(id) && id in st.users
    ensures var r := DeleteUser(st, o, userId);
            && r.result == Ok(MsgUserDeleted)
            && r.state.users == st.users - {id}
            && GetUserById(r.state, o, userId) == Err(MsgUserNotFound)
            && FavoritesOf(r.state.favorites, id) == {}
  {
    DeleteThenGone(st, o, userId);
  }

  /** Deleting an absent user still removes favorites left under its id. */
  lemma DeleteMissingUserStillClearsFavorites(st: State, o: Oracles, userId: string)
    requires o.parseId(userId).Some? && o.parseId(userId).value !in st.users
    ensures var r := DeleteUser(st, o, userId);
            r.result == Err(MsgUserNotFound) && r.state.users == st.users
            && r.state.favorites == st.favorites - FavoritesOf(st.favorites, o.parseId(userId).value)
  {
  }
}
