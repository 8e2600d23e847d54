/** The favorites ledger of the user service: add, remove, list and check
    (user, quote) pairs. Neither id is checked against the users or quotes
    collections; only the ObjectId syntax of each is. */
module Favorites {
  import opened Results
  import opened UserModel

  /** `isFavorite` answers either a plain `false` (for a malformed id) or
      `{success: true, isFavorite}`. */
  datatype FavoriteCheck = PlainFalse | Checked(isFavorite: bool)

  /** `addToFavorites(userId, quoteId)`: insert the pair with the current
      time; the unique index turns a second insert of the pair into
      "already in favorites". */
  function AddToFavorites(st: State, o: Oracles, userId: string, quoteId: string, now: nat): (r: Step<string>)
    ensures r.state.users == st.users
    ensures r.result.Err? ==> r.state == st
    ensures o.parseId(userId).None? ==> r.result == Err(MsgInvalidUserId)
    ensures o.parseId(userId).Some? && o.parseId(quoteId).None? ==> r.result == Err(MsgInvalidQuoteId)
    ensures o.parseId(userId).Some? && o.parseId(quoteId).Some? ==>
              var u, q := o.parseId(userId).value, o.parseId(quoteId).value;
              && (r.result == Err(MsgAlreadyFavorite) <==> HasPair(st.favorites, u, q))
              && (r.result.Ok? <==> !HasPair(st.favorites, u, q))
              && (r.result.Ok? ==> r.result.value == MsgFavoriteAdded
                                   && r.state.favorites == st.favorites + {Favorite(u, q, now)}
                                   && Favorite(u, q, now) !in st.favorites)
  {
    match (o.parseId(userId), o.parseId(quoteId))
    case (None, _) => Step(st, Err(MsgInvalidUserId))
    case (Some(_), None) => Step(st, Err(MsgInvalidQuoteId))
    case (Some(u), Some(q)) =>
      if HasPair(st.favorites, u, q) then Step(st, Err(MsgAlreadyFavorite))
      else Step(st.(favorites := st.favorites + {Favorite(u, q, now)}), Ok(MsgFavoriteAdded))
  }

  /** `removeFromFavorites(userId, quoteId)`: delete the row of the pair. */
  function RemoveFromFavorites(st: State, o: Oracles, userId: string, quoteId: string): (r: Step<string>)
    ensures r.state.users == st.users
    ensures r.result.Err? ==> r.state == st
    ensures o.parseId(userId).None? ==> r.result == Err(MsgInvalidUserId)
    ensures o.parseId(userId).Some? && o.parseId(quoteId).None? ==> r.result == Err(MsgInvalidQuoteId)
    ensures o.parseId(userId).Some? && o.parseId(quoteId).Some? ==>
              var u, q := o.parseId(userId).value, o.parseId(quoteId).value;
              && (r.result == Err(MsgFavoriteNotFound) <==> !HasPair(st.favorites, u, q))
              && (r.result.Ok? <==> HasPair(st.favorites, u, q))
              && (r.result.Ok? ==> r.result.value == MsgFavoriteRemoved)
              && (forall f :: f in r.state.favorites <==>
                                f in st.favorites && !(f.userId == u && f.quoteId == q))
  {
    match (o.parseId(userId), o.parseId(quoteId))
    case (None, _) => Step(st, Err(MsgInvalidUserId))
    case (Some(_), None) => Step(st, Err(MsgInvalidQuoteId))
    case (Some(u), Some(q)) =>
      if !HasPair(st.favorites, u, q) then Step(st, Err(MsgFavoriteNotFound))
      else
        var rest := set f | f in st.favorites && !(f.userId == u && f.quoteId == q);
        Step(st.(favorites := rest), Ok(MsgFavoriteRemoved))
  }

  /** `isFavorite(userId, quoteId)`. */
  function IsFavorite(st: State, o: Oracles, userId: string, quoteId: string): (r: FavoriteCheck)
    ensures o.parseId(userId).None? || o.parseId(quoteId).None? ==> r == PlainFalse
    ensures o.parseId(userId).Some? && o.parseId(quoteId).Some? ==>
              r.Checked? &&
              (r.isFavorite <==> exists f :: f in st.favorites && f.userId == o.parseId(userId).value
                                                               && f.quoteId == o.parseId(quoteId).value)
  {
    match (o.parseId(userId), o.parseId(quoteId))
    case (Some(u), Some(q)) => Checked(HasPair(st.favorites, u, q))
    case _ => PlainFalse
  }

  // ------------------------------------------------------------ listing

  /** Newest first: `sort({addedAt: -1})`. */
  predicate NewestFirst(fs: seq<Favorite>) {
    forall i, j :: 0 <= i < j < |fs| ==> fs[i].addedAt >= fs[j].addedAt
  }

  predicate Distinct(fs: seq<Favorite>) {
    forall i, j :: 0 <= i < j < |fs| ==> fs[i] != fs[j]
  }

  lemma {:induction false} NewestExists(s: set<Favorite>)
    requires s != {}
    ensures exists f :: f in s && forall g :: g in s ==> g.addedAt <= f.addedAt
    decreases |s|
  {
    var x :| x in s;
    if s != {x} {
      NewestExists(s - {x});
      var m :| m in s - {x} && forall g :: g in s - {x} ==> g.addedAt <= m.addedAt;
      if x.addedAt > m.addedAt {
        assert forall g :: g in s ==> g.addedAt <= x.addedAt;
      } else {
        assert forall g :: g in s ==> g.addedAt <= m.addedAt;
      }
    } else {
      assert forall g :: g in s ==> g == x;
    }
  }

  /** `getFavorites(userId)`: exactly the user's rows, each once, newest first.
      Rows added at the same time come in an unspecified order. */
  method GetFavorites(st: State, o: Oracles, userId: string) returns (r: Result<seq<Favorite>>)
    ensures o.parseId(userId).None? ==> r == Err(MsgInvalidUserId)
    ensures o.parseId(userId).Some? ==>
              && r.Ok?
              && (forall f :: f in r.value <==> f in st.favorites && f.userId == o.parseId(userId).value)
              && Distinct(r.value)
              && NewestFirst(r.value)
              && |r.value| == |FavoritesOf(st.favorites, o.parseId(userId).value)|
  {
    match o.parseId(userId)
    case None =>
      r := Err(MsgInvalidUserId);
    case Some(u) =>
      var mine := FavoritesOf(st.favorites, u);
      var rest := mine;
      var out: seq<Favorite> := [];
      while rest != {}
        invariant rest <= mine
        invariant forall f :: f in mine <==> f in rest || f in out
        invariant forall i :: 0 <= i < |out| ==> out[i] !in rest
        invariant |out| + |rest| == |mine|
        invariant Distinct(out)
        invariant NewestFirst(out)
        invariant forall i, g :: 0 <= i < |out| && g in rest ==> g.addedAt <= out[i].addedAt
        decreases |rest|
      {
        NewestExists(rest);
        var f :| f in rest && forall g :: g in rest ==> g.addedAt <= f.addedAt;
        out := out + [f];
        rest := rest - {f};
      }
      r := Ok(out);
  }

  // ------------------------------------------------------------ invariants

  lemma AddPreservesValid(st: State, o: Oracles, userId: string, quoteId: string, now: nat)
    requires Valid(st)
    ensures Valid(AddToFavorites(st, o, userId, quoteId, now).state)
  {
  }

  lemma RemovePreservesValid(st: State, o: Oracles, userId: string, quoteId: string)
    requires Valid(st)
    ensures Valid(RemoveFromFavorites(st, o, userId, quoteId).state)
  {
  }

  /** Under the pair index a successful remove deletes exactly one row. */
  lemma RemoveDeletesOneRow(st: State, o: Oracles, userId: string, quoteId: string)
    requires Valid(st)
    requires RemoveFromFavorites(st, o, userId, quoteId).result.Ok?
    ensures var s := RemoveFromFavorites(st, o, userId, quoteId).state;
            exists f :: f in st.favorites && s.favorites == st.favorites - {f}
  {
    var u, q := o.parseId(userId).value, o.parseId(quoteId).value;
    var f :| f in st.favorites && f.userId == u && f.quoteId == q;
    var s := RemoveFromFavorites(st, o, userId, quoteId).state;
    assert s.favorites == st.favorites - {f};
  }

  // ------------------------------------------------------------ properties

  /** Adding a pair twice: success, then "already in favorites". */
  lemma AddTwiceConflicts(st: State, o: Oracles, userId: string, quoteId: string, t1: nat, t2: nat)
    requires AddToFavorites(st, o, userId, quoteId, t1).result.Ok?
    ensures var s1 := AddToFavorites(st, o, userId, quoteId, t1).state;
            AddToFavorites(s1, o, userId, quoteId, t2) == Step(s1, Err(MsgAlreadyFavorite))
  {
    var s1 := AddToFavorites(st, o, userId, quoteId, t1).state;
    var u, q := o.parseId(userId).value, o.parseId(quoteId).value;
    assert Favorite(u, q, t1) in s1.favorites;
  }

  /** A successful remove undoes a successful add. */
  lemma AddThenRemoveRestores(st: State, o: Oracles, userId: string, quoteId: string, now: nat)
    requires AddToFavorites(st, o, userId, quoteId, now).result.Ok?
    ensures var s1 := AddToFavorites(st, o, userId, quoteId, now).state;
            RemoveFromFavorites(s1, o, userId, quoteId) == Step(st, Ok(MsgFavoriteRemoved))
  {
    var s1 := AddToFavorites(st, o, userId, quoteId, now).state;
    var u, q := o.parseId(userId).value, o.parseId(quoteId).value;
    assert Favorite(u, q, now) in s1.favorites;
    var s2 := RemoveFromFavorites(s1, o, userId, quoteId).state;
    assert s2.favorites == st.favorites;
  }

  /** The check is false, then true after an add, then false after a remove. */
  lemma CheckAcrossAddAndRemove(st: State, o: Oracles, userId: string, quoteId: string, now: nat)
    requires o.parseId(userId).Some? && o.parseId(quoteId).Some?
    requires !HasPair(st.favorites, o.parseId(userId).value, o.parseId(quoteId).value)
    ensures var s1 := AddToFavorites(st, o, userId, quoteId, now).state;
            var s2 := RemoveFromFavorites(s1, o, userId, quoteId).state;
            && IsFavorite(st, o, userId, quoteId) == Checked(false)
            && IsFavorite(s1, o, userId, quoteId) == Checked(true)
            && IsFavorite(s2, o, userId, quoteId) == Checked(false)
  {
    AddThenRemoveRestores(st, o, userId, quoteId, now);
    var u, q := o.parseId(userId).value, o.parseId(quoteId).value;
    assert Favorite(u, q, now) in AddToFavorites(st, o, userId, quoteId, now).state.favorites;
  }

  /** Only the pair touched changes its status: other pairs read the same
      before and after an add or a remove. */
  lemma OtherPairsUnaffected(st: State, o: Oracles, userId: string, quoteId: string, otherUser: string, otherQuote: string, now: nat)
    requires o.parseId(otherUser).Some? && o.parseId(otherQuote).Some?
    requires o.parseId(otherUser) != o.parseId(userId) || o.parseId(otherQuote) != o.parseId(quoteId)
    ensures IsFavorite(AddToFavorites(st, o, userId, quoteId, now).state, o, otherUser, otherQuote)
              == IsFavorite(st, o, otherUser, otherQuote)
    ensures IsFavorite(RemoveFromFavorites(st, o, userId, quoteId).state, o, otherUser, otherQuote)
              == IsFavorite(st, o, otherUser, otherQuote)
  {
  }

  /** Adding does not look at the users collection: a user id whose account
      was deleted (as carried by a still-valid token) can gain favorites
      again, which then have no owner. */
  lemma AddAfterDeleteLeavesOrphan(st: State, o: Oracles, userId: string, quoteId: string, now: nat)
    requires o.parseId(userId).Some? && o.parseId(quoteId).Some?
    requires o.parseId(userId).value !in st.users
    requires !HasPair(st.favorites, o.parseId(userId).value, o.parseId(quoteId).value)
    ensures var r := AddToFavorites(st, o, userId, quoteId, now);
            r.result.Ok? && exists f :: f in r.state.favorites && f.userId !in r.state.users
  {
    var r := AddToFavorites(st, o, userId, quoteId, now);
    assert Favorite(o.parseId(userId).value, o.parseId(quoteId).value, now) in r.state.favorites;
  }
}
