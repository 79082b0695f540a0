/** `UsuarioRepository`: the user table with its derived queries
    `existsByEmail` and `findByEmail`. */
module UserRepository {
  import opened Wrappers
  import opened Entities
  import opened Table
  import opened Errors

  /** A user table in which every row carries its own key as id. */
  type UserStore = t: Table<User> | forall k :: k in t.rows ==> t.rows[k].id == Some(k)
    witness TableRep(map[], 0)

  /** The result of `save`: the new table and the entity it returns. */
  datatype SavedUser = SavedUser(store: UserStore, user: User)

  /** `save`: a user without an id is inserted under a fresh id; a user with
      an id overwrites (or creates) the row with that id. */
  function Save(store: UserStore, u: User): (s: SavedUser)
    ensures u.id.None? ==> s.user == u.(id := Some(FreshKey(store)))
    ensures u.id.Some? ==> s.user == u
    ensures s.user.id.Some? && s.store.rows == store.rows[s.user.id.value := s.user]
  {
    var k := if u.id.Some? then u.id.value else FreshKey(store);
    var row := u.(id := Some(k));
    SavedUser(Put(store, k, row), row)
  }

  /** `findById`. */
  function FindById(store: UserStore, id: nat): (r: Option<User>)
    ensures r.Some? <==> id in store.rows
    ensures r.Some? ==> r.value == store.rows[id] && r.value.id == Some(id)
  {
    if id in store.rows then Some(store.rows[id]) else None
  }

  /** The ids of the users whose email is `email`, in ascending order. A
      null `email` selects the users without one, as Spring Data's derived
      queries turn a null argument into `is null`. */
  function EmailHolders(store: UserStore, email: Option<string>): (ks: seq<nat>)
    ensures forall i, j :: 0 <= i < j < |ks| ==> ks[i] < ks[j]
    ensures forall k :: k in ks <==> k in store.rows && store.rows[k].email == email
  {
    Matching(store, (u: User) => u.email == email)
  }

  /** `existsByEmail`. */
  function ExistsByEmail(store: UserStore, email: Option<string>): (b: bool)
    ensures b <==> exists k :: k in store.rows && store.rows[k].email == email
  {
    var ks := EmailHolders(store, email);
    assert ks != [] ==> ks[0] in ks;
    ks != []
  }

  /** `findByEmail`: the one user with that email, none, or an error when
      several users share it. */
  function FindByEmail(store: UserStore, email: string): (r: Result<Option<User>, ServiceError>)
    ensures r == Success(None) <==> forall k :: k in store.rows ==> store.rows[k].email != Some(email)
    ensures r == Failure(NonUniqueResult) <==>
      exists k1, k2 :: k1 in store.rows && k2 in store.rows && k1 != k2
        && store.rows[k1].email == Some(email) && store.rows[k2].email == Some(email)
    ensures r.Success? && r.value.Some? ==>
      var u := r.value.value;
      && u.id.Some? && u.id.value in store.rows && store.rows[u.id.value] == u
      && u.email == Some(email)
      && forall k :: k in store.rows && store.rows[k].email == Some(email) ==> k == u.id.value
    ensures r.Success? || r == Failure(NonUniqueResult)
  {
    var ks := EmailHolders(store, Some(email));
    HolderCount(store, Some(email));
    if |ks| == 0 then Success(None)
    else if |ks| == 1 then Success(Some(store.rows[ks[0]]))
    else Failure(NonUniqueResult)
  }

  /** How many users hold an email decides what `findByEmail` sees: none,
      exactly one (whose key is the first holder), or two distinct ones. */
  lemma HolderCount(store: UserStore, email: Option<string>)
    ensures var ks := EmailHolders(store, email);
      && (|ks| == 0 <==> forall k :: k in store.rows ==> store.rows[k].email != email)
      && (|ks| >= 1 ==> ks[0] in store.rows && store.rows[ks[0]].email == email)
      && (|ks| == 1 ==> forall k :: k in store.rows && store.rows[k].email == email ==> k == ks[0])
      && (|ks| >= 2 <==> (exists k1, k2 :: k1 in store.rows && k2 in store.rows && k1 != k2
                           && store.rows[k1].email == email && store.rows[k2].email == email))
  {
    var ks := EmailHolders(store, email);
    if |ks| >= 1 {
      assert ks[0] in ks;
    }
    if |ks| == 1 {
      assert forall k :: k in ks ==> k == ks[0];
    }
    if |ks| >= 2 {
      assert ks[0] in ks && ks[1] in ks;
    }
  }

  /** No two users share an email. */
  predicate UniqueEmails(store: UserStore) {
    forall k1, k2 :: k1 in store.rows && k2 in store.rows && k1 != k2 ==>
      store.rows[k1].email != store.rows[k2].email
  }
}
