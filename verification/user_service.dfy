/** `UsuarioServiceImpl`: authentication, registration with a unique email,
    and lookup by id. Passwords are compared as plain strings, exactly as
    stored. */
module UserService {
  import opened Wrappers
  import opened Entities
  import opened Table
  import opened Errors
  import opened UserRepository

  const UserNotFoundMessage := "Usuário não encontrado para o e-mail informado."
  const WrongPasswordMessage := "Senha inválida."
  const EmailTakenMessage := "Já existe um usuário cadastrado com este email."

  /** `UserAuthenticated`: what a successful login reveals. It has no
      password field. */
  datatype UserAuthenticated = UserAuthenticated(id: Option<nat>, name: Option<string>, email: Option<string>)

  function Identity(u: User): UserAuthenticated {
    UserAuthenticated(u.id, u.name, u.email)
  }

  /** `autenticar`: the email is looked up first; only a found user's stored
      password is then compared, by exact string equality. A stored null
      password makes `getSenha().equals(..)` throw. */
  function Authenticate(users: UserStore, email: string, password: string): (r: Result<UserAuthenticated, ServiceError>)
    ensures r == Failure(Authentication(UserNotFoundMessage)) <==>
      forall k :: k in users.rows ==> users.rows[k].email != Some(email)
    ensures UniqueEmailFor(users, email) ==> forall k :: k in users.rows && users.rows[k].email == Some(email) ==>
      var stored := users.rows[k].password;
      && (stored == Some(password) <==> r == Success(Identity(users.rows[k])))
      && (stored.Some? && stored.value != password <==> r == Failure(Authentication(WrongPasswordMessage)))
      && (stored.None? <==> r == Failure(NullPointer))
    ensures r == Failure(NonUniqueResult) <==> !UniqueEmailFor(users, email)
  {
    match FindByEmail(users, email)
    case Failure(e) => Failure(e)
    case Success(None) => Failure(Authentication(UserNotFoundMessage))
    case Success(Some(u)) =>
      if u.password.None? then Failure(NullPointer)
      else if u.password.value != password then Failure(Authentication(WrongPasswordMessage))
      else Success(Identity(u))
  }

  /** At most one user has `email`. */
  predicate UniqueEmailFor(users: UserStore, email: string) {
    forall k1, k2 :: (k1 in users.rows && k2 in users.rows && k1 != k2 && users.rows[k1].email == Some(email))
      ==> users.rows[k2].email != Some(email)
  }

  /** `validarEmail`: passes exactly when no stored user has the email. */
  function ValidateEmail(users: UserStore, email: Option<string>): (o: Outcome<ServiceError>)
    ensures o == Pass <==> forall k :: k in users.rows ==> users.rows[k].email != email
    ensures o.Fail? ==> o.error == BusinessRule(EmailTakenMessage)
  {
    if ExistsByEmail(users, email) then Fail(BusinessRule(EmailTakenMessage)) else Pass
  }

  /** `salvarUsuario`: a taken email raises before anything is saved;
      otherwise the user is saved (a fresh id when it has none) and returned.
      Registration keeps emails unique. */
  function SaveUser(users: UserStore, u: User): (s: Step<UserStore, User>)
    ensures (exists k :: k in users.rows && users.rows[k].email == u.email) ==>
      s == Step(users, Failure(BusinessRule(EmailTakenMessage)))
    ensures (forall k :: k in users.rows ==> users.rows[k].email != u.email) ==>
      && s.result.Success?
      && var saved := s.result.value;
      && saved.id.Some?
      && (u.id.Some? ==> saved == u)
      && (u.id.None? ==> saved == u.(id := Some(FreshKey(users))) && saved.id.value !in users.rows)
      && s.store.rows == users.rows[saved.id.value := saved]
    ensures UniqueEmails(users) ==> UniqueEmails(s.store)
  {
    match ValidateEmail(users, u.email)
    case Fail(e) => Step(users, Failure(e))
    case Pass =>
      var saved := UserRepository.Save(users, u);
      Step(saved.store, Success(saved.user))
  }

  /** Registration followed by login: a user registered with a free email
      and a password can then log in with exactly that password, and gets
      back the saved user's identity (with its assigned id); any other
      password is refused. */
  lemma RegisterThenAuthenticate(users: UserStore, u: User, email: string, password: string, other: string)
    requires UniqueEmails(users)
    requires u.email == Some(email) && u.password == Some(password) && other != password
    requires forall k :: k in users.rows ==> users.rows[k].email != u.email
    ensures var s := SaveUser(users, u);
      && s.result.Success?
      && Authenticate(s.store, email, password) == Success(Identity(s.result.value))
      && Authenticate(s.store, email, other) == Failure(Authentication(WrongPasswordMessage))
  {
    var s := SaveUser(users, u);
    var saved := s.result.value;
    var k := saved.id.value;
    assert k in s.store.rows && s.store.rows[k] == saved;
    assert UniqueEmails(s.store);
  }

  /** `getById`. */
  function GetById(users: UserStore, id: nat): (r: Option<User>)
    ensures r.Some? <==> id in users.rows
    ensures r.Some? ==> r.value == users.rows[id] && r.value.id == Some(id)
  {
    FindById(users, id)
  }

  /** `salvarUsuario` then `getById`: a registered user is found again under
      the id it was saved with; every other id, and every id after a refused
      registration, finds what it found before. */
  lemma SaveUserThenGetById(users: UserStore, u: User, other: nat)
    ensures var s := SaveUser(users, u);
      && (s.result.Success? ==> GetById(s.store, s.result.value.id.value) == Some(s.result.value))
      && (s.result.Failure? || other != s.result.value.id.value ==>
            GetById(s.store, other) == GetById(users, other))
  {
  }
}
