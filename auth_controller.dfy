/** src/controllers/authController.ts: registration, login and the profile
    lookup. bcrypt's hash and compare are supplied functions; a signed session
    token is modelled by the claims it carries. */
module AuthController {
  import opened Values
  import opened Relational
  import opened Schema

  /** A user as every handler returns it: each column except `password`. */
  datatype PublicUser = PublicUser(id: int, name: JsVal, email: JsVal, role: JsVal, createdAt: Instant)

  /** The claims `generateSessionJwt` signs: the user's id and email. */
  datatype SessionToken = SessionToken(id: int, email: JsVal)

  /** The body of a successful register or login. */
  datatype Session = Session(user: PublicUser, token: SessionToken)

  /** `const { password: _, ...userWithoutPassword } = user`. */
  function Public(u: User): PublicUser
  {
    PublicUser(u.id, u.name, u.email, u.role, u.createdAt)
  }

  /** The session issued to a user: its public view and a token for its own id and email. */
  function SessionFor(u: User): (r: Session)
    ensures r.token.id == r.user.id == u.id && r.token.email == r.user.email == u.email
  {
    Session(Public(u), SessionToken(u.id, u.email))
  }

  /** Nothing a handler returns about a user depends on the stored hash. */
  lemma SessionHidesPassword(u: User, hashed: string)
    ensures SessionFor(u.(password := hashed)) == SessionFor(u)
    ensures Public(u.(password := hashed)) == Public(u)
  {
  }

  /** POST /auth/register. `hash` stands for `bcrypt.hash(password, 10)`. */
  method Register(db: Db, email: JsVal, password: JsVal, name: JsVal, role: JsVal, hash: JsVal -> string, now: Instant)
    returns (reply: Reply<Session>)
    requires db.Valid()
    modifies db
    ensures db.Valid()
    ensures !Truthy(email) || !Truthy(password) || !Truthy(name) || !Truthy(role) ==>
      reply == Fail(BAD_REQUEST) && db.tables == old(db.tables)
    ensures email in Column(old(db.tables.users), UserEmail) ==>
      reply == Fail(BAD_REQUEST) && db.tables == old(db.tables)
    ensures Truthy(email) && Truthy(password) && Truthy(name) && Truthy(role) &&
            email !in Column(old(db.tables.users), UserEmail) ==>
      var u := User(old(db.tables.nextUserId), name, email, hash(password), role, now);
      && db.tables == old(db.tables).(users := old(db.tables.users) + [u], nextUserId := old(db.tables.nextUserId) + 1)
      && reply == Reply(CREATED, Some(SessionFor(u)))
    ensures reply.status == BAD_REQUEST || reply.status == CREATED
    ensures reply.status == BAD_REQUEST ==> db.tables == old(db.tables)
  {
    var t := db.tables;
    if !Truthy(email) || !Truthy(password) || !Truthy(name) || !Truthy(role) {
      reply := Fail(BAD_REQUEST);
    } else if First(t.users, UserEmail, email).Some? {
      reply := Fail(BAD_REQUEST);
    } else {
      var u := User(t.nextUserId, name, email, hash(password), role, now);
      InsertUserConsistent(t, u);
      db.tables := t.(users := t.users + [u], nextUserId := t.nextUserId + 1);
      reply := Reply(CREATED, Some(SessionFor(u)));
    }
  }

  /** POST /auth/login. `compare` stands for `bcrypt.compare(password, hash)`.
      An unknown email and a wrong password give the same reply. */
  function Login(t: Tables, email: JsVal, password: JsVal, compare: (JsVal, string) -> bool): (r: Reply<Session>)
    ensures !Truthy(email) || !Truthy(password) ==> r == Fail(BAD_REQUEST)
    ensures Truthy(email) && Truthy(password) && r.status != OK ==> r == Fail(UNAUTHORIZED)
    ensures r.status == OK <==> r.data.Some?
    ensures r.status == OK ==>
      && Truthy(email) && Truthy(password)
      && exists u :: u in t.users && u.email == email && compare(password, u.password) && r.data == Some(SessionFor(u))
    ensures (forall u :: u in t.users ==> u.email != email) ==> r.status != OK
  {
    if !Truthy(email) || !Truthy(password) then Fail(BAD_REQUEST)
    else
      var found := First(t.users, UserEmail, email);
      if found.None? || !compare(password, found.value.password) then Fail(UNAUTHORIZED)
      else Reply(OK, Some(SessionFor(found.value)))
  }

  /** With emails unique, login succeeds exactly when the user holding that
      email accepts the password, and the session is that user's. */
  lemma LoginSucceedsIff(t: Tables, email: JsVal, password: JsVal, compare: (JsVal, string) -> bool, u: User)
    requires Consistent(t)
    requires u in t.users && u.email == email && Truthy(email) && Truthy(password)
    ensures Login(t, email, password, compare).status == OK <==> compare(password, u.password)
    ensures compare(password, u.password) ==> Login(t, email, password, compare) == Reply(OK, Some(SessionFor(u)))
  {
    FirstUnique(t.users, UserEmail, email, u);
  }

  /** GET /auth/profile. `caller` is the `id` claim of the verified token;
      a missing or zero id is refused before the lookup. */
  function GetProfile(t: Tables, caller: Option<int>): (r: Reply<PublicUser>)
    ensures caller.None? || caller.value == 0 ==> r == Fail(UNAUTHORIZED)
    ensures r.status == OK <==> r.data.Some?
    ensures r.data.Some? ==>
      caller.Some? && exists u :: u in t.users && u.id == caller.value && r.data.value == Public(u)
    ensures caller.Some? && caller.value != 0 && r.data.None? ==>
      r == Fail(NOT_FOUND) && forall u :: u in t.users ==> u.id != caller.value
  {
    if caller.None? || caller.value == 0 then Fail(UNAUTHORIZED)
    else
      var found := First(t.users, UserKey, caller.value);
      if found.None? then Fail(NOT_FOUND) else Reply(OK, Some(Public(found.value)))
  }

  /** A registered user can log in with the password it registered with (when
      the hash accepts it) and read its own profile. */
  lemma RegisterThenLogin(t: Tables, email: JsVal, password: JsVal, name: JsVal, role: JsVal,
                          hash: JsVal -> string, compare: (JsVal, string) -> bool, now: Instant)
    requires Consistent(t)
    requires Truthy(email) && Truthy(password) && Truthy(name) && Truthy(role)
    requires email !in Column(t.users, UserEmail)
    requires compare(password, hash(password))
    ensures var u := User(t.nextUserId, name, email, hash(password), role, now);
      var t' := t.(users := t.users + [u], nextUserId := t.nextUserId + 1);
      && Login(t', email, password, compare) == Reply(OK, Some(SessionFor(u)))
      && GetProfile(t', Some(u.id)) == (if u.id == 0 then Fail(UNAUTHORIZED) else Reply(OK, Some(Public(u))))
  {
    var u := User(t.nextUserId, name, email, hash(password), role, now);
    var t' := t.(users := t.users + [u], nextUserId := t.nextUserId + 1);
    InsertUserConsistent(t, u);
    LoginSucceedsIff(t', email, password, compare, u);
    FirstUnique(t'.users, UserKey, u.id, u);
  }
}
