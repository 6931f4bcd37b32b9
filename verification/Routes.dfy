/** The authentication endpoints: register, login, logout and the current
    user, over the `auth_users` table and the session's `userId`. Each handler
    maps a server state and a request to a new server state and a response. */
module Routes {
  import opened Wrappers
  import opened Validation
  import opened Schema
  import opened Storage

  /** The session's `userId`: absent until a login stores one. */
  type Session = Option<nat>

  /** A user as sent to the client: every column but the password. */
  datatype PublicUser = PublicUser(id: nat, username: string, email: string, createdAt: int)

  function WithoutPassword(u: AuthUser): PublicUser {
    PublicUser(u.id, u.username, u.email, u.createdAt)
  }

  /** A response's `message`: a fixed or database text, or the validation
      issues the schema library serialises into its error message. */
  datatype Message = Text(text: string) | Invalid(issues: seq<Issue>)

  /** The JSON bodies the endpoints send. */
  datatype Payload =
    | Note(message: Message)
    | WithUser(message: Message, user: PublicUser)
    | UserOnly(user: PublicUser)

  datatype Response = Response(status: nat, payload: Payload)

  /** The table and the requesting client's session. */
  datatype Server = Server(store: Store, session: Session)

  datatype Outcome = Outcome(server: Server, response: Response)

  /** The libraries the handlers call: password hashing and the e-mail check. */
  datatype Libraries = Libraries(crypto: Crypto, isEmail: EmailSyntax)

  const EmailTaken := "Email already registered"
  const UsernameTaken := "Username already taken"
  const RegistrationFailed := "Registration failed"
  const Registered := "Registration successful"
  const BadCredentials := "Invalid email or password"
  const LoggedIn := "Login successful"
  const LogoutFailed := "Logout failed"
  const LoggedOut := "Logout successful"
  const NotAuthenticated := "Not authenticated"
  const UserNotFound := "User not found"

  function Reply(status: nat, text: string): Response {
    Response(status, Note(Text(text)))
  }

  /** `message || fallback`: an empty message is falsy. */
  function MessageOr(message: string, fallback: string): string {
    if message == "" then fallback else message
  }

  /** Rows are only ever added at the end, at most one per request. */
  predicate AppendsAtMostOne(before: Store, after: Store) {
    && |before.users| <= |after.users| <= |before.users| + 1
    && after.users[..|before.users|] == before.users
  }

  // ---------------------------------------------------------------------
  // POST /api/register

  /** Parse the body, refuse a taken e-mail and then a taken username,
      create the user and return it without its password; a failed insert
      reports the database's message. The session is never touched. */
  function Register(lib: Libraries, srv: Server, body: Body, salt: Salt, now: int): (o: Outcome)
    ensures o.server.session == srv.session
    ensures o.response.status == 200 || o.response.status == 400
    ensures AppendsAtMostOne(srv.store, o.server.store)
    ensures o.response.status == 200 <==> |o.server.store.users| == |srv.store.users| + 1
    ensures Valid(srv.store) ==> Valid(o.server.store)
  {
    var parsed := ParseInsertAuthUser(body);
    if parsed.Failure? then Outcome(srv, Response(400, Note(Invalid(parsed.error))))
    else
      var input := parsed.value;
      if GetUserByEmail(srv.store, input.email).Some? then Outcome(srv, Reply(400, EmailTaken))
      else if GetUserByUsername(srv.store, input.username).Some? then Outcome(srv, Reply(400, UsernameTaken))
      else
        var ins := CreateUser(lib.crypto, srv.store, input, salt, now);
        var srv' := srv.(store := ins.store);
        assert Valid(srv.store) ==> Valid(ins.store) by {
          if Valid(srv.store) { CreateUserKeepsValid(lib.crypto, srv.store, input, salt, now); }
        }
        match ins.result
        case Failure(message) => Outcome(srv', Reply(400, MessageOr(message, RegistrationFailed)))
        case Success(user) => Outcome(srv', Response(200, WithUser(Text(Registered), WithoutPassword(user))))
  }

  /** A body the schema rejects gets 400 with the issues and changes nothing. */
  lemma RegisterRejectsInvalidBody(lib: Libraries, srv: Server, body: Body, salt: Salt, now: int)
    requires !(HasString(body, "username") && HasString(body, "email") && HasString(body, "password"))
    ensures var o := Register(lib, srv, body, salt, now);
      && o.server == srv
      && o.response.status == 400
      && o.response.payload.Note? && o.response.payload.message.Invalid?
      && |o.response.payload.message.issues| >= 1
  {
  }

  /** A taken e-mail is reported before a taken username, and either refusal
      changes nothing. */
  lemma RegisterConflicts(lib: Libraries, srv: Server, body: Body, salt: Salt, now: int)
    requires HasString(body, "username") && HasString(body, "email") && HasString(body, "password")
    ensures GetUserByEmail(srv.store, body["email"].str).Some? ==>
              Register(lib, srv, body, salt, now) == Outcome(srv, Reply(400, EmailTaken))
    ensures GetUserByEmail(srv.store, body["email"].str).None?
            && GetUserByUsername(srv.store, body["username"].str).Some? ==>
              Register(lib, srv, body, salt, now) == Outcome(srv, Reply(400, UsernameTaken))
  {
  }

  /** On a consistent table, fresh credentials always register: the row gets
      the next serial id, the digest of the password and the current time,
      and the reply carries the row without its password. */
  lemma RegisterSuccess(lib: Libraries, srv: Server, body: Body, salt: Salt, now: int)
    requires Valid(srv.store)
    requires HasString(body, "username") && HasString(body, "email") && HasString(body, "password")
    requires GetUserByEmail(srv.store, body["email"].str).None?
    requires GetUserByUsername(srv.store, body["username"].str).None?
    ensures var o := Register(lib, srv, body, salt, now);
      var row := AuthUser(srv.store.nextId, body["username"].str, body["email"].str,
                          lib.crypto.hash(body["password"].str, salt), now);
      && o.server == Server(Store(srv.store.users + [row], srv.store.nextId + 1), srv.session)
      && o.response == Response(200, WithUser(Text(Registered),
                          PublicUser(srv.store.nextId, body["username"].str, body["email"].str, now)))
  {
    SerialNeverCollides(lib.crypto, srv.store, ParseInsertAuthUser(body).value, salt, now);
  }

  /** On a consistent table a 400 always names the cause: invalid input, a
      taken e-mail or a taken username; the database's own error never
      reaches the client. */
  lemma RegisterFailureCauses(lib: Libraries, srv: Server, body: Body, salt: Salt, now: int)
    requires Valid(srv.store)
    ensures var o := Register(lib, srv, body, salt, now);
      o.response.status == 400 ==>
        && o.server == srv
        && (o.response.payload == Note(Text(EmailTaken))
            || o.response.payload == Note(Text(UsernameTaken))
            || (o.response.payload.Note? && o.response.payload.message.Invalid?))
  {
    var parsed := ParseInsertAuthUser(body);
    if parsed.Success? {
      SerialNeverCollides(lib.crypto, srv.store, parsed.value, salt, now);
    }
  }

  // ---------------------------------------------------------------------
  // POST /api/login

  /** Parse the body, look the user up by e-mail, compare the password with
      the stored digest, and on success store the user's id in the session. */
  function Login(lib: Libraries, srv: Server, body: Body): (o: Outcome)
    ensures o.server.store == srv.store
    ensures o.response.status == 200 || o.response.status == 400 || o.response.status == 401
    ensures o.response.status != 200 ==> o.server == srv
    ensures o.response.status == 200 ==>
              && o.server.session.Some?
              && GetUser(srv.store, o.server.session.value).Some?
    ensures o.response.status == 400 <==> ParseLogin(body, lib.isEmail).Failure?
    ensures ParseLogin(body, lib.isEmail).Failure? ==>
              o == Outcome(srv, Response(400, Note(Invalid(ParseLogin(body, lib.isEmail).error))))
  {
    var parsed := ParseLogin(body, lib.isEmail);
    if parsed.Failure? then Outcome(srv, Response(400, Note(Invalid(parsed.error))))
    else
      match GetUserByEmail(srv.store, parsed.value.email)
      case None => Outcome(srv, Reply(401, BadCredentials))
      case Some(user) =>
        if !VerifyPassword(lib.crypto, parsed.value.password, user.password) then
          Outcome(srv, Reply(401, BadCredentials))
        else
          Outcome(srv.(session := Some(user.id)), Response(200, WithUser(Text(LoggedIn), WithoutPassword(user))))
  }

  /** An unknown e-mail and a wrong password get the very same 401, so the
      reply does not tell which one failed; a 401 happens exactly then. */
  lemma LoginFailuresIndistinguishable(lib: Libraries, srv: Server, body: Body)
    requires ParseLogin(body, lib.isEmail).Success?
    ensures var email := body["email"].str;
      var o := Login(lib, srv, body);
      o.response.status == 401 <==>
        || GetUserByEmail(srv.store, email).None?
        || !VerifyPassword(lib.crypto, body["password"].str, GetUserByEmail(srv.store, email).value.password)
    ensures Login(lib, srv, body).response.status == 401 ==>
              Login(lib, srv, body) == Outcome(srv, Reply(401, BadCredentials))
  {
  }

  /** A successful login signs in exactly the row with the e-mail, after its
      password verified, and sends that row without its password. */
  lemma LoginSuccess(lib: Libraries, srv: Server, body: Body)
    requires Login(lib, srv, body).response.status == 200
    ensures var u := GetUserByEmail(srv.store, body["email"].str);
      && ParseLogin(body, lib.isEmail).Success?
      && u.Some?
      && VerifyPassword(lib.crypto, body["password"].str, u.value.password)
      && Login(lib, srv, body) ==
           Outcome(srv.(session := Some(u.value.id)), Response(200, WithUser(Text(LoggedIn), WithoutPassword(u.value))))
  {
  }

  /** Registration accepts any three strings, but login does not: an account
      registered with a malformed e-mail or an empty password can never sign
      in, because every login body with those credentials is refused with
      400 before the table is consulted, whatever the table holds. */
  lemma UnusableCredentials(lib: Libraries, srv: Server, email: string, password: string)
    requires !lib.isEmail(email) || password == ""
    ensures var o := Login(lib, srv, LoginBody(email, password));
      && o.server == srv
      && o.response.status == 400
      && o.response.payload.Note? && o.response.payload.message.Invalid?
  {
    var body := LoginBody(email, password);
    assert body["email"].str == email && body["password"].str == password;
  }

  // ---------------------------------------------------------------------
  // POST /api/logout and GET /api/me

  /** `session.destroy`: when the session store reports an error the reply is
      500 and the session stays; otherwise the session is gone. */
  function Logout(srv: Server, storeFails: bool): (o: Outcome)
    ensures o.server.store == srv.store
    ensures storeFails <==> o.response.status == 500
    ensures storeFails ==> o.server.session == srv.session
    ensures !storeFails ==> o.server.session.None? && o.response == Reply(200, LoggedOut)
  {
    if storeFails then Outcome(srv, Reply(500, LogoutFailed))
    else Outcome(srv.(session := None), Reply(200, LoggedOut))
  }

  /** `!userId`: no id, or the falsy id 0. */
  predicate SignedIn(session: Session) {
    session.Some? && session.value != 0
  }

  /** 401 without a (truthy) user id, 404 when the id names no row, else the
      row without its password. Nothing changes. */
  function Me(srv: Server): (o: Outcome)
    ensures o.server == srv
    ensures o.response.status == 401 <==> !SignedIn(srv.session)
    ensures o.response.status == 404 <==> SignedIn(srv.session) && GetUser(srv.store, srv.session.value).None?
    ensures o.response.status == 200 <==> SignedIn(srv.session) && GetUser(srv.store, srv.session.value).Some?
    ensures o.response.status == 200 ==>
              && o.response.payload.UserOnly? && o.response.payload.user.id == srv.session.value
              && o.response.payload == UserOnly(WithoutPassword(GetUser(srv.store, srv.session.value).value))
  {
    if !SignedIn(srv.session) then Outcome(srv, Reply(401, NotAuthenticated))
    else match GetUser(srv.store, srv.session.value)
      case None => Outcome(srv, Reply(404, UserNotFound))
      case Some(user) => Outcome(srv, Response(200, UserOnly(WithoutPassword(user))))
  }

  /** After a successful logout the current-user endpoint answers 401. */
  lemma LogoutThenMe(srv: Server)
    ensures Me(Logout(srv, false).server).response == Reply(401, NotAuthenticated)
  {
  }

  // ---------------------------------------------------------------------
  // The server as a whole

  datatype Request =
    | RegisterRequest(body: Body, salt: Salt, now: int)
    | LoginRequest(body: Body)
    | LogoutRequest(storeFails: bool)
    | MeRequest

  function Handle(lib: Libraries, srv: Server, req: Request): (o: Outcome)
    ensures AppendsAtMostOne(srv.store, o.server.store)
  {
    match req
    case RegisterRequest(body, salt, now) => Register(lib, srv, body, salt, now)
    case LoginRequest(body) => Login(lib, srv, body)
    case LogoutRequest(storeFails) => Logout(srv, storeFails)
    case MeRequest => Me(srv)
  }

  /** The table keeps its constraints and a session id names an existing row. */
  predicate Consistent(srv: Server) {
    && Valid(srv.store)
    && (srv.session.Some? ==> GetUser(srv.store, srv.session.value).Some?)
  }

  /** A row that exists keeps existing when rows are appended. */
  lemma {:induction false} GetUserSurvivesAppend(before: Store, after: Store, id: int)
    requires AppendsAtMostOne(before, after)
    requires GetUser(before, id).Some?
    ensures GetUser(after, id).Some?
  {
    var k :| 0 <= k < |before.users| && before.users[k].id == id;
    assert after.users[k] == after.users[..|before.users|][k];
  }

  /** Every request keeps the server consistent. */
  lemma {:induction false} HandleKeepsConsistent(lib: Libraries, srv: Server, req: Request)
    requires Consistent(srv)
    ensures Consistent(Handle(lib, srv, req).server)
  {
    var o := Handle(lib, srv, req);
    if req.RegisterRequest? && srv.session.Some? {
      GetUserSurvivesAppend(srv.store, o.server.store, srv.session.value);
    }
  }

  /** Any sequence of requests from an empty table and no session. */
  function Run(lib: Libraries, srv: Server, reqs: seq<Request>): Server
    decreases |reqs|
  {
    if |reqs| == 0 then srv else Run(lib, Handle(lib, srv, reqs[0]).server, reqs[1..])
  }

  /** In every reachable state the current-user endpoint never answers 404:
      a session only ever names a row that exists, and rows are never
      removed. */
  lemma {:induction false} ReachableNeverNotFound(lib: Libraries, srv: Server, reqs: seq<Request>)
    requires Consistent(srv)
    ensures Consistent(Run(lib, srv, reqs))
    ensures Me(Run(lib, srv, reqs)).response.status != 404
    decreases |reqs|
  {
    if |reqs| > 0 {
      HandleKeepsConsistent(lib, srv, reqs[0]);
      ReachableNeverNotFound(lib, Handle(lib, srv, reqs[0]).server, reqs[1..]);
    }
  }

  /** The empty table with no session is consistent. */
  lemma InitiallyConsistent()
    ensures Consistent(Server(EmptyStore, None))
  {
  }

  // ---------------------------------------------------------------------
  // Register then log in

  function RegisterBody(username: string, email: string, password: string): Body {
    map["username" := JString(username), "email" := JString(email), "password" := JString(password)]
  }

  function LoginBody(email: string, password: string): Body {
    map["email" := JString(email), "password" := JString(password)]
  }

  /** A row whose digest came from the password logs in with its e-mail and
      that password, and the current user is then that row. */
  lemma {:induction false} LoginAsRow(lib: Libraries, srv: Server, i: nat, password: string, salt: Salt)
    requires Valid(srv.store) && i < |srv.store.users|
    requires HashVerifies(lib.crypto)
    requires lib.isEmail(srv.store.users[i].email) && |password| >= 1
    requires srv.store.users[i].password == lib.crypto.hash(password, salt)
    ensures var l := Login(lib, srv, LoginBody(srv.store.users[i].email, password));
      && l.server == srv.(session := Some(srv.store.users[i].id))
      && l.response.status == 200
      && Me(l.server).response.payload == UserOnly(WithoutPassword(srv.store.users[i]))
  {
    var u := srv.store.users[i];
    var body := LoginBody(u.email, password);
    assert body["email"].str == u.email && body["password"].str == password;
    LookupsExact(srv.store, i);
    assert VerifyPassword(lib.crypto, password, u.password);
  }

  /** A user who registered successfully can log in with the same e-mail and
      password (given a valid e-mail and a non-empty password), and is then
      signed in as the new row. */
  lemma {:induction false} RegisterThenLogin(lib: Libraries, srv: Server, username: string, email: string,
                                             password: string, salt: Salt, now: int)
    requires Valid(srv.store)
    requires HashVerifies(lib.crypto)
    requires lib.isEmail(email) && |password| >= 1
    requires Register(lib, srv, RegisterBody(username, email, password), salt, now).response.status == 200
    ensures var r := Register(lib, srv, RegisterBody(username, email, password), salt, now);
      var l := Login(lib, r.server, LoginBody(email, password));
      && l.response.status == 200
      && l.server.session == Some(srv.store.nextId)
      && Me(l.server).response.payload == UserOnly(PublicUser(srv.store.nextId, username, email, now))
  {
    var body := RegisterBody(username, email, password);
    assert body["email"].str == email && body["username"].str == username && body["password"].str == password;
    var r := Register(lib, srv, body, salt, now);
    RegisterConflicts(lib, srv, body, salt, now);
    RegisterSuccess(lib, srv, body, salt, now);
    var row := AuthUser(srv.store.nextId, username, email, lib.crypto.hash(password, salt), now);
    assert r.server.store.users == srv.store.users + [row];
    LoginAsRow(lib, r.server, |srv.store.users|, password, salt);
  }

  /** The sign-up flow end to end: register, log in, read the current user,
      log out, and read it again. */
  lemma SignUpFlow(lib: Libraries, salt: Salt, now: int)
    requires HashVerifies(lib.crypto)
    requires lib.isEmail("alice@example.com")
    ensures var s0 := Server(EmptyStore, None);
      var r := Register(lib, s0, RegisterBody("alice", "alice@example.com", "Secret123"), salt, now);
      var l := Login(lib, r.server, LoginBody("alice@example.com", "Secret123"));
      var m := Me(l.server);
      var out := Logout(m.server, false);
      var again := Me(out.server);
      && r.response == Response(200, WithUser(Text(Registered), PublicUser(1, "alice", "alice@example.com", now)))
      && l.response.status == 200
      && m.response == Response(200, UserOnly(PublicUser(1, "alice", "alice@example.com", now)))
      && out.response.status == 200
      && again.response.status == 401
  {
    var s0 := Server(EmptyStore, None);
    var body := RegisterBody("alice", "alice@example.com", "Secret123");
    assert body["email"].str == "alice@example.com" && body["username"].str == "alice";
    RegisterSuccess(lib, s0, body, salt, now);
    RegisterThenLogin(lib, s0, "alice", "alice@example.com", "Secret123", salt, now);
  }
}
