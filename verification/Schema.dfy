/** The shared schema: the `auth_users` row, the registration and login
    input schemas, and the table's uniqueness constraints. */
module Schema {
  import opened Wrappers
  import opened Validation

  /** A value in a JSON request body. */
  datatype Json = JString(str: string) | JNumber(num: int) | JBool(flag: bool) | JNull | JArray | JObject

  /** A JSON request body: its top-level keys and values. */
  type Body = map<string, Json>

  /** A row of `admin_panel.auth_users`. `id` is the serial primary key,
      `password` holds the stored digest, `createdAt` the insertion time. */
  datatype AuthUser = AuthUser(id: nat, username: string, email: string, password: string, createdAt: int)

  /** `insertAuthUserSchema`'s output: the row's columns minus the generated
      `id` and `createdAt`; every one is a required string. */
  datatype InsertAuthUser = InsertAuthUser(username: string, email: string, password: string)

  /** `loginSchema`'s output. */
  datatype LoginData = LoginData(email: string, password: string)

  function TypeName(v: Json): string {
    match v
    case JString(_) => "string"
    case JNumber(_) => "number"
    case JBool(_) => "boolean"
    case JNull => "null"
    case JArray => "array"
    case JObject => "object"
  }

  predicate HasString(body: Body, key: string) {
    key in body && body[key].JString?
  }

  /** A required string field: absent gives "Required", any other type gives
      the library's type-mismatch issue. */
  function StringField(body: Body, key: string): (r: Result<string, Issue>)
    ensures r.Success? <==> HasString(body, key)
    ensures r.Success? ==> r.value == body[key].str
    ensures r.Failure? ==> r.error.path == key
  {
    if key !in body then Failure(Issue(key, "Required"))
    else match body[key]
      case JString(s) => Success(s)
      case other => Failure(Issue(key, "Expected string, received " + TypeName(other)))
  }

  function IssuesOf<T>(r: Result<T, Issue>): seq<Issue> {
    if r.Failure? then [r.error] else []
  }

  /** `insertAuthUserSchema.parse`: succeeds exactly when username, email and
      password are all strings (empty strings included, no e-mail syntax
      check); otherwise reports one issue per failing field. Other keys,
      `id` and `createdAt` among them, are dropped. */
  function ParseInsertAuthUser(body: Body): (r: Result<InsertAuthUser, seq<Issue>>)
    ensures r.Success? <==>
              HasString(body, "username") && HasString(body, "email") && HasString(body, "password")
    ensures r.Success? ==>
              r.value == InsertAuthUser(body["username"].str, body["email"].str, body["password"].str)
    ensures r.Failure? ==> |r.error| >= 1
  {
    var username := StringField(body, "username");
    var email := StringField(body, "email");
    var password := StringField(body, "password");
    if username.Success? && email.Success? && password.Success? then
      Success(InsertAuthUser(username.value, email.value, password.value))
    else
      Failure(IssuesOf(username) + IssuesOf(email) + IssuesOf(password))
  }

  /** The e-mail field of `loginSchema`: a string that passes the e-mail check. */
  function EmailField(body: Body, isEmail: EmailSyntax): Result<string, Issue> {
    var r := StringField(body, "email");
    if r.Success? && !isEmail(r.value) then Failure(Issue("email", "Invalid email")) else r
  }

  /** The password field of `loginSchema`: a string of at least one character. */
  function PasswordField(body: Body): Result<string, Issue> {
    var r := StringField(body, "password");
    if r.Success? && |r.value| < 1 then
      Failure(Issue("password", "String must contain at least 1 character(s)"))
    else r
  }

  /** `loginSchema.parse`: a syntactically valid e-mail and a non-empty password. */
  function ParseLogin(body: Body, isEmail: EmailSyntax): (r: Result<LoginData, seq<Issue>>)
    ensures r.Success? <==>
              && HasString(body, "email") && isEmail(body["email"].str)
              && HasString(body, "password") && |body["password"].str| >= 1
    ensures r.Success? ==> r.value == LoginData(body["email"].str, body["password"].str)
    ensures r.Failure? ==> |r.error| >= 1
  {
    var email := EmailField(body, isEmail);
    var password := PasswordField(body);
    if email.Success? && password.Success? then Success(LoginData(email.value, password.value))
    else Failure(IssuesOf(email) + IssuesOf(password))
  }

  /** Registration input never carries `id` or `createdAt`: setting any key
      other than the three columns, those two included, leaves the parse
      unchanged; the same holds for login and its two fields. */
  lemma ParsersIgnoreOtherKeys(body: Body, key: string, v: Json, isEmail: EmailSyntax)
    ensures key !in {"username", "email", "password"} ==>
              ParseInsertAuthUser(body[key := v]) == ParseInsertAuthUser(body)
    ensures key !in {"email", "password"} ==>
              ParseLogin(body[key := v], isEmail) == ParseLogin(body, isEmail)
  {
    var body' := body[key := v];
    if key !in {"username", "email", "password"} {
      assert StringField(body', "username") == StringField(body, "username");
    }
    if key !in {"email", "password"} {
      assert StringField(body', "email") == StringField(body, "email");
      assert StringField(body', "password") == StringField(body, "password");
    }
  }

  // ---------------------------------------------------------------------
  // Table constraints

  /** `username` is `unique()`. */
  predicate UniqueUsernames(users: seq<AuthUser>) {
    forall i, j :: 0 <= i < j < |users| ==> users[i].username != users[j].username
  }

  /** `email` is `unique()`. */
  predicate UniqueEmails(users: seq<AuthUser>) {
    forall i, j :: 0 <= i < j < |users| ==> users[i].email != users[j].email
  }

  /** `id` is the primary key. */
  predicate UniqueIds(users: seq<AuthUser>) {
    forall i, j :: 0 <= i < j < |users| ==> users[i].id != users[j].id
  }
}
