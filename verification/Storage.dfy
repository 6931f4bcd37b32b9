/** The database storage of `auth_users`: the three single-row lookups, user
    creation with a hashed password, and password verification. The table is
    a sequence of rows in insertion order together with the serial counter. */
module Storage {
  import opened Wrappers
  import opened Schema

  /** The per-call randomness of the hashing library. */
  type Salt = nat

  /** The password-hashing library: `hash(password, salt)` computes a digest
      and `compare(password, digest)` checks a password against one. */
  datatype Crypto = Crypto(hash: (string, Salt) -> string, compare: (string, string) -> bool)

  /** The library's promise: a password always matches its own digest. */
  ghost predicate HashVerifies(c: Crypto) {
    forall p, s :: c.compare(p, c.hash(p, s))
  }

  /** The table's rows and the next value of the `id` serial. */
  datatype Store = Store(users: seq<AuthUser>, nextId: nat)

  /** A freshly created table: no rows, the serial starts at 1. */
  const EmptyStore := Store([], 1)

  /** The table's constraints: ids come from the serial, and the primary key,
      username and email are unique. */
  predicate Valid(st: Store) {
    && st.nextId >= 1
    && (forall i :: 0 <= i < |st.users| ==> 1 <= st.users[i].id < st.nextId)
    && UniqueIds(st.users) && UniqueUsernames(st.users) && UniqueEmails(st.users)
  }

  /** The first row satisfying `p`, as a destructured `select ... where`. */
  function FindFirst(users: seq<AuthUser>, p: AuthUser -> bool): (r: Option<AuthUser>)
    ensures r.Some? ==> exists i :: 0 <= i < |users| && users[i] == r.value && p(users[i])
    ensures r.None? <==> forall i :: 0 <= i < |users| ==> !p(users[i])
    decreases |users|
  {
    if |users| == 0 then None
    else if p(users[0]) then Some(users[0])
    else
      var r := FindFirst(users[1..], p);
      assert forall i :: 1 <= i < |users| ==> users[i] == users[1..][i - 1];
      r
  }

  /** `getUser`: the row with the id, if any. */
  function GetUser(st: Store, id: int): (r: Option<AuthUser>)
    ensures r.Some? ==> r.value in st.users && r.value.id == id
    ensures r.None? <==> forall i :: 0 <= i < |st.users| ==> st.users[i].id != id
  {
    FindFirst(st.users, (u: AuthUser) => u.id == id)
  }

  /** `getUserByEmail`: the row with the e-mail, if any. */
  function GetUserByEmail(st: Store, email: string): (r: Option<AuthUser>)
    ensures r.Some? ==> r.value in st.users && r.value.email == email
    ensures r.None? <==> forall i :: 0 <= i < |st.users| ==> st.users[i].email != email
  {
    FindFirst(st.users, (u: AuthUser) => u.email == email)
  }

  /** `getUserByUsername`: the row with the username, if any. */
  function GetUserByUsername(st: Store, username: string): (r: Option<AuthUser>)
    ensures r.Some? ==> r.value in st.users && r.value.username == username
    ensures r.None? <==> forall i :: 0 <= i < |st.users| ==> st.users[i].username != username
  {
    FindFirst(st.users, (u: AuthUser) => u.username == username)
  }

  /** Under the constraints each lookup names a row exactly: whatever row has
      the key is the one returned. */
  lemma LookupsExact(st: Store, i: nat)
    requires Valid(st) && i < |st.users|
    ensures GetUser(st, st.users[i].id) == Some(st.users[i])
    ensures GetUserByEmail(st, st.users[i].email) == Some(st.users[i])
    ensures GetUserByUsername(st, st.users[i].username) == Some(st.users[i])
  {
  }

  // ---------------------------------------------------------------------
  // Insertion

  const PrimaryKey := "auth_users_pkey"
  const UsernameUnique := "auth_users_username_unique"
  const EmailUnique := "auth_users_email_unique"

  /** The database's message for a violated unique constraint. */
  function UniqueViolation(constraint: string): string {
    "duplicate key value violates unique constraint \"" + constraint + "\""
  }

  /** The table after an `insert` and what `createUser` returns or throws. */
  datatype Insertion = Insertion(store: Store, result: Result<AuthUser, string>)

  /** `createUser`: the serial is drawn first and is spent even if the insert
      fails; the row is rejected with the database's message when its id,
      username or email is already present (checked in that order);
      otherwise the row, with the password replaced by its digest and the
      creation time set, is appended and returned. */
  function CreateUser(c: Crypto, st: Store, input: InsertAuthUser, salt: Salt, now: int): (ins: Insertion)
    ensures ins.store.nextId == st.nextId + 1
    ensures ins.result.Success? <==>
              && GetUser(st, st.nextId).None?
              && GetUserByUsername(st, input.username).None?
              && GetUserByEmail(st, input.email).None?
    ensures ins.result.Failure? ==> ins.store.users == st.users
    ensures GetUser(st, st.nextId).None? && GetUserByUsername(st, input.username).Some? ==>
              ins.result == Failure(UniqueViolation(UsernameUnique))
    ensures ins.result.Success? ==>
              && ins.store.users == st.users + [ins.result.value]
              && ins.result.value.id == st.nextId
              && ins.result.value.username == input.username
              && ins.result.value.email == input.email
              && ins.result.value.password == c.hash(input.password, salt)
              && ins.result.value.createdAt == now
  {
    var id := st.nextId;
    var drawn := st.(nextId := id + 1);
    if GetUser(st, id).Some? then Insertion(drawn, Failure(UniqueViolation(PrimaryKey)))
    else if GetUserByUsername(st, input.username).Some? then Insertion(drawn, Failure(UniqueViolation(UsernameUnique)))
    else if GetUserByEmail(st, input.email).Some? then Insertion(drawn, Failure(UniqueViolation(EmailUnique)))
    else
      var user := AuthUser(id, input.username, input.email, c.hash(input.password, salt), now);
      Insertion(drawn.(users := st.users + [user]), Success(user))
  }

  /** Appending a row with the next serial id and a free username and e-mail
      keeps the table's constraints. */
  lemma AppendKeepsValid(st: Store, u: AuthUser)
    requires Valid(st) && u.id == st.nextId
    requires forall i :: 0 <= i < |st.users| ==> st.users[i].username != u.username
    requires forall i :: 0 <= i < |st.users| ==> st.users[i].email != u.email
    ensures Valid(Store(st.users + [u], st.nextId + 1))
  {
    var rows := st.users;
    var users := rows + [u];
    forall i | 0 <= i < |users| ensures 1 <= users[i].id < st.nextId + 1 {
      if i < |rows| {
        assert users[i] == rows[i];
      }
    }
    forall i, j | 0 <= i < j < |users|
      ensures users[i].id != users[j].id
      ensures users[i].username != users[j].username
      ensures users[i].email != users[j].email
    {
      assert users[i] == rows[i];
      if j < |rows| {
        assert users[j] == rows[j];
      }
    }
  }

  /** An insert keeps the table's constraints: the new row's id is above
      every existing one, and its username and e-mail were free. */
  lemma CreateUserKeepsValid(c: Crypto, st: Store, input: InsertAuthUser, salt: Salt, now: int)
    requires Valid(st)
    ensures Valid(CreateUser(c, st, input, salt, now).store)
  {
    var ins := CreateUser(c, st, input, salt, now);
    if ins.result.Success? {
      AppendKeepsValid(st, ins.result.value);
      assert ins.store == Store(st.users + [ins.result.value], st.nextId + 1);
    } else {
      assert ins.store == st.(nextId := st.nextId + 1);
    }
  }

  /** On a table that keeps its constraints the serial is always fresh, so
      only a taken username or e-mail can make `createUser` fail. */
  lemma SerialNeverCollides(c: Crypto, st: Store, input: InsertAuthUser, salt: Salt, now: int)
    requires Valid(st)
    ensures CreateUser(c, st, input, salt, now).result.Failure? <==>
              GetUserByUsername(st, input.username).Some? || GetUserByEmail(st, input.email).Some?
  {
    assert GetUser(st, st.nextId).None?;
  }

  /** `verifyPassword`: the library's comparison. */
  function VerifyPassword(c: Crypto, password: string, digest: string): (ok: bool)
    ensures HashVerifies(c) ==> forall s: Salt :: digest == c.hash(password, s) ==> ok
  {
    c.compare(password, digest)
  }

  /** The password a user was created with verifies against the stored row. */
  lemma CreatedPasswordVerifies(c: Crypto, st: Store, input: InsertAuthUser, salt: Salt, now: int)
    requires HashVerifies(c)
    requires CreateUser(c, st, input, salt, now).result.Success?
    ensures VerifyPassword(c, input.password, CreateUser(c, st, input, salt, now).result.value.password)
  {
  }
}
