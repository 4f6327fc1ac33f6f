/** The `login` and `register` handlers (src/handlers/auth_handler.rs) and the `auth_users`
    table they query and insert into. The database's answers come from the table; a lost
    connection, the Argon2 hashing outcome and the clock are parameters. */
module AuthHandler {
  import opened Wrappers
  import opened AuthModel

  datatype Status = StatusOk | StatusBadRequest | StatusUnauthorized | StatusInternalServerError {
    function Code(): int {
      match this
      case StatusOk => 200
      case StatusBadRequest => 400
      case StatusUnauthorized => 401
      case StatusInternalServerError => 500
    }
  }

  datatype HttpResponse = HttpResponse(status: Status, body: string)

  const InvalidCredentials := HttpResponse(StatusUnauthorized, "invalid credentials")
  const InternalServerError := HttpResponse(StatusInternalServerError, "Internal server error")
  const LoginSuccessful := HttpResponse(StatusOk, "Login successful")
  const UserRegistered := HttpResponse(StatusOk, "User registered successfully")

  /** Argon2, seen from the handlers: `PasswordHash::new` parses a stored PHC string and
      `verify_password` checks a plaintext against it. */
  datatype PasswordHash = PasswordHash(encoded: string)

  datatype HashError = HashError

  datatype PasswordHasher = PasswordHasher(
    parse: string -> Result<PasswordHash, HashError>,
    verify: (string, PasswordHash) -> bool)

  // ---------------------------------------------------------------------------
  // The two queries (`Entity::find().filter(..).one(db)`), as the first matching row
  // ---------------------------------------------------------------------------

  predicate IsActiveUser(m: Model, username: string) {
    m.username == username && m.active
  }

  predicate MatchesUsernameOrEmail(m: Model, username: string, email: string) {
    m.username == username || m.email == email
  }

  /** Row `i` is the first active row with that username. */
  predicate FirstActiveAt(rows: seq<Model>, username: string, i: int) {
    && 0 <= i < |rows|
    && IsActiveUser(rows[i], username)
    && forall j :: 0 <= j < i ==> !IsActiveUser(rows[j], username)
  }

  /** `filter(username = ..).filter(active = true).one()`. */
  function FindActiveByUsername(rows: seq<Model>, username: string): (r: Option<Model>)
    ensures r.None? <==> forall i :: 0 <= i < |rows| ==> !IsActiveUser(rows[i], username)
    ensures r.Some? ==> exists i :: FirstActiveAt(rows, username, i) && rows[i] == r.value
  {
    if rows == [] then None
    else if IsActiveUser(rows[0], username) then Some(rows[0])
    else
      var r := FindActiveByUsername(rows[1..], username);
      assert r.Some? ==> exists i :: FirstActiveAt(rows, username, i) && rows[i] == r.value by {
        if r.Some? {
          var i :| FirstActiveAt(rows[1..], username, i) && rows[1..][i] == r.value;
          assert rows[i + 1] == r.value;
          forall j | 0 <= j < i + 1 ensures !IsActiveUser(rows[j], username) {
            if j > 0 { assert rows[j] == rows[1..][j - 1]; }
          }
          assert FirstActiveAt(rows, username, i + 1);
        }
      }
      r
  }

  /** `filter(Condition::any().add(username = ..).add(email = ..)).one()`. */
  function FindByUsernameOrEmail(rows: seq<Model>, username: string, email: string): (r: Option<Model>)
    ensures r.None? <==> forall i :: 0 <= i < |rows| ==> !MatchesUsernameOrEmail(rows[i], username, email)
    ensures r.Some? ==> r.value in rows && MatchesUsernameOrEmail(r.value, username, email)
  {
    if rows == [] then None
    else if MatchesUsernameOrEmail(rows[0], username, email) then Some(rows[0])
    else
      var r := FindByUsernameOrEmail(rows[1..], username, email);
      assert r.Some? ==> r.value in rows by {
        if r.Some? {
          var i :| 0 <= i < |rows[1..]| && rows[1..][i] == r.value;
          assert rows[i + 1] == r.value;
        }
      }
      r
  }

  // ---------------------------------------------------------------------------
  // login
  // ---------------------------------------------------------------------------

  /** `login`: look the user up among the active rows, parse the stored hash, verify. */
  function Login(rows: seq<Model>, lookupFails: bool, form: LoginRequest, hasher: PasswordHasher): (resp: HttpResponse)
    ensures resp.status == StatusOk ==> resp == LoginSuccessful
    ensures resp.status == StatusUnauthorized ==> resp == InvalidCredentials
  {
    var user: Result<Option<Model>, DbErr> :=
      if lookupFails then Failure(ConnectionFailed) else Success(FindActiveByUsername(rows, form.username));
    match user
    case Failure(_) => InternalServerError
    case Success(None) => InvalidCredentials
    case Success(Some(res)) =>
      match hasher.parse(res.password)
      case Failure(_) => InternalServerError
      case Success(parsedHash) =>
        if hasher.verify(form.password, parsedHash) then LoginSuccessful else InvalidCredentials
  }

  /** A failed lookup is an internal error, whatever the credentials. */
  lemma LoginLookupErrorIsInternal(rows: seq<Model>, form: LoginRequest, hasher: PasswordHasher)
    ensures Login(rows, true, form, hasher) == InternalServerError
  {
  }

  /** Only an active row with the given username can be logged into: without one the answer
      is `invalid credentials`, whatever the password. */
  lemma LoginNeedsActiveMatchingUser(rows: seq<Model>, form: LoginRequest, hasher: PasswordHasher)
    requires forall i :: 0 <= i < |rows| ==> rows[i].username != form.username || !rows[i].active
    ensures Login(rows, false, form, hasher) == InvalidCredentials
  {
  }

  /** A stored hash that does not parse is an internal error, not a password mismatch. */
  lemma LoginCorruptHashIsInternal(rows: seq<Model>, form: LoginRequest, hasher: PasswordHasher)
    requires FindActiveByUsername(rows, form.username).Some?
    requires hasher.parse(FindActiveByUsername(rows, form.username).value.password).Failure?
    ensures Login(rows, false, form, hasher) == InternalServerError
    ensures Login(rows, false, form, hasher) != InvalidCredentials
  {
  }

  /** No enumeration: an unknown username and a wrong password get the same response. */
  lemma LoginNoEnumeration(
    rows: seq<Model>, unknown: LoginRequest, wrongPassword: LoginRequest, hasher: PasswordHasher)
    requires FindActiveByUsername(rows, unknown.username).None?
    requires FindActiveByUsername(rows, wrongPassword.username).Some?
    requires hasher.parse(FindActiveByUsername(rows, wrongPassword.username).value.password).Success?
    requires !hasher.verify(wrongPassword.password,
      hasher.parse(FindActiveByUsername(rows, wrongPassword.username).value.password).value)
    ensures Login(rows, false, unknown, hasher) == Login(rows, false, wrongPassword, hasher) == InvalidCredentials
  {
  }

  /** `Login successful` exactly when the user is found, the hash parses and the password verifies. */
  lemma LoginSucceedsIff(rows: seq<Model>, lookupFails: bool, form: LoginRequest, hasher: PasswordHasher)
    ensures Login(rows, lookupFails, form, hasher).status == StatusOk <==>
      && !lookupFails
      && FindActiveByUsername(rows, form.username).Some?
      && hasher.parse(FindActiveByUsername(rows, form.username).value.password).Success?
      && hasher.verify(form.password, hasher.parse(FindActiveByUsername(rows, form.username).value.password).value)
  {
  }

  /** The rows of the table that the login query can see. */
  function ActiveRows(rows: seq<Model>): (r: seq<Model>)
    ensures forall i :: 0 <= i < |r| ==> r[i].active
    ensures |r| <= |rows|
  {
    if rows == [] then [] else if rows[0].active then [rows[0]] + ActiveRows(rows[1..]) else ActiveRows(rows[1..])
  }

  lemma {:induction false} FindActiveInActiveRows(rows: seq<Model>, username: string)
    ensures FindActiveByUsername(ActiveRows(rows), username) == FindActiveByUsername(rows, username)
  {
    if rows != [] {
      FindActiveInActiveRows(rows[1..], username);
      if rows[0].active {
        assert ActiveRows(rows) == [rows[0]] + ActiveRows(rows[1..]);
        assert ([rows[0]] + ActiveRows(rows[1..]))[1..] == ActiveRows(rows[1..]);
      }
    }
  }

  /** Inactive rows never influence a login: dropping them gives the same response. */
  lemma LoginIgnoresInactiveRows(rows: seq<Model>, lookupFails: bool, form: LoginRequest, hasher: PasswordHasher)
    ensures Login(ActiveRows(rows), lookupFails, form, hasher) == Login(rows, lookupFails, form, hasher)
  {
    FindActiveInActiveRows(rows, form.username);
  }

  // ---------------------------------------------------------------------------
  // register: the conflict message
  // ---------------------------------------------------------------------------

  /** The 400 for a row the pre-check found: username first, then email, then the combined text. */
  function ConflictResponse(existing: Model, form: RegisterRequest): (resp: HttpResponse)
    ensures resp.status == StatusBadRequest && resp.status.Code() == 400
    ensures existing.username == form.username ==> resp.body == "username already exists"
    ensures existing.username != form.username && existing.email == form.email ==> resp.body == "email already exists"
    ensures existing.username != form.username && existing.email != form.email ==>
      resp.body == "username or email already exists"
  {
    if existing.username == form.username then HttpResponse(StatusBadRequest, "username already exists")
    else if existing.email == form.email then HttpResponse(StatusBadRequest, "email already exists")
    else HttpResponse(StatusBadRequest, "username or email already exists")
  }

  /** The row the pre-check returns always matches one of the two columns, so the combined
      message is never produced by `register`. */
  lemma ConflictNeverCombined(rows: seq<Model>, form: RegisterRequest)
    requires FindByUsernameOrEmail(rows, form.username, form.email).Some?
    ensures ConflictResponse(FindByUsernameOrEmail(rows, form.username, form.email).value, form).body
      in {"username already exists", "email already exists"}
  {
  }

  /** Scenario: an existing `a@x.com` under another username gives `email already exists`. */
  lemma EmailTakenScenario(other: Model, form: RegisterRequest)
    requires other.username != form.username && other.email == form.email
    ensures FindByUsernameOrEmail([other], form.username, form.email) == Some(other)
    ensures ConflictResponse(other, form) == HttpResponse(StatusBadRequest, "email already exists")
  {
  }

  // ---------------------------------------------------------------------------
  // The insert (`Entity::insert(am).exec(db)`) against the schema of `auth_users`
  // ---------------------------------------------------------------------------

  /** A column's value, or its schema default when the active model leaves it out. */
  function ColumnOr<T>(v: ActiveValue<T>, default: T): T {
    if v.IsPresent() then v.value else default
  }

  /** The row the database builds from an active model: `id` defaults to the next serial value,
      `active` to `true`; the other columns are NOT NULL without a default and must be given. */
  function InsertedRow(am: ActiveModel, autoId: int): (r: Result<Model, DbErr>)
    ensures r.Success? <==>
      && am.username.IsPresent() && am.password.IsPresent() && am.email.IsPresent()
      && am.phone.IsPresent() && am.createdAt.IsPresent() && am.updatedAt.IsPresent()
    ensures r.Success? ==>
      && r.value.id == (if am.id.IsPresent() then am.id.value else autoId)
      && r.value.active == (if am.active.IsPresent() then am.active.value else true)
      && r.value.username == am.username.value && r.value.password == am.password.value
      && r.value.email == am.email.value && r.value.phone == am.phone.value
      && r.value.createdAt == am.createdAt.value && r.value.updatedAt == am.updatedAt.value
    ensures r.Failure? ==> r.error.NotNullViolation?
  {
    if !am.username.IsPresent() then Failure(NotNullViolation("username"))
    else if !am.password.IsPresent() then Failure(NotNullViolation("password"))
    else if !am.email.IsPresent() then Failure(NotNullViolation("email"))
    else if !am.phone.IsPresent() then Failure(NotNullViolation("phone"))
    else if !am.createdAt.IsPresent() then Failure(NotNullViolation("created_at"))
    else if !am.updatedAt.IsPresent() then Failure(NotNullViolation("updated_at"))
    else Success(Model(
      ColumnOr(am.id, autoId), am.username.value, am.password.value, am.email.value, am.phone.value,
      ColumnOr(am.active, true), am.createdAt.value, am.updatedAt.value))
  }

  /** As written, `register` hands the database the model `From` builds, whose timestamps are
      not set: the insert is refused on `created_at`, for every request and hash. */
  lemma AsWrittenInsertRejected(form: RegisterRequest, passwordHash: string, autoId: int)
    ensures InsertedRow(FromRegister(form, passwordHash), autoId) == Failure(NotNullViolation("created_at"))
  {
  }

  /** With `before_save(insert = true)` applied first, the insert yields exactly the new user:
      the request's fields, the hash, `active = true` and both timestamps. */
  lemma HookedInsertAccepted(
    form: RegisterRequest, passwordHash: string, saved: ActiveModel,
    createdNow: DateTime, updatedNow: DateTime, autoId: int)
    requires BeforeSaveEffect(FromRegister(form, passwordHash), saved, true, createdNow, updatedNow)
    ensures InsertedRow(saved, autoId) ==
      Success(Model(autoId, form.username, passwordHash, form.email, form.phone, true, createdNow, updatedNow))
  {
  }

  // ---------------------------------------------------------------------------
  // Uniqueness, which rests on the pre-check alone (the schema declares no unique index)
  // ---------------------------------------------------------------------------

  predicate UsernamesUnique(rows: seq<Model>) {
    forall i, j :: 0 <= i < j < |rows| ==> rows[i].username != rows[j].username
  }

  predicate EmailsUnique(rows: seq<Model>) {
    forall i, j :: 0 <= i < j < |rows| ==> rows[i].email != rows[j].email
  }

  /** A row the pre-check did not object to keeps both columns unique. */
  lemma AppendKeepsUnique(rows: seq<Model>, row: Model)
    requires FindByUsernameOrEmail(rows, row.username, row.email).None?
    ensures UsernamesUnique(rows) ==> UsernamesUnique(rows + [row])
    ensures EmailsUnique(rows) ==> EmailsUnique(rows + [row])
  {
  }

  /** A user the pre-check let through is what a later login finds under that username. */
  lemma {:induction false} NewUserFoundByLogin(rows: seq<Model>, row: Model)
    requires FindByUsernameOrEmail(rows, row.username, row.email).None?
    requires row.active
    ensures FindActiveByUsername(rows + [row], row.username) == Some(row)
  {
    if rows != [] {
      assert !MatchesUsernameOrEmail(rows[0], row.username, row.email);
      assert (rows + [row])[1..] == rows[1..] + [row];
      NewUserFoundByLogin(rows[1..], row);
    }
  }

  /** Register then login: with a hasher that accepts the password for the stored hash,
      the new user logs in. */
  lemma LoginAfterRegister(rows: seq<Model>, row: Model, password: string, hasher: PasswordHasher)
    requires FindByUsernameOrEmail(rows, row.username, row.email).None?
    requires row.active
    requires hasher.parse(row.password).Success? && hasher.verify(password, hasher.parse(row.password).value)
    ensures Login(rows + [row], false, LoginRequest(row.username, password), hasher) == LoginSuccessful
  {
    NewUserFoundByLogin(rows, row);
  }

  // ---------------------------------------------------------------------------
  // The table and the handler that writes to it
  // ---------------------------------------------------------------------------

  class UserTable {
    var rows: seq<Model>
    var nextId: int

    ghost predicate Valid()
      reads this
    {
      && 1 <= nextId
      && (forall i :: 0 <= i < |rows| ==> rows[i].id < nextId)
      && (forall i, j :: 0 <= i < j < |rows| ==> rows[i].id != rows[j].id)
    }

    constructor ()
      ensures Valid() && rows == [] && nextId == 1
    {
      rows := [];
      nextId := 1;
    }

    predicate HasId(id: int)
      reads this
    {
      exists i :: 0 <= i < |rows| && rows[i].id == id
    }

    /** `Entity::insert(am).exec(db)`: build the row against the schema, refuse a duplicate
        primary key, append, and advance the serial past the new id. */
    method Insert(am: ActiveModel, connectionFails: bool) returns (r: Result<int, DbErr>)
      requires Valid()
      modifies this
      ensures Valid()
      ensures connectionFails ==> r == Failure(ConnectionFailed)
      ensures !connectionFails && InsertedRow(am, old(nextId)).Failure? ==> r == Failure(InsertedRow(am, old(nextId)).error)
      ensures !connectionFails && InsertedRow(am, old(nextId)).Success? && old(HasId(InsertedRow(am, nextId).value.id)) ==>
        r == Failure(PrimaryKeyViolation)
      ensures r.Success? <==>
        !connectionFails && InsertedRow(am, old(nextId)).Success? && !old(HasId(InsertedRow(am, nextId).value.id))
      ensures r.Success? ==>
        r.value == InsertedRow(am, old(nextId)).value.id && rows == old(rows) + [InsertedRow(am, old(nextId)).value]
      ensures r.Success? ==> nextId == (if r.value < old(nextId) then old(nextId) else r.value + 1)
      ensures r.Failure? ==> rows == old(rows) && nextId == old(nextId)
    {
      if connectionFails {
        return Failure(ConnectionFailed);
      }
      var row := InsertedRow(am, nextId);
      if row.Failure? {
        return Failure(row.error);
      }
      if HasId(row.value.id) {
        return Failure(PrimaryKeyViolation);
      }
      rows := rows + [row.value];
      nextId := if row.value.id < nextId then nextId else row.value.id + 1;
      return Success(row.value.id);
    }

    /** `register` as the model's corrected form: the pre-check, the hash, and an insert that
        first runs `before_save(insert = true)`, as `ActiveModelTrait::insert` does. */
    method Register(
      form: RegisterRequest, lookupFails: bool, hashed: Result<string, HashError>, insertFails: bool,
      createdNow: DateTime, updatedNow: DateTime) returns (resp: HttpResponse)
      requires Valid()
      modifies this
      ensures Valid()
      ensures lookupFails ==> resp == InternalServerError
      ensures !lookupFails && FindByUsernameOrEmail(old(rows), form.username, form.email).Some? ==>
        resp == ConflictResponse(FindByUsernameOrEmail(old(rows), form.username, form.email).value, form)
      ensures (!lookupFails && FindByUsernameOrEmail(old(rows), form.username, form.email).None? &&
               (hashed.Failure? || insertFails)) ==> resp == InternalServerError
      ensures resp == UserRegistered <==>
        !lookupFails && FindByUsernameOrEmail(old(rows), form.username, form.email).None? && hashed.Success? && !insertFails
      ensures resp == UserRegistered ==>
        rows == old(rows) + [Model(old(nextId), form.username, hashed.value, form.email, form.phone, true, createdNow, updatedNow)]
      ensures resp != UserRegistered ==> rows == old(rows)
      ensures resp == UserRegistered ==> nextId == old(nextId) + 1
      ensures resp != UserRegistered ==> nextId == old(nextId)
      ensures UsernamesUnique(old(rows)) ==> UsernamesUnique(rows)
      ensures EmailsUnique(old(rows)) ==> EmailsUnique(rows)
    {
      var user: Result<Option<Model>, DbErr> :=
        if lookupFails then Failure(ConnectionFailed) else Success(FindByUsernameOrEmail(rows, form.username, form.email));
      match user {
        case Success(Some(res)) => return ConflictResponse(res, form);
        case Failure(_) => return InternalServerError;
        case Success(None) =>
      }
      if hashed.Failure? {
        return InternalServerError;
      }
      var passwordHash := hashed.value;
      var createUser := FromRegister(form, passwordHash);
      var saved := BeforeSave(createUser, true, createdNow, updatedNow);
      if saved.Failure? {
        return InternalServerError;
      }
      HookedInsertAccepted(form, passwordHash, saved.value, createdNow, updatedNow, nextId);
      var newRow := InsertedRow(saved.value, nextId).value;
      assert !HasId(newRow.id);
      AppendKeepsUnique(rows, newRow);
      var inserted := Insert(saved.value, insertFails);
      if inserted.Success? {
        return UserRegistered;
      } else {
        return InternalServerError;
      }
    }

    /** `register` as the source writes it: the model from `From` goes to `Entity::insert`
        untouched, so the hook never runs and no registration can succeed. */
    method RegisterAsWritten(
      form: RegisterRequest, lookupFails: bool, hashed: Result<string, HashError>, insertFails: bool)
      returns (resp: HttpResponse)
      requires Valid()
      modifies this
      ensures Valid()
      ensures rows == old(rows) && nextId == old(nextId)
      ensures resp != UserRegistered && resp.status != StatusOk
      ensures lookupFails ==> resp == InternalServerError
      ensures !lookupFails && FindByUsernameOrEmail(old(rows), form.username, form.email).Some? ==>
        resp == ConflictResponse(FindByUsernameOrEmail(old(rows), form.username, form.email).value, form)
      ensures !lookupFails && FindByUsernameOrEmail(old(rows), form.username, form.email).None? ==>
        resp == InternalServerError
    {
      var user: Result<Option<Model>, DbErr> :=
        if lookupFails then Failure(ConnectionFailed) else Success(FindByUsernameOrEmail(rows, form.username, form.email));
      match user {
        case Success(Some(res)) => return ConflictResponse(res, form);
        case Failure(_) => return InternalServerError;
        case Success(None) =>
      }
      if hashed.Failure? {
        return InternalServerError;
      }
      var passwordHash := hashed.value;
      var createUser := FromRegister(form, passwordHash);
      AsWrittenInsertRejected(form, passwordHash, nextId);
      var inserted := Insert(createUser, insertFails);
      if inserted.Success? {
        return UserRegistered;
      } else {
        return InternalServerError;
      }
    }
  }
}
