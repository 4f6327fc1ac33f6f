/** The `auth_users` entity, its active model, the request DTOs and their rules
    (src/models/auth_model.rs). */
module AuthModel {
  import opened Wrappers

  /** chrono's `NaiveDateTime`, as an abstract instant. */
  type DateTime = int

  /** A row of `auth_users` as SeaORM reads it back (`Model`). */
  datatype Model = Model(
    id: int,
    username: string,
    password: string,
    email: string,
    phone: string,
    active: bool,
    createdAt: DateTime,
    updatedAt: DateTime)

  /** SeaORM's `ActiveValue`: a column the next save writes, one it keeps, or one it leaves out. */
  datatype ActiveValue<T> = Set(value: T) | Unchanged(value: T) | NotSet {
    predicate IsPresent() { !NotSet? }
  }

  /** The `ActiveModel` derived from `Model`: every column wrapped in an `ActiveValue`. */
  datatype ActiveModel = ActiveModel(
    id: ActiveValue<int>,
    username: ActiveValue<string>,
    password: ActiveValue<string>,
    email: ActiveValue<string>,
    phone: ActiveValue<string>,
    active: ActiveValue<bool>,
    createdAt: ActiveValue<DateTime>,
    updatedAt: ActiveValue<DateTime>)

  /** `ActiveModel::default()`: nothing set. */
  const DefaultActiveModel: ActiveModel :=
    ActiveModel(NotSet, NotSet, NotSet, NotSet, NotSet, NotSet, NotSet, NotSet)

  /** SeaORM's `DbErr`, reduced to the failures this model distinguishes. */
  datatype DbErr = ConnectionFailed | NotNullViolation(column: string) | PrimaryKeyViolation

  datatype LoginRequest = LoginRequest(username: string, password: string)

  datatype RegisterRequest = RegisterRequest(username: string, password: string, email: string, phone: string)

  // ---------------------------------------------------------------------------
  // Validation rules of RegisterRequest (derive(Validate))
  // ---------------------------------------------------------------------------

  const UsernameMinLength := 3
  const UsernameMaxLength := 30
  const PasswordMinLength := 8
  const PasswordMaxLength := 100
  const PhoneMinLength := 10
  const PhoneMaxLength := 15

  const UsernameMessage := "Username must be between 3 and 30 characters"
  const PasswordMessage := "Password must be between 8 and 100 characters"
  const EmailMessage := "Invalid email format"
  const PhoneMessage := "Phone number must be between 10 and 15 digits"

  datatype Field = UsernameField | PasswordField | EmailField | PhoneField

  /** The `length(min, max)` rule of the validator crate: a bound on the number of characters. */
  predicate LengthWithin(s: string, min: nat, max: nat) {
    min <= |s| <= max
  }

  /** `RegisterRequest::validate()`: the fields that break their rule, each with its message.
      The email-format rule belongs to the validator crate and is the parameter `isEmail`. */
  function Validate(r: RegisterRequest, isEmail: string -> bool): (errors: map<Field, string>)
    ensures UsernameField in errors <==> !(3 <= |r.username| <= 30)
    ensures PasswordField in errors <==> !(8 <= |r.password| <= 100)
    ensures PhoneField in errors <==> !(10 <= |r.phone| <= 15)
    ensures EmailField in errors <==> !isEmail(r.email)
    ensures UsernameField in errors ==> errors[UsernameField] == "Username must be between 3 and 30 characters"
    ensures PasswordField in errors ==> errors[PasswordField] == "Password must be between 8 and 100 characters"
    ensures PhoneField in errors ==> errors[PhoneField] == "Phone number must be between 10 and 15 digits"
    ensures EmailField in errors ==> errors[EmailField] == "Invalid email format"
  {
    var e0: map<Field, string> := map[];
    var e1 := if LengthWithin(r.username, UsernameMinLength, UsernameMaxLength) then e0 else e0[UsernameField := UsernameMessage];
    var e2 := if LengthWithin(r.password, PasswordMinLength, PasswordMaxLength) then e1 else e1[PasswordField := PasswordMessage];
    var e3 := if isEmail(r.email) then e2 else e2[EmailField := EmailMessage];
    if LengthWithin(r.phone, PhoneMinLength, PhoneMaxLength) then e3 else e3[PhoneField := PhoneMessage]
  }

  /** The phone rule counts characters only: ten letters make a valid phone. */
  lemma PhoneDigitsNotChecked(isEmail: string -> bool)
    ensures PhoneField !in Validate(RegisterRequest("alice", "P@ssw0rd1", "a@x.com", "abcdefghij"), isEmail)
  {
  }

  /** The password rule is a length bound only: `password` passes, the six-character `short1` fails. */
  lemma PasswordLengthScenarios(isEmail: string -> bool)
    ensures PasswordField !in Validate(RegisterRequest("alice", "password", "a@x.com", "0812345678"), isEmail)
    ensures PasswordField in Validate(RegisterRequest("alice", "short1", "a@x.com", "0812345678"), isEmail)
  {
  }

  // ---------------------------------------------------------------------------
  // From<(RegisterRequest, String)> for ActiveModel
  // ---------------------------------------------------------------------------

  /** The new row's active model: the request's identity fields and the HASHED password;
      every other column keeps its default. */
  function FromRegister(data: RegisterRequest, hashedPassword: string): (am: ActiveModel)
    ensures am.username == Set(data.username) && am.email == Set(data.email) && am.phone == Set(data.phone)
    ensures am.password == Set(hashedPassword)
    ensures am.id == NotSet && am.active == NotSet && am.createdAt == NotSet && am.updatedAt == NotSet
  {
    DefaultActiveModel.(
      username := Set(data.username),
      password := Set(hashedPassword),
      email := Set(data.email),
      phone := Set(data.phone))
  }

  /** The plaintext password never reaches the active model. */
  lemma FromRegisterIgnoresPlaintext(data: RegisterRequest, plaintext: string, hashedPassword: string)
    ensures FromRegister(data.(password := plaintext), hashedPassword) == FromRegister(data, hashedPassword)
    ensures plaintext != hashedPassword ==>
      FromRegister(data.(password := plaintext), hashedPassword).password != Set(plaintext)
  {
  }

  // ---------------------------------------------------------------------------
  // ActiveModelBehavior::before_save
  // ---------------------------------------------------------------------------

  /** What `before_save` does to the model it is given: on insert it stamps `created_at` and
      sets `active`; on every save it stamps `updated_at`; nothing else changes.
      `createdNow` and `updatedNow` are the two clock readings the hook takes. */
  predicate BeforeSaveEffect(before: ActiveModel, after: ActiveModel, insert: bool, createdNow: DateTime, updatedNow: DateTime) {
    && after.createdAt == (if insert then Set(createdNow) else before.createdAt)
    && after.active == (if insert then Set(true) else before.active)
    && after.updatedAt == Set(updatedNow)
    && after.(createdAt := before.createdAt, active := before.active, updatedAt := before.updatedAt) == before
  }

  /** `before_save(mut self, _db, insert)`: overwrites the columns of its own copy and hands it back. */
  method BeforeSave(am: ActiveModel, insert: bool, createdNow: DateTime, updatedNow: DateTime)
    returns (r: Result<ActiveModel, DbErr>)
    ensures r.Success? && BeforeSaveEffect(am, r.value, insert, createdNow, updatedNow)
  {
    var self := am;
    if insert {
      self := self.(createdAt := Set(createdNow));
      self := self.(active := Set(true));
    }
    self := self.(updatedAt := Set(updatedNow));
    return Success(self);
  }

  /** A later update keeps what the insert stamped: `created_at` and `active` survive,
      only `updated_at` moves. */
  lemma {:induction false} CreatedAtFixedAfterInsert(
    a0: ActiveModel, a1: ActiveModel, a2: ActiveModel,
    c1: DateTime, u1: DateTime, c2: DateTime, u2: DateTime)
    requires BeforeSaveEffect(a0, a1, true, c1, u1)
    requires BeforeSaveEffect(a1, a2, false, c2, u2)
    ensures a2.createdAt == Set(c1) && a2.active == Set(true) && a2.updatedAt == Set(u2)
    ensures a2.(updatedAt := a0.updatedAt, createdAt := a0.createdAt, active := a0.active) == a0
  {
  }

  /** The range of Rust's `i32`, the type of `Model.id`. */
  const I32Min := -0x8000_0000
  const I32Max := 0x7FFF_FFFF

  predicate IsI32(x: int) {
    I32Min <= x <= I32Max
  }

  // ---------------------------------------------------------------------------
  // Serialize / Deserialize for Model (password is #[serde(skip)])
  // ---------------------------------------------------------------------------

  /** A JSON value as serde produces it for the columns of `Model`; a date-time stays abstract. */
  datatype Json = JInt(i: int) | JStr(s: string) | JBool(b: bool) | JDateTime(t: DateTime)

  /** The serialized object of a `Model`: every column under its Rust field name, except `password`. */
  function Serialize(m: Model): (obj: map<string, Json>)
    ensures "password" !in obj
    ensures obj.Keys == {"id", "username", "email", "phone", "active", "created_at", "updated_at"}
  {
    map["id" := JInt(m.id),
        "username" := JStr(m.username),
        "email" := JStr(m.email),
        "phone" := JStr(m.phone),
        "active" := JBool(m.active),
        "created_at" := JDateTime(m.createdAt),
        "updated_at" := JDateTime(m.updatedAt)]
  }

  /** Deserialization: every non-skipped field must be present with the right type, and `id`
      must fit in an `i32`; unknown keys
      (a `password` key included) are ignored; the skipped `password` takes `String::default()`. */
  function Deserialize(obj: map<string, Json>): (r: Option<Model>)
    ensures r.Some? <==>
      && "id" in obj && obj["id"].JInt? && -2147483648 <= obj["id"].i <= 2147483647
      && "username" in obj && obj["username"].JStr?
      && "email" in obj && obj["email"].JStr?
      && "phone" in obj && obj["phone"].JStr?
      && "active" in obj && obj["active"].JBool?
      && "created_at" in obj && obj["created_at"].JDateTime?
      && "updated_at" in obj && obj["updated_at"].JDateTime?
    ensures r.Some? ==> r.value.password == ""
    ensures r.Some? ==> "id" in obj && obj["id"] == JInt(r.value.id)
    ensures r.Some? ==> "username" in obj && obj["username"] == JStr(r.value.username)
    ensures r.Some? ==> "email" in obj && obj["email"] == JStr(r.value.email)
    ensures r.Some? ==> "phone" in obj && obj["phone"] == JStr(r.value.phone)
    ensures r.Some? ==> "active" in obj && obj["active"] == JBool(r.value.active)
    ensures r.Some? ==> "created_at" in obj && obj["created_at"] == JDateTime(r.value.createdAt)
    ensures r.Some? ==> "updated_at" in obj && obj["updated_at"] == JDateTime(r.value.updatedAt)
  {
    if && "id" in obj && obj["id"].JInt? && IsI32(obj["id"].i)
       && "username" in obj && obj["username"].JStr?
       && "email" in obj && obj["email"].JStr?
       && "phone" in obj && obj["phone"].JStr?
       && "active" in obj && obj["active"].JBool?
       && "created_at" in obj && obj["created_at"].JDateTime?
       && "updated_at" in obj && obj["updated_at"].JDateTime?
    then Some(Model(obj["id"].i, obj["username"].s, "", obj["email"].s, obj["phone"].s,
                    obj["active"].b, obj["created_at"].t, obj["updated_at"].t))
    else None
  }

  /** The serialized view does not depend on the stored password. */
  lemma SerializeHidesPassword(m: Model, otherPassword: string)
    ensures Serialize(m.(password := otherPassword)) == Serialize(m)
  {
  }

  /** Round trip: reading back a serialized model restores every column but the password;
      only an id outside the `i32` range, which no Rust `Model` can hold, is refused. */
  lemma SerializeRoundTrip(m: Model)
    ensures Deserialize(Serialize(m)) == if IsI32(m.id) then Some(m.(password := "")) else None
  {
  }
}
