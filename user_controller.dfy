/** The administrative controllers (Backend/controllers/userController.js):
    list, create, update, soft delete and TOTP reset. Each validates its
    input, reads the shared store, edits one record of the cached document
    in place and writes the whole document back. None of them invalidates
    the cache when the write fails. */
module UserController {
  import opened JsValues
  import opened UserStore

  /** Creation demands a password of exactly this many characters. */
  const CREATE_PASSWORD_LENGTH := 9
  /** The roles creation accepts. */
  const VALID_ROLES := ["admin", "user"]

  /** The replies of the five controllers. */
  datatype AdminResponse =
    | NoUsersFound
    | UsersFetched(users: map<string, UserRecord>)
    | MissingFields
    | WrongPasswordLength
    | InvalidRole
    | AlreadyExists
    | Created(qrCode: string, email: string, role: string)
    | MissingParam
    | NotFound
    | Updated(user: UserRecord)
    | AlreadyRemoved
    | Deleted
    | ResetDone
    | InternalError
  {
    function Status(): int {
      match this
      case NoUsersFound => 404
      case UsersFetched(_) => 200
      case MissingFields => 400
      case WrongPasswordLength => 400
      case InvalidRole => 400
      case AlreadyExists => 409
      case Created(_, _, _) => 200
      case MissingParam => 400
      case NotFound => 404
      case Updated(_) => 200
      case AlreadyRemoved => 400
      case Deleted => 200
      case ResetDone => 200
      case InternalError => 500
    }
  }

  /** The reply a controller sends: 500 when `writeUsers` threw, else what the effect says. */
  function Reply(e: Effect<AdminResponse>, writeFails: bool): AdminResponse {
    if e.Write? && writeFails then InternalError else e.resp
  }

  /** Creation's input checks pass: all three fields truthy, a password of
      exactly 9 UTF-16 code units (JavaScript's `length`), a known role. */
  predicate CreateAcceptable(email: Option<string>, password: Option<string>, role: Option<string>) {
    Present(email) && Present(password) && Present(role)
    && Utf16Length(password.value) == CREATE_PASSWORD_LENGTH && role.value in VALID_ROLES
  }

  /** `getAllUserController`: the whole map, soft-deleted records included, or 404 when it is empty. */
  function GetAllEffect(doc: Doc): (r: Effect<AdminResponse>)
    ensures r.ReadOnly?
    ensures r.resp == NoUsersFound <==> |doc.users| == 0
    ensures r.resp != NoUsersFound ==> r.resp == UsersFetched(doc.users)
    ensures r.resp.Status() == (if |doc.users| == 0 then 404 else 200)
  {
    if doc.users == map[] then ReadOnly(NoUsersFound) else ReadOnly(UsersFetched(doc.users))
  }

  /** `createUserController`. */
  function CreateEffect(doc: Doc, email: Option<string>, password: Option<string>, role: Option<string>,
                        name: Option<string>, hashed: string, enrollment: Enrollment): (r: Effect<AdminResponse>)
    ensures r.resp == MissingFields <==> !Present(email) || !Present(password) || !Present(role)
    ensures r.resp == WrongPasswordLength <==>
              Present(email) && Present(password) && Present(role) && Utf16Length(password.value) != CREATE_PASSWORD_LENGTH
    ensures r.resp == InvalidRole <==>
              Present(email) && Present(password) && Present(role) && Utf16Length(password.value) == CREATE_PASSWORD_LENGTH
              && role.value != "admin" && role.value != "user"
    ensures r.NoRead? <==> !CreateAcceptable(email, password, role)
    ensures r.resp == AlreadyExists <==> CreateAcceptable(email, password, role) && email.value in doc.users
    ensures r.Write? <==> CreateAcceptable(email, password, role) && email.value !in doc.users
    ensures r.resp.Status() == (if r.NoRead? then 400 else if r.Write? then 200 else 409)
    ensures r.Write? ==> r.written.users.Keys == doc.users.Keys + {email.value}
    ensures r.Write? ==>
              var key := email.value;
              var u := r.written.users[key];
              && r.staged == r.written
              && r.written.stray == doc.stray
              && OthersUnchanged(doc.users, r.written.users, key)
              && u.id == key && u.password == hashed && u.role == role.value
              && u.secret == enrollment.secret && u.qrCode == enrollment.qrCode
              && u.name == (if Present(name) then name.value else key)
              && !u.isVerified && !u.isDeleted
              && r.resp == Created(enrollment.qrCode, key, role.value)
    ensures r.Write? ==> (WellKeyed(doc.users) ==> WellKeyed(r.written.users)) && DeletionsKept(doc.users, r.written.users)
  {
    if !Present(email) || !Present(password) || !Present(role) then NoRead(MissingFields)
    else if Utf16Length(password.value) != CREATE_PASSWORD_LENGTH then NoRead(WrongPasswordLength)
    else if role.value !in VALID_ROLES then NoRead(InvalidRole)
    else if email.value in doc.users then ReadOnly(AlreadyExists)
    else
      var d := doc.(users := doc.users[email.value := NewRecord(email.value, name, hashed, enrollment, role.value)]);
      Write(Created(enrollment.qrCode, email.value, role.value), d, d)
  }

  /** The record `updateUserController` leaves behind: a new hash only when
      the new password does not match the old one, the given role when one
      is given. */
  function UpdatedRecord(u: UserRecord, password: Option<string>, role: Option<string>,
                         matches: (string, string) -> bool, hashed: string): UserRecord
  {
    var u1 := if Present(password) && !matches(password.value, u.password) then u.(password := hashed) else u;
    if Present(role) && u1.role != role.value then u1.(role := role.value) else u1
  }

  /** `updateUserController`. */
  function UpdateEffect(doc: Doc, email: Option<string>, password: Option<string>, role: Option<string>,
                        matches: (string, string) -> bool, hashed: string): (r: Effect<AdminResponse>)
    ensures r.resp == MissingParam <==> !Present(email)
    ensures r.NoRead? <==> !Present(email)
    ensures r.resp == NotFound <==> Present(email) && email.value !in doc.users
    ensures r.Write? <==> Present(email) && email.value in doc.users
    ensures r.resp.Status() == (if r.NoRead? then 400 else if r.Write? then 200 else 404)
    ensures r.Write? ==> r.written.users.Keys == doc.users.Keys
    ensures r.Write? ==>
              var key := email.value;
              var prev := doc.users[key];
              var u := r.written.users[key];
              && r.staged == r.written
              && r.written.stray == doc.stray
              && OthersUnchanged(doc.users, r.written.users, key)
              && u.password == (if Present(password) && !matches(password.value, prev.password) then hashed else prev.password)
              && u.role == (if Present(role) then role.value else prev.role)
              && u.id == prev.id && u.name == prev.name && u.secret == prev.secret && u.qrCode == prev.qrCode
              && u.isVerified == prev.isVerified && u.isDeleted == prev.isDeleted
              && r.resp == Updated(u)
    ensures r.Write? ==> (WellKeyed(doc.users) ==> WellKeyed(r.written.users)) && DeletionsKept(doc.users, r.written.users)
  {
    if !Present(email) then NoRead(MissingParam)
    else if email.value !in doc.users then ReadOnly(NotFound)
    else
      var user := UpdatedRecord(doc.users[email.value], password, role, matches, hashed);
      var d := doc.(users := doc.users[email.value := user]);
      Write(Updated(user), d, d)
  }

  /** `deleteUserController`: a soft delete. What is written is
      `{ ...users, user }`, so the document gains a top-level copy of the
      deleted record; the cache, edited in place first, does not. */
  function DeleteEffect(doc: Doc, email: Option<string>): (r: Effect<AdminResponse>)
    ensures r.resp == MissingParam <==> !Present(email)
    ensures r.NoRead? <==> !Present(email)
    ensures r.resp == NotFound <==> Present(email) && email.value !in doc.users
    ensures r.resp == AlreadyRemoved <==> Present(email) && email.value in doc.users && doc.users[email.value].isDeleted
    ensures r.Write? <==> Present(email) && email.value in doc.users && !doc.users[email.value].isDeleted
    ensures r.resp.Status() == (if r.resp == NotFound then 404 else if r.Write? then 200 else 400)
    ensures r.Write? ==>
              var key := email.value;
              && r.written.users.Keys == doc.users.Keys
              && OthersUnchanged(doc.users, r.written.users, key)
              && r.written.users[key] == doc.users[key].(isDeleted := true)
              && r.written.stray == Some(r.written.users[key])
              && r.staged == r.written.(stray := doc.stray)
              && r.resp == Deleted
    ensures r.Write? ==> (WellKeyed(doc.users) ==> WellKeyed(r.written.users)) && DeletionsKept(doc.users, r.written.users)
  {
    if !Present(email) then NoRead(MissingParam)
    else if email.value !in doc.users then ReadOnly(NotFound)
    else if doc.users[email.value].isDeleted then ReadOnly(AlreadyRemoved)
    else
      var user := doc.users[email.value].(isDeleted := true);
      var users := doc.users[email.value := user];
      Write(Deleted, Doc(users, doc.stray), Doc(users, Some(user)))
  }

  /** `resetUserController`: a fresh secret and QR code, verification
      cleared. Deleted records are reset as well. */
  function ResetEffect(doc: Doc, email: Option<string>, enrollment: Enrollment): (r: Effect<AdminResponse>)
    ensures r.resp == MissingParam <==> !Present(email)
    ensures r.NoRead? <==> !Present(email)
    ensures r.resp == NotFound <==> Present(email) && email.value !in doc.users
    ensures r.Write? <==> Present(email) && email.value in doc.users
    ensures r.resp.Status() == (if r.NoRead? then 400 else if r.Write? then 200 else 404)
    ensures r.Write? ==> r.written.users.Keys == doc.users.Keys
    ensures r.Write? ==>
              var key := email.value;
              var prev := doc.users[key];
              var u := r.written.users[key];
              && r.staged == r.written
              && r.written.stray == doc.stray
              && OthersUnchanged(doc.users, r.written.users, key)
              && u.secret == enrollment.secret && u.qrCode == enrollment.qrCode && !u.isVerified
              && u.id == prev.id && u.name == prev.name && u.password == prev.password
              && u.role == prev.role && u.isDeleted == prev.isDeleted
              && r.resp == ResetDone
    ensures r.Write? ==> (WellKeyed(doc.users) ==> WellKeyed(r.written.users)) && DeletionsKept(doc.users, r.written.users)
  {
    if !Present(email) then NoRead(MissingParam)
    else if email.value !in doc.users then ReadOnly(NotFound)
    else
      var user := doc.users[email.value].(secret := enrollment.secret, qrCode := enrollment.qrCode, isVerified := false);
      var d := doc.(users := doc.users[email.value := user]);
      Write(ResetDone, d, d)
  }

  /** The `getAllUserController` handler: reads (and so loads the cache), never writes. */
  method GetAllUsers(store: Store) returns (resp: AdminResponse)
    modifies store
    ensures resp == GetAllEffect(old(store.Snap().View())).resp
    ensures store.Snap() == Next(old(store.Snap()), GetAllEffect(old(store.Snap().View())), false, false)
  {
    var users := store.Read();
    if users.users == map[] {
      return NoUsersFound;
    }
    return UsersFetched(users.users);
  }

  /** The `createUserController` handler over the shared store. */
  method CreateUser(store: Store, email: Option<string>, password: Option<string>, role: Option<string>,
                    name: Option<string>, hashed: string, enrollment: Enrollment, writeFails: bool)
    returns (resp: AdminResponse)
    modifies store
    ensures var e := CreateEffect(old(store.Snap().View()), email, password, role, name, hashed, enrollment);
            resp == Reply(e, writeFails) && store.Snap() == Next(old(store.Snap()), e, writeFails, false)
  {
    if !Present(email) || !Present(password) || !Present(role) {
      return MissingFields;
    }
    if Utf16Length(password.value) != CREATE_PASSWORD_LENGTH {
      return WrongPasswordLength;
    }
    if role.value !in VALID_ROLES {
      return InvalidRole;
    }
    var users := store.Read();
    if email.value in users.users {
      return AlreadyExists;
    }
    users := users.(users := users.users[email.value := NewRecord(email.value, name, hashed, enrollment, role.value)]);
    store.Mutate(users);
    var ok := store.Write(users, writeFails);
    if !ok {
      return InternalError;
    }
    return Created(enrollment.qrCode, email.value, role.value);
  }

  /** The `updateUserController` handler over the shared store. */
  method UpdateUser(store: Store, email: Option<string>, password: Option<string>, role: Option<string>,
                    matches: (string, string) -> bool, hashed: string, writeFails: bool)
    returns (resp: AdminResponse)
    modifies store
    ensures var e := UpdateEffect(old(store.Snap().View()), email, password, role, matches, hashed);
            resp == Reply(e, writeFails) && store.Snap() == Next(old(store.Snap()), e, writeFails, false)
  {
    if !Present(email) {
      return MissingParam;
    }
    var users := store.Read();
    if email.value !in users.users {
      return NotFound;
    }
    // `user` is the cached record itself: its field assignments and the
    // re-store under its key edit the cached document in place.
    var user := users.users[email.value];
    if Present(password) {
      var isSame := matches(password.value, user.password);
      if !isSame {
        user := user.(password := hashed);
      }
    }
    if Present(role) && user.role != role.value {
      user := user.(role := role.value);
    }
    users := users.(users := users.users[email.value := user]);
    store.Mutate(users);
    var ok := store.Write(users, writeFails);
    if !ok {
      return InternalError;
    }
    return Updated(user);
  }

  /** The `deleteUserController` handler over the shared store. */
  method DeleteUser(store: Store, email: Option<string>, writeFails: bool) returns (resp: AdminResponse)
    modifies store
    ensures var e := DeleteEffect(old(store.Snap().View()), email);
            resp == Reply(e, writeFails) && store.Snap() == Next(old(store.Snap()), e, writeFails, false)
  {
    if !Present(email) {
      return MissingParam;
    }
    var users := store.Read();
    if email.value !in users.users {
      return NotFound;
    }
    var user := users.users[email.value];
    if user.isDeleted {
      return AlreadyRemoved;
    }
    user := user.(isDeleted := true);
    users := users.(users := users.users[email.value := user]);
    store.Mutate(users);
    var newObj := users.(stray := Some(user));
    var ok := store.Write(newObj, writeFails);
    if !ok {
      return InternalError;
    }
    return Deleted;
  }

  /** The `resetUserController` handler over the shared store. */
  method ResetUser(store: Store, email: Option<string>, enrollment: Enrollment, writeFails: bool)
    returns (resp: AdminResponse)
    modifies store
    ensures var e := ResetEffect(old(store.Snap().View()), email, enrollment);
            resp == Reply(e, writeFails) && store.Snap() == Next(old(store.Snap()), e, writeFails, false)
  {
    if !Present(email) {
      return MissingParam;
    }
    var users := store.Read();
    if email.value !in users.users {
      return NotFound;
    }
    var user := users.users[email.value];
    user := user.(qrCode := enrollment.qrCode);
    user := user.(secret := enrollment.secret);
    user := user.(isVerified := false);
    users := users.(users := users.users[email.value := user]);
    store.Mutate(users);
    var ok := store.Write(users, writeFails);
    if !ok {
      return InternalError;
    }
    return ResetDone;
  }
}
