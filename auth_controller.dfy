/** Login and TOTP verification (Backend/controllers/authController.js).
    bcrypt and speakeasy are opaque: `matches(password, hash)` stands for
    `bcrypt.compare`, `totpVerify(secret, token, window, step)` for
    `speakeasy.totp.verify` with a base-32 secret; the salted hash, the
    fresh secret and its QR code are inputs. */
module AuthController {
  import opened JsValues
  import opened UserStore

  /** The password-length floor of login. */
  const MIN_PASSWORD_LENGTH := 9
  /** `speakeasy.totp.verify` is called with `window: 6, step: 30`. */
  const TOTP_WINDOW := 6
  const TOTP_STEP := 30

  /** The replies of `login`. */
  datatype LoginResponse =
    | MissingCredentials
    | PasswordTooShort
    | Registered(qrCode: string, email: string, role: string)
    | AccountInactive
    | InvalidPassword
    | PasswordValid(requiresOtp: bool, qrCode: string, role: string)
    | InternalError
  {
    function Status(): int {
      match this
      case MissingCredentials => 401
      case PasswordTooShort => 400
      case Registered(_, _, _) => 201
      case AccountInactive => 404
      case InvalidPassword => 404
      case PasswordValid(_, _, _) => 200
      case InternalError => 500
    }

    /** The `isAuthenticated` field: every reply carries it, only a valid password sets it. */
    predicate IsAuthenticated() {
      PasswordValid?
    }

    /** The `isRegistered` field, where the reply carries one. */
    function IsRegistered(): Option<bool> {
      if Registered? || AccountInactive? || InvalidPassword? || PasswordValid? then Some(true) else None
    }
  }

  /** The replies of `verifyTotp`. */
  datatype VerifyResponse =
    | InvalidUser
    | InvalidCode
    | Verified(email: Option<string>, name: string)
    | ServerError
  {
    function Status(): int {
      match this
      case InvalidUser => 401
      case InvalidCode => 401
      case Verified(_, _) => 200
      case ServerError => 500
    }
  }

  /** The property key `users.users[email]` looks up: JavaScript turns an
      absent e-mail into the key "undefined". */
  function Key(email: Option<string>): string {
    if email.Some? then email.value else "undefined"
  }

  /** Login's input checks pass: both fields truthy and the password at least
      9 UTF-16 code units long (JavaScript's `length`). */
  predicate Acceptable(email: Option<string>, password: Option<string>) {
    Present(email) && Present(password) && Utf16Length(password.value) >= MIN_PASSWORD_LENGTH
  }

  /** The role first login gives: admin exactly for the configured `ADMIN_EMAIL`. */
  function RoleFor(email: string, adminEmail: Option<string>): string {
    if adminEmail == Some(email) then "admin" else "user"
  }

  /** The record first login was meant to create for an unknown e-mail. */
  function ProvisionedRecord(email: string, name: Option<string>, hashed: string,
                             enrollment: Enrollment, adminEmail: Option<string>): (u: UserRecord)
    ensures u.id == email && u.password == hashed
    ensures u.secret == enrollment.secret && u.qrCode == enrollment.qrCode
    ensures !u.isVerified && !u.isDeleted
    ensures u.name == (if Present(name) then name.value else email)
    ensures u.role == "admin" <==> adminEmail == Some(email)
    ensures u.role in {"admin", "user"}
  {
    NewRecord(email, name, hashed, enrollment, RoleFor(email, adminEmail))
  }

  /** `login` as the source runs it. The auto-provisioning branch reassigns
      the `const` binding `user` and reads the unbound identifier `name`, so
      it throws before storing anything and the 500 handler answers, which
      neither writes nor invalidates. */
  function LoginEffect(doc: Doc, email: Option<string>, password: Option<string>,
                       matches: (string, string) -> bool): (r: Effect<LoginResponse>)
    ensures !r.Write?
    ensures r.resp == MissingCredentials <==> !Present(email) || !Present(password)
    ensures r.resp == PasswordTooShort <==> Present(email) && Present(password) && Utf16Length(password.value) < MIN_PASSWORD_LENGTH
    ensures r.NoRead? <==> !Acceptable(email, password)
    ensures r.resp == InternalError <==> Acceptable(email, password) && email.value !in doc.users
    ensures r.resp == AccountInactive <==>
              Acceptable(email, password) && email.value in doc.users && doc.users[email.value].isDeleted
    ensures r.resp == InvalidPassword <==>
              Acceptable(email, password) && email.value in doc.users && !doc.users[email.value].isDeleted
              && !matches(password.value, doc.users[email.value].password)
    ensures r.resp.IsAuthenticated() <==>
              Acceptable(email, password) && email.value in doc.users && !doc.users[email.value].isDeleted
              && matches(password.value, doc.users[email.value].password)
    ensures r.resp.IsAuthenticated() ==>
              var u := doc.users[email.value];
              r.resp.requiresOtp == u.isVerified && r.resp.role == u.role && r.resp.qrCode == u.qrCode
    ensures !r.resp.Registered?
    ensures r.resp.Status() == 200 <==> r.resp.IsAuthenticated()
    ensures r.NoRead? ==> r.resp.Status() == (if r.resp == MissingCredentials then 401 else 400)
  {
    if !Present(email) || !Present(password) then NoRead(MissingCredentials)
    else if Utf16Length(password.value) < MIN_PASSWORD_LENGTH then NoRead(PasswordTooShort)
    else if email.value !in doc.users then ReadOnly(InternalError)
    else
      var user := doc.users[email.value];
      if user.isDeleted then ReadOnly(AccountInactive)
      else if !matches(password.value, user.password) then ReadOnly(InvalidPassword)
      else ReadOnly(PasswordValid(user.isVerified, user.qrCode, user.role))
  }

  /** `login` as its provisioning branch was evidently meant to run: an
      unknown e-mail gets a fresh record, the store is written, and the
      reply is 201 with the enrolment QR code. Every other input is handled
      as the source handles it. */
  function LoginIntendedEffect(doc: Doc, email: Option<string>, password: Option<string>, name: Option<string>,
                               matches: (string, string) -> bool, adminEmail: Option<string>,
                               hashed: string, enrollment: Enrollment): (r: Effect<LoginResponse>)
    ensures r.Write? <==> Acceptable(email, password) && email.value !in doc.users
    ensures !r.Write? ==> r == LoginEffect(doc, email, password, matches)
    ensures r.Write? ==>
              var key := email.value;
              && r.staged == r.written
              && r.written.stray == doc.stray
              && r.written.users.Keys == doc.users.Keys + {key}
              && OthersUnchanged(doc.users, r.written.users, key)
              && r.written.users[key] == ProvisionedRecord(key, name, hashed, enrollment, adminEmail)
              && r.resp == Registered(enrollment.qrCode, key, r.written.users[key].role)
              && r.resp.IsRegistered() == Some(true) && !r.resp.IsAuthenticated()
    ensures r.Write? ==> (WellKeyed(doc.users) ==> WellKeyed(r.written.users)) && DeletionsKept(doc.users, r.written.users)
  {
    if Acceptable(email, password) && email.value !in doc.users then
      var user := ProvisionedRecord(email.value, name, hashed, enrollment, adminEmail);
      var d := doc.(users := doc.users[email.value := user]);
      Write(Registered(enrollment.qrCode, email.value, user.role), d, d)
    else
      LoginEffect(doc, email, password, matches)
  }

  /** `verifyTotp`: look the e-mail up, check the code against the stored
      secret, and mark that record verified. Deleted records are not refused. */
  function VerifyTotpEffect(doc: Doc, email: Option<string>, token: string,
                            totpVerify: (string, string, int, int) -> bool): (r: Effect<VerifyResponse>)
    ensures !r.NoRead?
    ensures r.resp.Status() == (if r.Write? then 200 else 401)
    ensures r.resp == InvalidUser <==> Key(email) !in doc.users
    ensures r.resp == InvalidCode <==>
              Key(email) in doc.users && !totpVerify(doc.users[Key(email)].secret, token, TOTP_WINDOW, TOTP_STEP)
    ensures r.Write? <==>
              Key(email) in doc.users && totpVerify(doc.users[Key(email)].secret, token, TOTP_WINDOW, TOTP_STEP)
    ensures r.Write? ==>
              var key := Key(email);
              var u := doc.users[key];
              && r.staged == r.written
              && r.written.stray == doc.stray
              && r.written.users.Keys == doc.users.Keys
              && OthersUnchanged(doc.users, r.written.users, key)
              && r.written.users[key] == u.(isVerified := true)
              && r.resp == Verified(email, u.name)
    ensures r.Write? ==> (WellKeyed(doc.users) ==> WellKeyed(r.written.users)) && DeletionsKept(doc.users, r.written.users)
  {
    var key := Key(email);
    if key !in doc.users then ReadOnly(InvalidUser)
    else
      var user := doc.users[key];
      if !totpVerify(user.secret, token, TOTP_WINDOW, TOTP_STEP) then ReadOnly(InvalidCode)
      else
        var d := doc.(users := doc.users[key := user.(isVerified := true)]);
        Write(Verified(email, user.name), d, d)
  }

  /** The `login` handler over the shared store. Validation failures touch
      nothing; every other path reads the store and none writes it. */
  method Login(store: Store, email: Option<string>, password: Option<string>,
               matches: (string, string) -> bool) returns (resp: LoginResponse)
    modifies store
    ensures resp == LoginEffect(old(store.Snap().View()), email, password, matches).resp
    ensures store.Snap() == Next(old(store.Snap()), LoginEffect(old(store.Snap().View()), email, password, matches), false, false)
  {
    if !Present(email) || !Present(password) {
      return MissingCredentials;
    }
    if Utf16Length(password.value) < MIN_PASSWORD_LENGTH {
      return PasswordTooShort;
    }
    var users := store.Read();
    if email.value !in users.users {
      // The provisioning branch throws (assignment to a constant, unbound `name`)
      // before `users.users[email] = user`; the catch block answers 500.
      return InternalError;
    }
    var user := users.users[email.value];
    if user.isDeleted {
      return AccountInactive;
    }
    if !matches(password.value, user.password) {
      return InvalidPassword;
    }
    return PasswordValid(user.isVerified, user.qrCode, user.role);
  }

  /** The `verifyTotp` handler over the shared store. A failing write lands
      in the catch block, which invalidates the cache. */
  method VerifyTotp(store: Store, email: Option<string>, token: string,
                    totpVerify: (string, string, int, int) -> bool, writeFails: bool) returns (resp: VerifyResponse)
    modifies store
    ensures var e := VerifyTotpEffect(old(store.Snap().View()), email, token, totpVerify);
            resp == (if e.Write? && writeFails then ServerError else e.resp)
    ensures store.Snap() == Next(old(store.Snap()), VerifyTotpEffect(old(store.Snap().View()), email, token, totpVerify), writeFails, true)
  {
    var users := store.Read();
    var key := Key(email);
    if key !in users.users {
      return InvalidUser;
    }
    var user := users.users[key];
    if !totpVerify(user.secret, token, TOTP_WINDOW, TOTP_STEP) {
      return InvalidCode;
    }
    user := user.(isVerified := true);
    users := users.(users := users.users[key := user]);
    store.Mutate(users);
    var ok := store.Write(users, writeFails);
    if !ok {
      store.Invalidate();
      return ServerError;
    }
    return Verified(email, user.name);
  }
}
