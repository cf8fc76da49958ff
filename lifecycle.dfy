/** How the controllers compose over one user's record: the enrolment
    sequence, reset, soft delete, password change, and where the code
    departs from what it evidently intends (first-login provisioning, role checks). */
module Lifecycle {
  import opened JsValues
  import opened UserStore
  import A = AuthController
  import U = UserController

  /** An existing record: what login answers for it with the right password. */
  lemma LoginWithCorrectPassword(doc: Doc, email: string, password: string, matches: (string, string) -> bool)
    requires email != "" && Utf16Length(password) >= A.MIN_PASSWORD_LENGTH
    requires email in doc.users && !doc.users[email].isDeleted
    requires matches(password, doc.users[email].password)
    ensures A.LoginEffect(doc, Some(email), Some(password), matches)
            == ReadOnly(A.PasswordValid(doc.users[email].isVerified, doc.users[email].qrCode, doc.users[email].role))
  {
  }

  /** First login with an unknown e-mail: as written it answers 500 and
      stores nothing; as intended it answers 201 and stores exactly the
      provisioned record. */
  lemma ProvisioningAsWrittenFails(doc: Doc, email: string, password: string, name: Option<string>,
                                   matches: (string, string) -> bool, adminEmail: Option<string>,
                                   hashed: string, enrollment: Enrollment)
    requires email != "" && Utf16Length(password) >= A.MIN_PASSWORD_LENGTH && email !in doc.users
    ensures A.LoginEffect(doc, Some(email), Some(password), matches) == ReadOnly(A.InternalError)
    ensures A.LoginEffect(doc, Some(email), Some(password), matches).resp.Status() == 500
    ensures var e := A.LoginIntendedEffect(doc, Some(email), Some(password), name, matches, adminEmail, hashed, enrollment);
            && e.Write? && e.resp.Status() == 201
            && email in e.written.users
            && e.written.users[email] == A.ProvisionedRecord(email, name, hashed, enrollment, adminEmail)
  {
  }

  /** The concrete input that shows it: an empty store, "a@x.com" and a
      nine-character password. */
  lemma ProvisioningCounterexample(matches: (string, string) -> bool, hashed: string, enrollment: Enrollment)
    ensures A.LoginEffect(Doc(map[], None), Some("a@x.com"), Some("password9"), matches).resp.Status() == 500
    ensures A.LoginIntendedEffect(Doc(map[], None), Some("a@x.com"), Some("password9"), None,
                                  matches, None, hashed, enrollment).resp.Status() == 201
  {
  }

  /** The enrolment sequence with provisioning as intended: the first login
      registers, the second succeeds without asking for a code (the record
      is not verified yet), a valid code verifies the record, and from then
      on login asks for the code. Assumes bcrypt accepts the password it
      hashed and the authenticator produces a code valid for the secret. */
  lemma EnrollmentScenario(doc: Doc, email: string, password: string,
                           matches: (string, string) -> bool,
                           totpVerify: (string, string, int, int) -> bool,
                           adminEmail: Option<string>, hashed: string,
                           enrollment: Enrollment, code: string)
    requires email != "" && Utf16Length(password) >= A.MIN_PASSWORD_LENGTH && email !in doc.users
    requires matches(password, hashed)
    requires totpVerify(enrollment.secret, code, A.TOTP_WINDOW, A.TOTP_STEP)
    ensures var first := A.LoginIntendedEffect(doc, Some(email), Some(password), None, matches, adminEmail, hashed, enrollment);
            var role := A.RoleFor(email, adminEmail);
            && first.Write?
            && first.resp == A.Registered(enrollment.qrCode, email, role)
            && A.LoginEffect(first.written, Some(email), Some(password), matches).resp
               == A.PasswordValid(false, enrollment.qrCode, role)
            && var verify := A.VerifyTotpEffect(first.written, Some(email), code, totpVerify);
            && verify.Write?
            && verify.resp == A.Verified(Some(email), email)
            && A.LoginEffect(verify.written, Some(email), Some(password), matches).resp
               == A.PasswordValid(true, enrollment.qrCode, role)
  {
  }

  /** A record that passed the code check is verified in place; a deleted
      record is verified too and stays deleted. Verifying twice stores the same document. */
  lemma VerifyIsIdempotent(doc: Doc, email: string, code: string, totpVerify: (string, string, int, int) -> bool)
    requires email in doc.users && totpVerify(doc.users[email].secret, code, A.TOTP_WINDOW, A.TOTP_STEP)
    ensures var once := A.VerifyTotpEffect(doc, Some(email), code, totpVerify);
            && once.Write?
            && once.written.users[email].isVerified
            && once.written.users[email].isDeleted == doc.users[email].isDeleted
            && A.VerifyTotpEffect(once.written, Some(email), code, totpVerify).written == once.written
  {
  }

  /** After a reset a verified user logs in without being asked for a code
      again and sees the new QR code: enrolment starts over. */
  lemma ResetForcesReenrollment(doc: Doc, email: string, password: string,
                                matches: (string, string) -> bool, enrollment: Enrollment)
    requires email != "" && Utf16Length(password) >= A.MIN_PASSWORD_LENGTH
    requires email in doc.users && !doc.users[email].isDeleted
    requires matches(password, doc.users[email].password)
    ensures var reset := U.ResetEffect(doc, Some(email), enrollment);
            && reset.Write?
            && A.LoginEffect(reset.written, Some(email), Some(password), matches).resp
               == A.PasswordValid(false, enrollment.qrCode, doc.users[email].role)
  {
  }

  /** After a soft delete login never authenticates, whatever the password,
      and a second delete is refused with 400. */
  lemma DeletedNeverAuthenticates(doc: Doc, email: string, password: Option<string>, matches: (string, string) -> bool)
    requires email != "" && email in doc.users && !doc.users[email].isDeleted
    ensures var del := U.DeleteEffect(doc, Some(email));
            && del.Write?
            && !A.LoginEffect(del.written, Some(email), password, matches).resp.IsAuthenticated()
            && (A.Acceptable(Some(email), password) ==>
                  A.LoginEffect(del.written, Some(email), password, matches).resp == A.AccountInactive)
            && U.DeleteEffect(del.written, Some(email)) == ReadOnly(U.AlreadyRemoved)
  {
  }

  /** A created user can log in with the password it was created with and
      is not asked for a code yet; creating it again is a 409 that changes nothing. */
  lemma CreateThenLogin(doc: Doc, email: string, password: string, role: string, name: Option<string>,
                        hashed: string, enrollment: Enrollment, matches: (string, string) -> bool)
    requires email != "" && Utf16Length(password) == U.CREATE_PASSWORD_LENGTH && role in {"admin", "user"}
    requires email !in doc.users
    requires matches(password, hashed)
    ensures var create := U.CreateEffect(doc, Some(email), Some(password), Some(role), name, hashed, enrollment);
            && create.Write?
            && A.LoginEffect(create.written, Some(email), Some(password), matches).resp
               == A.PasswordValid(false, enrollment.qrCode, role)
            && U.CreateEffect(create.written, Some(email), Some(password), Some(role), name, hashed, enrollment)
               == ReadOnly(U.AlreadyExists)
  {
  }

  /** After an update with a new password, that password is the one login
      accepts: either it already matched, or the fresh hash of it is stored. */
  lemma UpdatedPasswordAccepted(doc: Doc, email: string, password: string, role: Option<string>,
                                matches: (string, string) -> bool, hashed: string)
    requires email != "" && password != "" && email in doc.users
    requires matches(password, hashed)
    ensures var update := U.UpdateEffect(doc, Some(email), Some(password), role, matches, hashed);
            && update.Write?
            && matches(password, update.written.users[email].password)
            && (Utf16Length(password) >= A.MIN_PASSWORD_LENGTH && !doc.users[email].isDeleted ==>
                  A.LoginEffect(update.written, Some(email), Some(password), matches).resp.IsAuthenticated())
  {
  }

  /** Update stores any role it is given: a role creation refuses ends up in
      the store, so the set {admin, user} is not an invariant of the store. */
  lemma UpdateSkipsRoleValidation(u: UserRecord, matches: (string, string) -> bool, hashed: string, enrollment: Enrollment)
    ensures var doc := Doc(map["b@x.com" := u], None);
            && U.CreateEffect(Doc(map[], None), Some("c@x.com"), Some("password9"), Some("superuser"), None, hashed, enrollment)
               == NoRead(U.InvalidRole)
            && U.UpdateEffect(doc, Some("b@x.com"), None, Some("superuser"), matches, hashed).written.users["b@x.com"].role
               == "superuser"
  {
  }
}
