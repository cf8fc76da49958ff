# OTP-Extractor backend: user store, login/TOTP state machine, admin CRUD, audit log

A Dafny model of the part of the OTP-Extractor backend that keeps and checks
users. Every user lives in one JSON document, a map from e-mail to record. The
map is read through a cache and always written back whole. Three groups of
code work on it:

- **Login and TOTP verification** (`Backend/controllers/authController.js`).
  `login` runs an ordered decision chain: missing fields, the 9-code-unit
  floor, unknown user (auto-provisioning), soft-deleted user, password check,
  success with `requiresOtp = is_verified`. `verifyTotp` checks a code
  against the stored secret and sets `is_verified`.
- **The admin controllers** (`Backend/controllers/userController.js`): list,
  create, update, soft delete and TOTP reset. Each one validates its input,
  looks up a record, edits it in place and writes the document.
- **The audit log** (`Backend/utils/logger.js`). `cleanupOldLogs` is a
  30-day retention filter. `appendLog` and `getLogs` are built on it.

Files:

- `js_values.dfy`, module `JsValues`. `Option`, the truthiness test
  `Present`, and `Utf16Length`, the UTF-16 code-unit count that JavaScript's
  `length` reports. Both the user store and the audit log import it.
- `user_store.dfy`, module `UserStore`. The `UserRecord` and `Doc` datatypes.
  The `Effect` of one controller call: no read, read only, or an in-place
  edit followed by a write. The `Store` class has a durable `disk` and a
  `cache: Option<Doc>`, with `Read`, `Mutate`, `Write` and `Invalidate`.
  These stand for `readUsers`, the controllers' in-place edits, `writeUsers`
  and `invalidateUsersCache`.
- `auth_controller.dfy`, module `AuthController`. Specification functions
  `LoginEffect`, `LoginIntendedEffect` and `VerifyTotpEffect`. Methods `Login`
  and `VerifyTotp` run over a `Store`.
- `user_controller.dfy`, module `UserController`. Specification functions
  `GetAllEffect`, `CreateEffect`, `UpdateEffect`, `DeleteEffect` and
  `ResetEffect`. One method per controller.
- `logger.dfy`, module `Logger`. `Prune` and `CleanupOldLogs`, the `Appended`
  list, and a `LogFile` class with `AppendLog` and `GetLogs`.
- `lifecycle.dfy`, module `Lifecycle`. Lemmas that chain the operations:
  the enrolment sequence, reset, delete, create, update and the provisioning
  defect.

Each controller method is imperative over the `Store` class. Its `ensures`
equates the reply and the new `(disk, cache)` with the controller's
specification function and the shared transition `UserStore.Next`. The
properties are proved about those functions.

Outside calls are inputs:

- bcrypt is `matches(password, hash)` (for `bcrypt.compare`) plus a `hashed`
  input, the salted hash `bcrypt.hash` produced.
- speakeasy is `totpVerify(secret, token, window, step)`. It stands for the
  RFC 6238 section 4 check, called with window 6 and step 30.
- `generateSecret` plus `qrcode.toDataURL` give an `Enrollment` input (secret
  and QR data URL).
- `ADMIN_EMAIL` is an `Option<string>` input.
- A throwing `writeUsers` is the input `writeFails`.
- In the logger, `now`, the ISO `stamp` of an append and `parse` (for
  `Date.parse`, with `None` for NaN) are inputs.

The store helper `utils/userHelpers` is not part of this model. It is modelled
abstractly:

- `readUsers` returns the cached document if there is one. Otherwise it loads
  the disk into the cache.
- It hands out the cached object itself. Assignments such as
  `users.users[email] = …` and `user.is_verified = true` therefore change the
  cache before `writeUsers` runs.
- `writeUsers(d)` sets both disk and cache to `d`. When it throws, neither
  changes.
- `invalidateUsersCache` empties the cache.

Behaviour of the code as written, which the model follows:

- Login as written cannot provision. See Findings.
- The password floor is "at least 9" for login and "exactly 9" for creation.
  Both count UTF-16 code units, so a character outside the Basic Multilingual
  Plane counts twice (`JsValues.Utf16Length`).
- Only creation checks the role. Update stores any string, so {admin, user}
  is not a store invariant (`Lifecycle.UpdateSkipsRoleValidation`).
- `verifyTotp` does not refuse soft-deleted records.
- Only `verifyTotp` invalidates the cache on error. The admin controllers
  leave an uncommitted edit in the cache when the write throws
  (`UserStore.FailedWriteLeavesStaleCache`).
- Login replies differently for an unknown e-mail (500) and for a wrong
  password (404 "Invalid password"), so it reveals which identifiers exist.
- Soft delete writes `{ ...users, user }`, which adds a top-level `user` key
  to the persisted document (`Doc.stray`).

## Model

| member | source | states |
|---|---|---|
| `JsValues.Utf16Length` | Backend/controllers/authController.js:111 | the length `password.length` reports: at least the number of characters and at most twice it. It equals the character count exactly when no character lies outside the Basic Multilingual Plane, and twice it exactly when all do |
| `JsValues.SurrogatePairsCountTwice` | Backend/controllers/userController.js:57 | five emoji have length 10 and pass login's floor; four emoji and a letter have length 9 and meet creation's exact-9 check |
| `UserStore.Store.Read` | Backend/controllers/authController.js:121-122 | readUsers returns what the cache holds, or the disk when the cache is empty; afterwards the cache holds exactly the returned document and the disk is unchanged |
| `UserStore.Store.Mutate` | Backend/controllers/authController.js:247 | an in-place edit of the handed-out document changes the cache, not the disk |
| `UserStore.Store.Write` | Backend/controllers/authController.js:248 | writeUsers replaces disk and cache with the whole document; a throwing write changes neither |
| `UserStore.Store.Invalidate` | Backend/controllers/authController.js:263 | invalidateUsersCache empties the cache and leaves the disk alone |
| `UserStore.InvalidationKeepsCoherence` | Backend/controllers/authController.js:262-263 | a controller whose error path invalidates keeps cache and disk coherent for every effect, whether the write fails or not, and the disk changes only on a successful write |
| `UserStore.FailedWriteLeavesStaleCache` | Backend/controllers/userController.js:95-131 | a controller that does not invalidate leaves its uncommitted edit in the cache after a failed write: the next read sees a document the disk never held |
| `AuthController.ProvisionedRecord` | Backend/controllers/authController.js:125-139 | the intended first-login record: id is the e-mail, the fresh hash, secret and QR code, not verified, not deleted, name defaulting to the e-mail, role admin exactly when the e-mail equals ADMIN_EMAIL, otherwise user |
| `AuthController.LoginEffect` | Backend/controllers/authController.js:100-208 | login never writes. Missing e-mail or password gives 401 before any read. A password under 9 UTF-16 code units gives 400 with no read. An unknown user gives 500 (the provisioning branch throws). A deleted user gives "inactive" whatever the password. A wrong password gives "Invalid password". Otherwise it authenticates, with requiresOtp equal to the stored is_verified and the stored role. Each of these holds in both directions, and no reply is a registration. Status 200 is returned exactly when login authenticates |
| `AuthController.LoginIntendedEffect` | Backend/controllers/authController.js:124-156 | with the provisioning branch fixed: it writes exactly when the input passes the checks and the e-mail is unknown. It then adds exactly one key holding the provisioned record, leaves all other keys unchanged and replies 201 registered, not authenticated. Every other input gets the same answer as login as written |
| `AuthController.VerifyTotpEffect` | Backend/controllers/authController.js:212-261 | always reads the store. An absent e-mail is looked up under the key "undefined", as JavaScript coerces it. An unknown key gives "Invalid user" and an invalid code gives 401, neither with a write. Exactly a valid code for the stored secret (window 6, step 30) writes the store. The write changes only is_verified of that record, to true, whether or not the record is deleted. Status is 200 exactly on a write, otherwise 401 |
| `AuthController.Login` | Backend/controllers/authController.js:100-208 | the handler's reply and new store state are those of LoginEffect: validation failures touch nothing, every other path loads the cache and nothing is written |
| `AuthController.VerifyTotp` | Backend/controllers/authController.js:212-275 | the handler's reply and new store state are those of VerifyTotpEffect. A throwing write replies 500 and invalidates the cache, leaving the disk as it was |
| `UserController.GetAllEffect` | Backend/controllers/userController.js:8-30 | 404 exactly when the map is empty, otherwise 200 with the whole map including soft-deleted records, and never a write |
| `UserController.GetAllUsers` | Backend/controllers/userController.js:8-40 | the handler's reply and store state are those of GetAllEffect |
| `UserController.CreateEffect` | Backend/controllers/userController.js:43-117 | 400 for a missing e-mail, password or role; 400 for a password whose length in UTF-16 code units is not exactly 9; 400 for a role outside {admin, user}; none of these reads the store. An existing key, deleted or not, gives 409 with no write. Otherwise exactly one key is added: id is the e-mail, name defaults to the e-mail, the given hash, secret, QR code and role, not verified, not deleted, with status 200. Every other key is unchanged |
| `UserController.CreateUser` | Backend/controllers/userController.js:43-132 | the handler's reply and new store state are those of CreateEffect. A throwing write replies 500 and leaves the staged record in the cache |
| `UserController.UpdateEffect` | Backend/controllers/userController.js:135-184 | 400 without an e-mail and 404 for an unknown one. Otherwise the hash is replaced only when the new password does not match the old hash, and the role becomes the given role without validation. id, name, secret, QR code, is_verified and is_deleted are untouched, and so are all other keys. Status is 200 on a write |
| `UserController.UpdateUser` | Backend/controllers/userController.js:135-194 | the handler's reply and new store state are those of UpdateEffect |
| `UserController.DeleteEffect` | Backend/controllers/userController.js:197-242 | 400 without an e-mail, 404 for an unknown one, 400 for an already-deleted record, and no write in these cases. Otherwise only is_deleted of that record becomes true. The written document also carries the record as a stray top-level `user`, which the in-place cache edit does not. Status is 200 on a write |
| `UserController.DeleteUser` | Backend/controllers/userController.js:197-252 | the handler's reply and new store state are those of DeleteEffect |
| `UserController.ResetEffect` | Backend/controllers/userController.js:255-296 | 400 without an e-mail and 404 for an unknown one. Otherwise the secret and QR code are the fresh ones and is_verified is false, while password, role, is_deleted, id and name are unchanged, for deleted records too. All other keys are unchanged. Status is 200 on a write |
| `UserController.ResetUser` | Backend/controllers/userController.js:255-306 | the handler's reply and new store state are those of ResetEffect |
| `Logger.Prune` | Backend/utils/logger.js:131-139 | the filter result is an order-preserving subsequence of the input and holds only retained entries: truthy timestamp, parses, at or after the cutoff. Each retained entry appears exactly as often as in the input |
| `Logger.PruneKeepsExactly` | Backend/utils/logger.js:131-139 | an entry is in the result if and only if it is in the input and passes the retention test |
| `Logger.PruneIdempotent` | Backend/utils/logger.js:131-139 | with a fixed cutoff, pruning twice equals pruning once |
| `Logger.CleanupOldLogs` | Backend/utils/logger.js:128-140 | cleanupOldLogs throws exactly when the array holds a null. Otherwise it is the prune at cutoff now minus 30 days, and the result holds no null |
| `Logger.RetentionBoundary` | Backend/utils/logger.js:129-138 | an entry exactly 30 days old is kept and one a millisecond older is dropped; an entry with no or an empty timestamp is dropped |
| `Logger.CleanupIdempotent` | Backend/utils/logger.js:128-140 | at the same clock, cleaning a cleaned array returns it unchanged |
| `Logger.Appended` | Backend/utils/logger.js:54-71 | the array appendLog writes ends with the new entry, stamped with a timestamp, and is preceded by exactly the cleaned prior entries; nothing is written exactly when cleaning throws |
| `Logger.LogFile.AppendLog` | Backend/utils/logger.js:49-77 | afterwards the file exists. Missing, unparseable or non-array content counts as []. The file holds the appended array, or is left as it was (or as []) when cleaning throws |
| `Logger.LogFile.GetLogs` | Backend/utils/logger.js:112-125 | [] when the file is missing, unparseable, not an array or holds a null; otherwise the cleaned array, every element of which passes the retention test |
| `Lifecycle.LoginWithCorrectPassword` | Backend/controllers/authController.js:171-196 | for an existing, non-deleted record and a matching password of at least 9 UTF-16 code units, login authenticates with requiresOtp = is_verified, the stored QR code and role |
| `Lifecycle.ProvisioningAsWrittenFails` | Backend/controllers/authController.js:122-142 | for every unknown e-mail with an acceptable password, login as written answers 500 with no write, while the intended login answers 201 and stores the provisioned record |
| `Lifecycle.ProvisioningCounterexample` | Backend/controllers/authController.js:122-142 | on an empty store, "a@x.com" with "password9" gets 500 as written and 201 as intended |
| `Lifecycle.EnrollmentScenario` | Backend/controllers/authController.js:100-261 | with the provisioning branch fixed (`LoginIntendedEffect`), the first login registers, and the second authenticates without an OTP challenge. A valid code then verifies the record, and later logins require the OTP |
| `Lifecycle.VerifyIsIdempotent` | Backend/controllers/authController.js:247-248 | a valid code marks the record verified and keeps its deletion flag; verifying again writes the same document |
| `Lifecycle.ResetForcesReenrollment` | Backend/controllers/userController.js:277-287 | after a reset, login with the right password is not asked for an OTP and gets the new QR code |
| `Lifecycle.DeletedNeverAuthenticates` | Backend/controllers/userController.js:221-233 | after a soft delete, login never authenticates for any password, answers "inactive" to every acceptable input, and a second delete gets 400 with no write |
| `Lifecycle.CreateThenLogin` | Backend/controllers/userController.js:83-106 | a created user logs in with the creation password without an OTP challenge; creating it again gives 409 with no write |
| `Lifecycle.UpdatedPasswordAccepted` | Backend/controllers/userController.js:161-168 | after an update with a password, the stored hash matches that password, so login with it authenticates for a non-deleted record of acceptable length |
| `Lifecycle.UpdateSkipsRoleValidation` | Backend/controllers/userController.js:170-173 | creation refuses the role "superuser", but update stores it |

## Findings

| source | as written | input that shows it | evidently intended | confidence | as-written member | corrected member |
|---|---|---|---|---|---|---|
| Backend/controllers/authController.js:122-142 | `user` is declared `const` at :122 and reassigned at :130, and `name` at :132 is never bound. The auto-provisioning branch throws before `users.users[email] = user`. The catch block answers 500 and nothing is stored | empty store, email "a@x.com", password "password9" | register the unknown e-mail: store the provisioned record and answer 201 with the QR code | high, not executed | `Lifecycle.ProvisioningAsWrittenFails` | `AuthController.LoginIntendedEffect` |

## Left out

- Network and process plumbing is not modelled: the routes, CORS and the shared-key middleware, and the frontend. `authRoute.js` also registers a `register` handler that the controller no longer exports.
- `cacheDiagnostics`, a timing wrapper around a helper that is not part of this model.
- The internals of bcrypt (salting, cost 10), of speakeasy's HMAC-based TOTP and of QR encoding are not modelled. They appear only as the opaque inputs described above.
- File I/O, `Date.now`, `new Date().toISOString()` and `Date.parse` are not modelled. They are inputs. Failures of the log directory or of file writes are not modelled. `appendLog` catches them and changes nothing, so they never reach a caller.
- `clearLogs` and the `log*` wrappers (`logLogin`, `logCreateUser`, …) are not modelled. The controllers' audit calls are left out too: `appendLog` catches its own errors and cannot change a controller's reply or the user store.
- `readUsers` throwing (a corrupt document) and `bcrypt.compare` or speakeasy throwing are not modelled. Only a throwing `writeUsers` is modelled, because it is the one fault after an in-place edit.
- Request fields are modelled as absent or as strings; `verifyTotp`'s token is always a string, so a missing token is not distinguished from one the verifier rejects. JavaScript values of other types (a numeric password whose `.length` is undefined, a non-string timestamp) are not modelled.
- Keys inherited from `Object.prototype` (`constructor`, `__proto__`) are not modelled. Such keys would make `users.users[email]` truthy for an e-mail that was never stored; the model treats them as absent.
- Concurrency is not modelled. Interleaved async handlers and the read-modify-write race between two requests are left out; every call runs alone.
- Reset's fresh secret is not modelled as differing from the previous one. Randomness is an input, so "never reused" is not provable here.
- The HTTP message texts are not modelled; each reply is a datatype constructor with its status code.
