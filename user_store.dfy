/** The user repository shared by the authentication and administration
    controllers: the record kept per user, the JSON document that holds all
    of them, and the cache-backed store behind `readUsers`, `writeUsers` and
    `invalidateUsersCache`. */
module UserStore {
  import opened JsValues

  /** One entry of `users.users`, keyed by e-mail. `password` is a bcrypt
      hash, `secret` the base-32 TOTP secret, `qrCode` the data URL of its
      enrolment QR code. `role` is free text: only creation checks it. */
  datatype UserRecord = UserRecord(
    id: string,
    name: string,
    password: string,
    secret: string,
    qrCode: string,
    isVerified: bool,
    isDeleted: bool,
    role: string)

  /** What `speakeasy.generateSecret` followed by `qrcode.toDataURL`
      produce: a fresh secret and the QR data URL of its otpauth URL. */
  datatype Enrollment = Enrollment(secret: string, qrCode: string)

  /** The persisted JSON document: `{ users: {...} }`, plus the top-level
      `user` key that a soft delete leaves behind. */
  datatype Doc = Doc(users: map<string, UserRecord>, stray: Option<UserRecord>)

  /** The record both user creation and first-login provisioning build:
      `name || email` as display name, not verified, not deleted. */
  function NewRecord(email: string, name: Option<string>, hashed: string,
                     enrollment: Enrollment, role: string): UserRecord
  {
    UserRecord(email, if Present(name) then name.value else email, hashed,
               enrollment.secret, enrollment.qrCode, false, false, role)
  }

  /** Every record is stored under its own id (the e-mail is the primary key). */
  ghost predicate WellKeyed(users: map<string, UserRecord>) {
    forall k :: k in users ==> users[k].id == k
  }

  /** Soft delete is absorbing: what was deleted before is still there, still deleted. */
  ghost predicate DeletionsKept(before: map<string, UserRecord>, after: map<string, UserRecord>) {
    forall k :: k in before && before[k].isDeleted ==> k in after && after[k].isDeleted
  }

  /** `after` differs from `before` at most in the record stored under `key`. */
  ghost predicate OthersUnchanged(before: map<string, UserRecord>, after: map<string, UserRecord>, key: string) {
    forall k :: k in before && k != key ==> k in after && after[k] == before[k]
  }

  /** What one controller call does to the store, given the document that
      `readUsers` handed out: nothing at all (it failed validation before
      reading), a read only, or an in-place mutation of the cached document
      (`staged`) followed by `writeUsers(written)`. `resp` is the reply sent
      when no write fails. */
  datatype Effect<R> =
    | NoRead(resp: R)
    | ReadOnly(resp: R)
    | Write(resp: R, staged: Doc, written: Doc)

  /** The two fields of the store: the durable document and the cache. */
  datatype Snapshot = Snapshot(disk: Doc, cache: Option<Doc>) {
    /** What `readUsers` returns: the cache when loaded, else the disk. */
    function View(): Doc {
      cache.GetOr(disk)
    }

    /** A reader sees exactly what the durable layer committed. */
    predicate Coherent() {
      cache.None? || cache.value == disk
    }
  }

  /** The store after a controller performs `e`. `writeFails` says whether
      `writeUsers` threw; `invalidateOnError` whether the controller's error
      handler calls `invalidateUsersCache`. */
  function Next<R>(s: Snapshot, e: Effect<R>, writeFails: bool, invalidateOnError: bool): Snapshot {
    match e
    case NoRead(_) => s
    case ReadOnly(_) => Snapshot(s.disk, Some(s.View()))
    case Write(_, staged, written) =>
      if !writeFails then Snapshot(written, Some(written))
      else Snapshot(s.disk, if invalidateOnError then None else Some(staged))
  }

  /** A controller that invalidates the cache on error keeps the cache
      coherent with the disk whatever it does and whether or not its write fails. */
  lemma InvalidationKeepsCoherence<R>(s: Snapshot, e: Effect<R>, writeFails: bool)
    requires s.Coherent()
    ensures Next(s, e, writeFails, true).Coherent()
    ensures Next(s, e, writeFails, true).disk == (if e.Write? && !writeFails then e.written else s.disk)
  {
  }

  /** A controller that does not invalidate leaves its uncommitted in-place
      mutation in the cache when the write fails: the next `readUsers`
      returns a document the disk never held. */
  lemma FailedWriteLeavesStaleCache<R>(s: Snapshot, e: Effect<R>)
    requires e.Write? && e.staged != s.disk
    ensures !Next(s, e, true, false).Coherent()
    ensures Next(s, e, true, false).View() == e.staged
    ensures Next(s, e, true, false).disk == s.disk
  {
  }

  /** The repository helper: a durable document and an optional in-memory
      copy. `readUsers` hands out the cached object itself, so a controller's
      in-place edits land in the cache before anything is written. */
  class Store {
    var disk: Doc
    var cache: Option<Doc>

    function Snap(): Snapshot
      reads this
    {
      Snapshot(disk, cache)
    }

    constructor (initial: Doc)
      ensures disk == initial && cache == None
    {
      disk := initial;
      cache := None;
    }

    /** readUsers: load the disk into the cache if it is empty, then hand out the cached document. */
    method Read() returns (d: Doc)
      modifies this
      ensures d == old(Snap().View())
      ensures disk == old(disk) && cache == Some(d)
    {
      if cache.None? {
        cache := Some(disk);
      }
      d := cache.value;
    }

    /** An assignment into the document `Read` handed out (`users.users[email] = ...`,
        `user.is_verified = true`): visible in the cache at once, not on disk. */
    method Mutate(d: Doc)
      requires cache.Some?
      modifies this
      ensures disk == old(disk) && cache == Some(d)
    {
      cache := Some(d);
    }

    /** writeUsers: replace the whole durable document and the cache with `d`;
        when the write throws (`fails`) neither changes. */
    method Write(d: Doc, fails: bool) returns (ok: bool)
      modifies this
      ensures ok == !fails
      ensures ok ==> disk == d && cache == Some(d)
      ensures !ok ==> disk == old(disk) && cache == old(cache)
    {
      ok := !fails;
      if ok {
        disk := d;
        cache := Some(d);
      }
    }

    /** invalidateUsersCache: drop the cache; the next read reloads the disk. */
    method Invalidate()
      modifies this
      ensures disk == old(disk) && cache == None
    {
      cache := None;
    }
  }
}
