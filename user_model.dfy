/**
 * The User entity: its persisted fields, the `password` virtual that derives
 * `salt` and `hashed_password`, `encryptPassword` / `authenticate`, and the
 * validation rules that write into the document's error map.
 */
module UserModel {
  import opened Wrappers
  import JsString

  type Id = string

  /**
   * HMAC-SHA1 of a text under a key, as a hex digest: a deterministic
   * function that never returns "". Its internals are not modelled.
   */
  type Hmac = f: (string, string) -> string | forall key, text :: f(key, text) != ""
    witness (key: string, text: string) => "0"

  const NameRequired := "Name is required"
  const EmailRequired := "Email is required"
  const EmailInvalid := "Please fill a valid email address"
  const PasswordRequired := "Password is required"
  const PasswordTooShort := "Password must be at least 6 characters."
  const MinPasswordLength := 6

  /** The persisted fields of a user; None is a field that is unset (undefined). */
  datatype UserRecord = UserRecord(
    id: Id,
    name: Option<string>,
    email: Option<string>,
    hashedPassword: Option<string>,
    salt: Option<string>,
    updated: Option<int>,
    created: int)

  /** The keys a request body assigns to a user; None is a key the body does not have. */
  datatype Body = Body(
    name: Option<string>,
    email: Option<string>,
    password: Option<string>,
    hashedPassword: Option<string>,
    salt: Option<string>,
    updated: Option<int>,
    created: Option<int>)

  /** The paths the schema's rules invalidate. */
  datatype Path = NamePath | EmailPath | HashedPasswordPath | PasswordPath {
    /** The key the path has in the error map. */
    function Key(): string {
      match this
      case NamePath => "name"
      case EmailPath => "email"
      case HashedPasswordPath => "hashed_password"
      case PasswordPath => "password"
    }
  }

  /** One entry of the document's validation errors: the path and its message. */
  datatype ValidatorError = ValidatorError(path: Path, message: string)

  /** Mongoose's `required` check on a string path: set and non-empty. */
  predicate Present(v: Option<string>) {
    v.Some? && v.value != ""
  }

  /** The password is set but shorter than the minimum. */
  predicate TooShort(password: Option<string>) {
    Present(password) && |password.value| < MinPasswordLength
  }

  /**
   * encryptPassword: "" for an empty password, "" when the crypto call
   * throws (no salt to key the HMAC with), and otherwise the HMAC digest.
   */
  function Encrypt(hmac: Hmac, salt: Option<string>, plain: string): (r: string)
    ensures r == "" <==> plain == "" || salt.None?
    ensures plain != "" && salt.Some? ==> r == hmac(salt.value, plain)
  {
    if plain == "" then ""
    else match salt
      case None => ""
      case Some(key) => hmac(key, plain)
  }

  predicate HasPath(errs: seq<ValidatorError>, path: Path) {
    exists i | 0 <= i < |errs| :: errs[i].path == path
  }

  /** Each path appears at most once, as keys of a JavaScript object do. */
  predicate UniquePaths(errs: seq<ValidatorError>) {
    forall i, j | 0 <= i < j < |errs| :: errs[i].path != errs[j].path
  }

  /**
   * `invalidate(path, message)`: records the message under `path`; an
   * existing entry is overwritten where it stands, a new one goes last.
   */
  function Invalidated(errs: seq<ValidatorError>, path: Path, message: string): (r: seq<ValidatorError>)
    requires UniquePaths(errs)
    ensures UniquePaths(r)
    ensures |r| == if HasPath(errs, path) then |errs| else |errs| + 1
    ensures forall i | 0 <= i < |errs| ::
              r[i] == if errs[i].path == path then ValidatorError(path, message) else errs[i]
    ensures !HasPath(errs, path) ==> r == errs + [ValidatorError(path, message)]
  {
    if errs == [] then [ValidatorError(path, message)]
    else if errs[0].path == path then [ValidatorError(path, message)] + errs[1..]
    else [errs[0]] + Invalidated(errs[1..], path, message)
  }

  /**
   * The `hashed_password` validate hook: a set password shorter than 6
   * characters, or a new document without a password, invalidates
   * `password`; the two never fire together, and a stored document without
   * a password passes.
   */
  function PasswordHook(errs: seq<ValidatorError>, password: Option<string>, isNew: bool): (r: seq<ValidatorError>)
    requires UniquePaths(errs)
    ensures UniquePaths(r)
    ensures TooShort(password) ==> r == Invalidated(errs, PasswordPath, PasswordTooShort)
    ensures isNew && !Present(password) ==> r == Invalidated(errs, PasswordPath, PasswordRequired)
    ensures !TooShort(password) && !(isNew && !Present(password)) ==> r == errs
  {
    var afterLength := if TooShort(password) then Invalidated(errs, PasswordPath, PasswordTooShort) else errs;
    if isNew && !Present(password) then Invalidated(afterLength, PasswordPath, PasswordRequired) else afterLength
  }

  /** The `name` rule: `required`. */
  function NameErrors(name: Option<string>): (r: seq<ValidatorError>)
    ensures r == if Present(name) then [] else [ValidatorError(NamePath, NameRequired)]
  {
    if !Present(name) then [ValidatorError(NamePath, NameRequired)] else []
  }

  /** The `email` rules: `required` first, then `match` on the non-empty address. */
  function EmailErrors(email: Option<string>): (r: seq<ValidatorError>)
    ensures !Present(email) ==> r == [ValidatorError(EmailPath, EmailRequired)]
    ensures Present(email) ==>
              r == if JsString.MatchesEmailPattern(email.value) then [] else [ValidatorError(EmailPath, EmailInvalid)]
  {
    if !Present(email) then [ValidatorError(EmailPath, EmailRequired)]
    else if !JsString.MatchesEmailPattern(email.value) then [ValidatorError(EmailPath, EmailInvalid)]
    else []
  }

  /** The `hashed_password` rules: `required` first, then the validate hook. */
  function HashErrors(hashedPassword: Option<string>, password: Option<string>, isNew: bool): (r: seq<ValidatorError>)
    ensures UniquePaths(r)
    ensures !Present(hashedPassword) ==> r == [ValidatorError(HashedPasswordPath, PasswordRequired)]
    ensures Present(hashedPassword) ==> r == PasswordHook([], password, isNew)
  {
    if !Present(hashedPassword) then [ValidatorError(HashedPasswordPath, PasswordRequired)]
    else PasswordHook([], password, isNew)
  }

  /**
   * The errors a validation run records, path by path in schema order. On
   * each path `required` is checked first and a failing rule ends the checks
   * of that path, so `match` only sees a non-empty e-mail and the hook only
   * runs once `hashed_password` is set.
   */
  function SchemaErrors(name: Option<string>, email: Option<string>, hashedPassword: Option<string>,
                        password: Option<string>, isNew: bool): (r: seq<ValidatorError>)
    ensures |r| <= 3
    ensures r != [] ==> r[|r| - 1].message != ""
  {
    NameErrors(name) + EmailErrors(email) + HashErrors(hashedPassword, password, isNew)
  }

  /**
   * Each path's rules record at most one error, and none exactly when the
   * path's value passes them.
   */
  lemma RulesRecordAtMostOne(name: Option<string>, email: Option<string>, hashedPassword: Option<string>,
                             password: Option<string>, isNew: bool)
    ensures NameErrors(name) == [] <==> Present(name)
    ensures EmailErrors(email) == [] <==> Present(email) && JsString.MatchesEmailPattern(email.value)
    ensures HashErrors(hashedPassword, password, isNew) == [] <==>
              Present(hashedPassword) && !TooShort(password) && !(isNew && !Present(password))
    ensures |NameErrors(name)| <= 1 && |EmailErrors(email)| <= 1 && |HashErrors(hashedPassword, password, isNew)| <= 1
  {
  }

  /** The name and e-mail rules record only their own paths, at most once each. */
  lemma SchemaPrefixPaths(name: Option<string>, email: Option<string>)
    ensures UniquePaths(NameErrors(name)) && !HasPath(NameErrors(name), EmailPath)
    ensures var errs := NameErrors(name) + EmailErrors(email);
            UniquePaths(errs) && !HasPath(errs, HashedPasswordPath) && !HasPath(errs, PasswordPath)
  {
    var errs := NameErrors(name) + EmailErrors(email);
    assert forall i | 0 <= i < |errs| :: errs[i].path in {NamePath, EmailPath};
  }

  /** On a map without a `password` entry the hook only appends. */
  lemma HookAppends(errs: seq<ValidatorError>, password: Option<string>, isNew: bool)
    requires UniquePaths(errs) && !HasPath(errs, PasswordPath)
    ensures PasswordHook(errs, password, isNew) == errs + PasswordHook([], password, isNew)
  {
  }

  /**
   * A validation run records nothing exactly when every rule holds: name
   * and e-mail set, the e-mail matching the pattern, a hash set, and the
   * hook satisfied.
   */
  lemma SchemaAccepts(name: Option<string>, email: Option<string>, hashedPassword: Option<string>,
                      password: Option<string>, isNew: bool)
    ensures SchemaErrors(name, email, hashedPassword, password, isNew) == [] <==>
              Present(name) && Present(email) && JsString.MatchesEmailPattern(email.value) &&
              Present(hashedPassword) && !TooShort(password) && !(isNew && !Present(password))
  {
    var h := HashErrors(hashedPassword, password, isNew);
    if Present(hashedPassword) {
      assert TooShort(password) ==> h == [ValidatorError(PasswordPath, PasswordTooShort)];
      assert isNew && !Present(password) ==> h == [ValidatorError(PasswordPath, PasswordRequired)];
    }
  }

  /**
   * Once the hash is set, a password error is the last entry of the run:
   * "too short" for a short password, "required" for a new document without one.
   */
  lemma PasswordErrorIsLast(name: Option<string>, email: Option<string>, hashedPassword: Option<string>,
                            password: Option<string>, isNew: bool)
    requires Present(hashedPassword)
    ensures var errs := SchemaErrors(name, email, hashedPassword, password, isNew);
            (TooShort(password) ==> errs != [] && errs[|errs| - 1] == ValidatorError(PasswordPath, PasswordTooShort)) &&
            (isNew && !Present(password) ==> errs != [] && errs[|errs| - 1] == ValidatorError(PasswordPath, PasswordRequired))
  {
    var h := HashErrors(hashedPassword, password, isNew);
    assert TooShort(password) ==> h == [ValidatorError(PasswordPath, PasswordTooShort)];
    assert isNew && !Present(password) ==> h == [ValidatorError(PasswordPath, PasswordRequired)];
  }

  /** A fresh user: only `created` is set, to the time of creation. */
  function Blank(id: Id, now: int): UserRecord {
    UserRecord(id, None, None, None, None, None, now)
  }

  /**
   * The record after the setters for the plain keys of `b` have run: each
   * key overwrites its field (names and addresses trimmed) and every other
   * field keeps its value.
   */
  function Overwritten(r: UserRecord, b: Body): (u: UserRecord)
    ensures u.id == r.id
    ensures u.name == if b.name.Some? then Some(JsString.Trim(b.name.value)) else r.name
    ensures u.email == if b.email.Some? then Some(JsString.Trim(b.email.value)) else r.email
    ensures u.hashedPassword == if b.hashedPassword.Some? then b.hashedPassword else r.hashedPassword
    ensures u.salt == if b.salt.Some? then b.salt else r.salt
    ensures u.updated == if b.updated.Some? then b.updated else r.updated
    ensures u.created == if b.created.Some? then b.created.value else r.created
  {
    r.(
      name := if b.name.Some? then Some(JsString.Trim(b.name.value)) else r.name,
      email := if b.email.Some? then Some(JsString.Trim(b.email.value)) else r.email,
      hashedPassword := if b.hashedPassword.Some? then b.hashedPassword else r.hashedPassword,
      salt := if b.salt.Some? then b.salt else r.salt,
      updated := if b.updated.Some? then b.updated else r.updated,
      created := if b.created.Some? then b.created.value else r.created)
  }

  /**
   * The record after the setters for all keys of `b` have run, the
   * password last: the plain keys overwrite their fields, and a password
   * then re-derives salt and hash from the fresh salt.
   */
  function Extend(r: UserRecord, b: Body, freshSalt: string, hmac: Hmac): (u: UserRecord)
    ensures u.id == r.id
    ensures u.name == if b.name.Some? then Some(JsString.Trim(b.name.value)) else r.name
    ensures u.email == if b.email.Some? then Some(JsString.Trim(b.email.value)) else r.email
    ensures u.updated == if b.updated.Some? then b.updated else r.updated
    ensures u.created == if b.created.Some? then b.created.value else r.created
    ensures b.password.Some? ==>
              u.salt == Some(freshSalt) && u.hashedPassword == Some(Encrypt(hmac, Some(freshSalt), b.password.value))
    ensures b.password.None? ==>
              u.salt == (if b.salt.Some? then b.salt else r.salt) &&
              u.hashedPassword == (if b.hashedPassword.Some? then b.hashedPassword else r.hashedPassword)
  {
    var plain := Overwritten(r, b);
    if b.password.Some? then
      plain.(salt := Some(freshSalt), hashedPassword := Some(Encrypt(hmac, Some(freshSalt), b.password.value)))
    else plain
  }

  /**
   * A body with a non-empty password leaves a record that authenticates it:
   * its non-empty hash is that password's digest under the record's own salt.
   */
  lemma ExtendRehashes(r: UserRecord, b: Body, freshSalt: string, hmac: Hmac)
    requires b.password.Some? && b.password.value != ""
    ensures var u := Extend(r, b, freshSalt, hmac);
            u.hashedPassword == Some(Encrypt(hmac, u.salt, b.password.value)) && u.hashedPassword.value != ""
  {
  }

  /** An empty body changes nothing. */
  lemma ExtendEmptyBody(r: UserRecord, freshSalt: string, hmac: Hmac)
    ensures Extend(r, Body(None, None, None, None, None, None, None), freshSalt, hmac) == r
  {
  }

  /** A Mongoose User document: the persisted fields plus in-memory state. */
  class UserDocument {
    /** The digest the schema's `encryptPassword` uses. */
    const hmac: Hmac
    const id: Id
    var name: Option<string>
    var email: Option<string>
    var hashedPassword: Option<string>
    var salt: Option<string>
    var updated: Option<int>
    var created: int
    /** `_password`: what the `password` virtual holds; never persisted. */
    var password: Option<string>
    var isNew: bool
    /** The errors `invalidate` has recorded, keyed by path, in the order first recorded. */
    var errors: seq<ValidatorError>

    /** The persisted fields, as `toJSON` shows them. */
    function Record(): (r: UserRecord)
      reads this`name, this`email, this`hashedPassword, this`salt, this`updated, this`created
      ensures r.id == id
    {
      UserRecord(id, name, email, hashedPassword, salt, updated, created)
    }

    /** `new User()`: an unsaved document whose `created` defaults to now. */
    constructor (hmac: Hmac, id: Id, now: int)
      ensures this.hmac == hmac
      ensures Record() == Blank(id, now)
      ensures password.None? && isNew && errors == []
    {
      this.hmac := hmac;
      this.id := id;
      name, email, hashedPassword, salt, updated := None, None, None, None, None;
      created := now;
      password := None;
      isNew := true;
      errors := [];
    }

    /** A document loaded from the store: not new, no password in memory. */
    constructor Load(hmac: Hmac, r: UserRecord)
      ensures this.hmac == hmac
      ensures Record() == r
      ensures password.None? && !isNew && errors == []
    {
      this.hmac := hmac;
      id := r.id;
      name, email, hashedPassword, salt, updated, created := r.name, r.email, r.hashedPassword, r.salt, r.updated, r.created;
      password := None;
      isNew := false;
      errors := [];
    }

    /** encryptPassword, keyed with this document's salt. */
    function EncryptPassword(plain: string): (r: string)
      reads this
      ensures r == "" <==> plain == "" || salt.None?
    {
      Encrypt(hmac, salt, plain)
    }

    /** authenticate: the digest of the attempt equals the stored hash. */
    function Authenticate(plain: string): (ok: bool)
      reads this
      ensures ok ==> hashedPassword.Some?
      ensures ok && hashedPassword.value != "" ==>
                plain != "" && salt.Some? && hashedPassword.value == hmac(salt.value, plain)
    {
      hashedPassword == Some(EncryptPassword(plain))
    }

    /**
     * The `password` setter: holds the plain text, takes a fresh salt and
     * replaces the hash with the digest under that salt, all together; the
     * getter then returns the value set.
     */
    method SetPassword(plain: string, freshSalt: string)
      modifies this`password, this`salt, this`hashedPassword
      ensures password == Some(plain)
      ensures salt == Some(freshSalt)
      ensures hashedPassword == Some(Encrypt(hmac, Some(freshSalt), plain))
      ensures plain != "" ==> Authenticate(plain)
    {
      password := Some(plain);
      salt := Some(freshSalt);
      hashedPassword := Some(EncryptPassword(plain));
    }

    /** The setters for the plain keys of a body. */
    method AssignKeys(b: Body)
      modifies this`name, this`email, this`hashedPassword, this`salt, this`updated, this`created
      ensures Record() == Overwritten(old(Record()), b)
    {
      name := if b.name.Some? then Some(JsString.Trim(b.name.value)) else name;
      email := if b.email.Some? then Some(JsString.Trim(b.email.value)) else email;
      hashedPassword := if b.hashedPassword.Some? then b.hashedPassword else hashedPassword;
      salt := if b.salt.Some? then b.salt else salt;
      updated := if b.updated.Some? then b.updated else updated;
      created := if b.created.Some? then b.created.value else created;
    }

    /** The setters run for each key of a body (`new User(body)`, lodash `extend`), the password last. */
    method Assign(b: Body, freshSalt: string)
      modifies this`name, this`email, this`hashedPassword, this`salt, this`updated, this`created, this`password
      ensures Record() == Extend(old(Record()), b, freshSalt, hmac)
      ensures password == if b.password.Some? then b.password else old(password)
    {
      AssignKeys(b);
      if b.password.Some? {
        SetPassword(b.password.value, freshSalt);
      }
    }

    /** `invalidate(path, message)` on this document. */
    method Invalidate(path: Path, message: string)
      requires UniquePaths(errors)
      modifies this`errors
      ensures errors == Invalidated(old(errors), path, message)
    {
      errors := Invalidated(errors, path, message);
    }

    /** The `hashed_password` validate hook. */
    method CheckPassword()
      requires UniquePaths(errors)
      modifies this`errors
      ensures errors == PasswordHook(old(errors), password, isNew)
    {
      if password.Some? && password.value != "" && |password.value| < MinPasswordLength {
        Invalidate(PasswordPath, PasswordTooShort);
      }
      if isNew && (password.None? || password.value == "") {
        Invalidate(PasswordPath, PasswordRequired);
      }
    }

    /** The `name` validators: `required`. */
    method CheckName()
      requires UniquePaths(errors) && !HasPath(errors, NamePath)
      modifies this`errors
      ensures errors == old(errors) + NameErrors(name)
    {
      if !Present(name) {
        Invalidate(NamePath, NameRequired);
      }
    }

    /** The `email` validators: `required`, then `match` once the address is set. */
    method CheckEmail()
      requires UniquePaths(errors) && !HasPath(errors, EmailPath)
      modifies this`errors
      ensures errors == old(errors) + EmailErrors(email)
    {
      if !Present(email) {
        Invalidate(EmailPath, EmailRequired);
      } else if !JsString.MatchesEmailPattern(email.value) {
        Invalidate(EmailPath, EmailInvalid);
      }
    }

    /** The `hashed_password` validators: `required`, then the hook once the hash is set. */
    method CheckHashedPassword()
      requires UniquePaths(errors) && !HasPath(errors, HashedPasswordPath) && !HasPath(errors, PasswordPath)
      modifies this`errors
      ensures errors == old(errors) + HashErrors(hashedPassword, password, isNew)
    {
      if !Present(hashedPassword) {
        Invalidate(HashedPasswordPath, PasswordRequired);
      } else {
        HookAppends(errors, password, isNew);
        CheckPassword();
      }
    }

    /** A validation run: clears the error map, then runs the validators path by path in schema order. */
    method Validate()
      modifies this`errors
      ensures errors == SchemaErrors(name, email, hashedPassword, password, isNew)
    {
      errors := [];
      CheckName();
      assert errors == NameErrors(name);
      SchemaPrefixPaths(name, email);
      CheckEmail();
      assert errors == NameErrors(name) + EmailErrors(email);
      CheckHashedPassword();
    }
  }

  /** An empty attempt never matches a non-empty stored hash. */
  lemma EmptyAttemptFails(d: UserDocument)
    requires d.hashedPassword.Some? && d.hashedPassword.value != ""
    ensures !d.Authenticate("")
  {
  }

  /** Without a salt no attempt matches a non-empty stored hash: the digest call fails and gives "". */
  lemma NoSaltNoMatch(d: UserDocument, plain: string)
    requires d.salt.None? && d.hashedPassword.Some? && d.hashedPassword.value != ""
    ensures !d.Authenticate(plain)
  {
  }
}
