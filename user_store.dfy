/**
 * The persistence the controller talks to, abstracted as a map from id to
 * stored user plus the collection's natural order. `save` validates the
 * document first (a Mongoose ValidationError), the database may then fail
 * with any error, and the unique index on `email` rejects an address
 * another user already has (a MongoDB duplicate-key error).
 */
module UserStore {
  import opened Wrappers
  import JsString
  import opened DbErrorHandler
  import opened UserModel

  /** The namespace of the users collection: database `mernproject`, collection `users`. */
  const Namespace := "mernproject.users"

  /** The head of MongoDB's duplicate-key message for the unique index on `email`. */
  const DuplicateKeyHead := "E11000 duplicate key error index: " + Namespace

  /** The message MongoDB gives when an insert or update repeats `value` in the `email_1` index. */
  function DuplicateKeyMessage(email: string): string {
    DuplicateKeyHead + ".$email_1" + DuplicateKeyTail(email)
  }

  /** What follows the index name: the offending key, quoted. */
  function DuplicateKeyTail(email: string): string {
    KeyOpen + email + KeyClose
  }

  const KeyOpen := " dup key: { : \""
  const KeyClose := "\" }"

  /** The duplicate-key error the unique index raises. */
  function DuplicateKeyError(email: string): (e: DbError)
    ensures IsDuplicateKey(e.code) && e.message.Some?
    ensures JsString.OccursAt(e.message.value, ".$email_1", |DuplicateKeyHead|)
  {
    DbError(Number(11000), Some(DuplicateKeyMessage(email)), [])
  }

  /** Mongoose's ValidationError: no code, one entry per invalidated path in the order recorded. */
  function ValidationFailure(errs: seq<ValidatorError>): (e: DbError)
    ensures !IsTruthy(e.code)
    ensures |e.errors| == |errs|
    ensures forall i | 0 <= i < |errs| :: e.errors[i] == ErrorEntry(errs[i].path.Key(), Some(errs[i].message))
  {
    DbError(NoCode, Some("User validation failed"), seq(|errs|, i requires 0 <= i < |errs| => ErrorEntry(errs[i].path.Key(), Some(errs[i].message))))
  }

  /** Another stored user already has this e-mail address. */
  predicate EmailTaken(users: map<Id, UserRecord>, id: Id, email: Option<string>) {
    exists other | other in users :: other != id && users[other].email == email
  }

  /** No two stored users share an e-mail address: what the unique index guarantees. */
  ghost predicate UniqueEmails(users: map<Id, UserRecord>) {
    forall a, b | a in users && b in users && a != b :: users[a].email != users[b].email
  }

  /**
   * The outcome of saving record `r` whose document holds `password` in its
   * virtual: validation errors first, then a database failure, then the
   * unique index; None when the record is written.
   */
  function SaveOutcome(users: map<Id, UserRecord>, r: UserRecord, password: Option<string>, isNew: bool,
                       fault: Option<DbError>): (e: Option<DbError>)
    ensures fault.Some? ==> e.Some?
    ensures e.None? ==> !EmailTaken(users, r.id, r.email)
  {
    var errs := SchemaErrors(r.name, r.email, r.hashedPassword, password, isNew);
    if errs != [] then Some(ValidationFailure(errs))
    else if fault.Some? then fault
    else if EmailTaken(users, r.id, r.email) then Some(DuplicateKeyError(r.email.value))
    else None
  }

  /** A save goes through exactly when validation passes, the database does not fail and the address is free. */
  lemma SaveSucceedsIff(users: map<Id, UserRecord>, r: UserRecord, password: Option<string>, isNew: bool,
                        fault: Option<DbError>)
    ensures SaveOutcome(users, r, password, isNew, fault).None? <==>
              Present(r.name) && Present(r.email) && JsString.MatchesEmailPattern(r.email.value) &&
              Present(r.hashedPassword) && !TooShort(password) && !(isNew && !Present(password)) &&
              fault.None? && !EmailTaken(users, r.id, r.email)
  {
    SchemaAccepts(r.name, r.email, r.hashedPassword, password, isNew);
    SaveOutcomeNone(users, r, password, isNew, fault);
  }

  /** The outcome is None exactly when no stage raises. */
  lemma SaveOutcomeNone(users: map<Id, UserRecord>, r: UserRecord, password: Option<string>, isNew: bool,
                        fault: Option<DbError>)
    ensures SaveOutcome(users, r, password, isNew, fault).None? <==>
              SchemaErrors(r.name, r.email, r.hashedPassword, password, isNew) == [] &&
              fault.None? && !EmailTaken(users, r.id, r.email)
  {
  }

  /** Writing a record whose address no other user has keeps the addresses unique. */
  lemma WriteKeepsEmailsUnique(users: map<Id, UserRecord>, r: UserRecord)
    requires UniqueEmails(users) && !EmailTaken(users, r.id, r.email)
    ensures UniqueEmails(users[r.id := r])
  {
    var next := users[r.id := r];
    forall a, b | a in next && b in next && a != b
      ensures next[a].email != next[b].email
    {
      if a == r.id {
        assert !(b in users && b != r.id && users[b].email == r.email);
      } else if b == r.id {
        assert !(a in users && a != r.id && users[a].email == r.email);
      }
    }
  }

  /**
   * A validation failure reports the message of the last rule that failed,
   * since the error handler keeps the last non-empty message.
   */
  lemma ValidationReportsLastError(errs: seq<ValidatorError>)
    requires errs != []
    requires errs[|errs| - 1].message != ""
    ensures ErrorMessage(ValidationFailure(errs)) == errs[|errs| - 1].message
  {
    var es := ValidationFailure(errs).errors;
    LastMessageWins(es, |es| - 1);
  }

  /**
   * A short password on a hashed document is reported, whatever else is
   * wrong with it, given that the hook's error is recorded after the field
   * rules' errors (the recording order the model assumes).
   */
  lemma ShortPasswordReported(users: map<Id, UserRecord>, r: UserRecord, password: Option<string>, isNew: bool,
                              fault: Option<DbError>)
    requires Present(r.hashedPassword) && TooShort(password)
    ensures SaveOutcome(users, r, password, isNew, fault).Some?
    ensures ErrorMessage(SaveOutcome(users, r, password, isNew, fault).value) == PasswordTooShort
  {
    PasswordErrorIsLast(r.name, r.email, r.hashedPassword, password, isNew);
    ValidationReportsLastError(SchemaErrors(r.name, r.email, r.hashedPassword, password, isNew));
  }

  /**
   * With name and address valid, a short password is the only error, so it
   * is reported whatever order the rules record their errors in.
   */
  lemma ShortPasswordAlone(users: map<Id, UserRecord>, r: UserRecord, password: Option<string>, isNew: bool,
                           fault: Option<DbError>)
    requires Present(r.name) && Present(r.email) && JsString.MatchesEmailPattern(r.email.value)
    requires Present(r.hashedPassword) && TooShort(password)
    ensures SaveOutcome(users, r, password, isNew, fault) ==
              Some(ValidationFailure([ValidatorError(PasswordPath, PasswordTooShort)]))
    ensures ErrorMessage(SaveOutcome(users, r, password, isNew, fault).value) == PasswordTooShort
  {
    var errs := [ValidatorError(PasswordPath, PasswordTooShort)];
    assert SchemaErrors(r.name, r.email, r.hashedPassword, password, isNew) == errs;
    ValidationReportsLastError(errs);
  }

  /** The duplicate-key message for an address without "_1" or ".$" names the `email` field. */
  lemma DuplicateEmailMessage(email: string)
    requires JsString.Free(email, "_1") && JsString.Free(email, ".$")
    ensures ErrorMessage(DuplicateKeyError(email)) == "Email already exists"
  {
    var open, close := KeyOpen, KeyClose;
    JsString.FreeWhenCharAbsent(open, ".$", 0);
    JsString.FreeWhenCharAbsent(open, "_1", 0);
    JsString.FreeWhenCharAbsent(close, ".$", 0);
    JsString.FreeWhenCharAbsent(close, "_1", 0);
    JsString.FreeJoin(open, email, ".$");
    JsString.FreeJoin(open, email, "_1");
    JsString.FreeJoin(open + email, close, ".$");
    JsString.FreeJoin(open + email, close, "_1");
    EmailAlreadyExists(DuplicateKeyHead, DuplicateKeyTail(email));
  }

  /**
   * An address holding "_1" moves the end of the extracted field into the
   * quoted key: the field runs from "email" up to that "_1", so such a
   * duplicate is never reported as "Email already exists".
   */
  lemma UnderscoreOneAddressMisreported(a: string, b: string)
    requires JsString.Free(a, ".$") && JsString.Free(b, ".$") && JsString.Free(b, "_1")
    ensures ErrorMessage(DuplicateKeyError(a + "_1" + b)) == "E" + ("mail_1" + KeyOpen + a) + AlreadyExists
    ensures ErrorMessage(DuplicateKeyError(a + "_1" + b)) != "Email already exists"
  {
    var rest := "mail_1" + KeyOpen + a;
    var m := DuplicateKeyMessage(a + "_1" + b);
    UnderscoreOneField(a, b);
    CapitalizedTail(rest);
    var e := DuplicateKeyError(a + "_1" + b);
    assert IsDuplicateKey(e.code) && e.message == Some(m);
    assert ErrorMessage(e) == UniqueErrorMessage(Some(m)) == "E" + rest + AlreadyExists;
    assert |ErrorMessage(e)| > |"Email already exists"|;
  }

  /** The field cut out of such a message runs from "email" to the address's "_1". */
  lemma UnderscoreOneField(a: string, b: string)
    requires JsString.Free(a, ".$") && JsString.Free(b, ".$") && JsString.Free(b, "_1")
    ensures ExtractField(DuplicateKeyMessage(a + "_1" + b)) == "e" + ("mail_1" + KeyOpen + a)
  {
    var field, post := "e" + ("mail_1" + KeyOpen + a), b + KeyClose;
    assert DuplicateKeyMessage(a + "_1" + b) == DuplicateKeyHead + ".$" + field + "_1" + post;
    JsString.FreeWhenCharAbsent("e" + "mail_1" + KeyOpen, ".$", 1);
    JsString.FreeJoin("e" + "mail_1" + KeyOpen, a, ".$");
    assert field == "e" + "mail_1" + KeyOpen + a;
    JsString.FreeWhenCharAbsent(KeyClose, ".$", 0);
    JsString.FreeWhenCharAbsent(KeyClose, "_1", 0);
    JsString.FreeJoin(b, KeyClose, ".$");
    JsString.FreeJoin(b, KeyClose, "_1");
    ExtractsIndexField(DuplicateKeyHead, field, post);
  }

  lemma CapitalizedTail(rest: string)
    ensures JsString.CapitalizeFirst("e" + rest) == "E" + rest
  {
    assert ("e" + rest)[1..] == rest;
  }

  /** The address "b_1@x.co", for one. */
  lemma UnderscoreOneExample()
    ensures ErrorMessage(DuplicateKeyError("b_1@x.co")) != "Email already exists"
  {
    assert "b_1@x.co" == "b" + "_1" + "@x.co";
    JsString.FreeWhenCharAbsent("b", ".$", 0);
    JsString.FreeWhenCharAbsent("@x.co", ".$", 1);
    JsString.FreeWhenCharAbsent("@x.co", "_1", 0);
    UnderscoreOneAddressMisreported("b", "@x.co");
  }

  /**
   * A valid record whose address another user holds is rejected with
   * "Email already exists", for every address without "_1" or ".$", the
   * markers the field extraction searches for.
   */
  lemma TakenEmailReported(users: map<Id, UserRecord>, r: UserRecord, password: Option<string>, isNew: bool)
    requires SchemaErrors(r.name, r.email, r.hashedPassword, password, isNew) == []
    requires EmailTaken(users, r.id, r.email)
    requires r.email.Some? && JsString.Free(r.email.value, "_1") && JsString.Free(r.email.value, ".$")
    ensures SaveOutcome(users, r, password, isNew, None).Some?
    ensures ErrorMessage(SaveOutcome(users, r, password, isNew, None).value) == "Email already exists"
  {
    DuplicateEmailMessage(r.email.value);
  }

  /** A record as the controller sends it: `hashed_password` and `salt` cleared, everything else kept. */
  function Sanitized(r: UserRecord): (s: UserRecord)
    ensures s.hashedPassword.None? && s.salt.None?
    ensures s.id == r.id && s.name == r.name && s.email == r.email
    ensures s.updated == r.updated && s.created == r.created
  {
    r.(hashedPassword := None, salt := None)
  }

  /** `order` without `id`, the rest in the same order. */
  function Without(order: seq<Id>, id: Id): (r: seq<Id>)
    ensures id !in r
    ensures forall x :: x in r <==> x in order && x != id
    ensures |r| <= |order|
  {
    if order == [] then []
    else if order[0] == id then Without(order[1..], id)
    else [order[0]] + Without(order[1..], id)
  }

  /** Removing an id from a duplicate-free order leaves it duplicate-free. */
  lemma {:induction false} WithoutDistinct(order: seq<Id>, id: Id)
    requires Distinct(order)
    ensures Distinct(Without(order, id))
  {
    if order != [] {
      var w := Without(order[1..], id);
      WithoutDistinct(order[1..], id);
      if order[0] != id {
        assert order[0] !in order[1..];
        assert Without(order, id) == [order[0]] + w;
        assert forall j | 0 <= j < |w| :: w[j] in w;
      }
    }
  }

  predicate Distinct(order: seq<Id>) {
    forall i, j | 0 <= i < j < |order| :: order[i] != order[j]
  }

  /**
   * `User.find().select('name email updated created')`: every stored user in
   * the collection's order, with only id, name, e-mail and timestamps.
   */
  function Listing(users: map<Id, UserRecord>, order: seq<Id>): (r: seq<UserRecord>)
    requires forall id | id in order :: id in users
    ensures |r| == |order|
    ensures forall i | 0 <= i < |order| :: r[i] == Sanitized(users[order[i]])
  {
    if order == [] then [] else [Sanitized(users[order[0]])] + Listing(users, order[1..])
  }

  /** No listed user carries a hash or a salt. */
  lemma {:induction false} ListingHasNoSecrets(users: map<Id, UserRecord>, order: seq<Id>)
    requires forall id | id in order :: id in users
    ensures forall u | u in Listing(users, order) :: u.hashedPassword.None? && u.salt.None?
  {
    forall u | u in Listing(users, order)
      ensures u.hashedPassword.None? && u.salt.None?
    {
      var i :| 0 <= i < |order| && Listing(users, order)[i] == u;
    }
  }

  /**
   * The order lists exactly the stored ids, once each; every user is stored
   * under its own id; and no two users share an address.
   */
  ghost predicate Consistent(users: map<Id, UserRecord>, order: seq<Id>) {
    (forall id :: id in users <==> id in order) &&
    Distinct(order) &&
    (forall id | id in users :: users[id].id == id) &&
    UniqueEmails(users)
  }

  /** Writing a record with a free address, appending a new id to the order, keeps the collection consistent. */
  lemma WriteKeepsConsistent(users: map<Id, UserRecord>, order: seq<Id>, r: UserRecord)
    requires Consistent(users, order) && !EmailTaken(users, r.id, r.email)
    ensures Consistent(users[r.id := r], if r.id in users then order else order + [r.id])
  {
    WriteKeepsEmailsUnique(users, r);
  }

  /** The users collection. */
  class Store {
    /** The digest documents loaded from this store encrypt with. */
    const hmac: Hmac
    var users: map<Id, UserRecord>
    /** The collection's natural order: ids in the order first inserted. */
    var order: seq<Id>

    ghost predicate Valid()
      reads this
    {
      Consistent(users, order)
    }

    constructor (hmac: Hmac)
      ensures Valid()
      ensures this.hmac == hmac && users == map[] && order == []
    {
      this.hmac := hmac;
      users := map[];
      order := [];
    }

    /** `User.findById(id)`, when the lookup does not fail. */
    function Find(id: Id): (r: Option<UserRecord>)
      reads this
      ensures r.Some? <==> id in users
      ensures r.Some? ==> r.value == users[id]
    {
      if id in users then Some(users[id]) else None
    }

    /** `list`'s query, when it does not fail. */
    function List(): (r: seq<UserRecord>)
      reads this
      requires Valid()
      ensures r == Listing(users, order)
      ensures |r| == |users|
      ensures forall u | u in r :: u.hashedPassword.None? && u.salt.None? && u.id in users && u == Sanitized(users[u.id])
    {
      ListingHasNoSecrets(users, order);
      OrderCoversUsers();
      Listing(users, order)
    }

    /** The order lists each stored user once, so it is as long as the map is large. */
    lemma OrderCoversUsers()
      requires Valid()
      ensures |users| == |order|
    {
      assert users.Keys == set id | id in order;
      DistinctCardinality(order);
    }

    /**
     * `document.save()`: validates, then writes the record (inserting a new
     * document, replacing a stored one) unless the database fails or the
     * address is taken; a written document is no longer new.
     */
    method Save(doc: UserDocument, fault: Option<DbError>) returns (err: Option<DbError>)
      requires Valid()
      requires doc.isNew <==> doc.id !in users
      modifies this, doc`errors, doc`isNew
      ensures Valid()
      ensures err == SaveOutcome(old(users), doc.Record(), doc.password, old(doc.isNew), fault)
      ensures err.None? ==> users == old(users)[doc.id := doc.Record()] && !doc.isNew
      ensures err.None? ==> order == if old(doc.isNew) then old(order) + [doc.id] else old(order)
      ensures err.Some? ==> users == old(users) && order == old(order) && doc.isNew == old(doc.isNew)
    {
      doc.Validate();
      ghost var r0 := doc.Record();
      assert SaveOutcome(users, r0, doc.password, doc.isNew, fault) ==
             if doc.errors != [] then Some(ValidationFailure(doc.errors))
             else if fault.Some? then fault
             else if EmailTaken(users, r0.id, r0.email) then Some(DuplicateKeyError(r0.email.value))
             else None;
      if doc.errors != [] {
        return Some(ValidationFailure(doc.errors));
      }
      if fault.Some? {
        return fault;
      }
      var r := doc.Record();
      if EmailTaken(users, r.id, r.email) {
        return Some(DuplicateKeyError(r.email.value));
      }
      WriteKeepsConsistent(users, order, r);
      if doc.isNew {
        order := order + [r.id];
      }
      users := users[r.id := r];
      doc.isNew := false;
      err := None;
    }

    /** `document.remove()`: deletes the user unless the database fails. */
    method Remove(id: Id, fault: Option<DbError>) returns (err: Option<DbError>)
      requires Valid()
      modifies this
      ensures Valid()
      ensures err == fault
      ensures err.None? ==> users == old(users) - {id} && order == Without(old(order), id)
      ensures err.Some? ==> users == old(users) && order == old(order)
    {
      if fault.Some? {
        return fault;
      }
      WithoutDistinct(order, id);
      users := users - {id};
      order := Without(order, id);
      err := None;
    }
  }

  /** A duplicate-free sequence has as many distinct elements as it is long. */
  lemma {:induction false} DistinctCardinality(order: seq<Id>)
    requires Distinct(order)
    ensures |set id | id in order| == |order|
  {
    if order != [] {
      DistinctCardinality(order[1..]);
      assert (set id | id in order) == (set id | id in order[1..]) + {order[0]};
    }
  }
}
