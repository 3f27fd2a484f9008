/**
 * The user controller's handlers over the store: sign-up, loading the
 * profile named by the `:userId` route parameter, reading, listing,
 * updating and removing users. Every failure of the store becomes a 400
 * response carrying the error handler's message.
 */
module UserController {
  import opened Wrappers
  import opened DbErrorHandler
  import opened UserModel
  import opened UserStore

  const SignedUp := "Successfully signed up!"
  const NotFound := "User not found"
  const NotRetrieved := "Could not retrieve user"

  /** The JSON body of a response. */
  datatype Payload =
    | Message(message: string)
    | Error(error: string)
    | Profile(user: UserRecord)
    | Users(users: seq<UserRecord>)

  datatype Response = Response(status: int, payload: Payload)

  /** The response for a failed store operation: 400 with the handler's message. */
  function Failure(err: DbError): (res: Response)
    ensures res == Response(400, Error(ErrorMessage(err)))
    ensures IsDuplicateKey(err.code) ==> res.payload.error == UniqueErrorMessage(err.message)
  {
    Response(400, Error(ErrorMessage(err)))
  }

  /** The request as the handlers see it: its body, and the profile `userByID` attaches. */
  class Request {
    const body: Body
    var profile: UserDocument?

    constructor (body: Body)
      ensures this.body == body && profile == null
    {
      this.body := body;
      profile := null;
    }
  }

  /** The record `update` saves: the profile merged with the body, stamped with the current time. */
  function Merged(r: UserRecord, b: Body, now: int, freshSalt: string, hmac: Hmac): (u: UserRecord)
    ensures u.id == r.id && u.updated == Some(now)
    ensures u.name == if b.name.Some? then Some(JsString.Trim(b.name.value)) else r.name
    ensures u.email == if b.email.Some? then Some(JsString.Trim(b.email.value)) else r.email
    ensures u.created == if b.created.Some? then b.created.value else r.created
    ensures u.salt == Extend(r, b, freshSalt, hmac).salt
    ensures u.hashedPassword == Extend(r, b, freshSalt, hmac).hashedPassword
  {
    Extend(r, b, freshSalt, hmac).(updated := Some(now))
  }

  /**
   * `create`: a new document from the body, saved; 200 with the sign-up
   * message when the save goes through, 400 with the error's message
   * otherwise.
   */
  method Create(store: Store, body: Body, id: Id, now: int, freshSalt: string, fault: Option<DbError>)
    returns (res: Response)
    requires store.Valid() && id !in store.users
    modifies store
    ensures store.Valid()
    ensures var r := Extend(Blank(id, now), body, freshSalt, store.hmac);
            var e := SaveOutcome(old(store.users), r, body.password, true, fault);
            (e.None? ==> res == Response(200, Message(SignedUp)) && store.users == old(store.users)[id := r] &&
                         store.order == old(store.order) + [id]) &&
            (e.Some? ==> res == Failure(e.value) && store.users == old(store.users) && store.order == old(store.order))
  {
    var user := new UserDocument(store.hmac, id, now);
    user.Assign(body, freshSalt);
    assert user.Record() == Extend(Blank(id, now), body, freshSalt, store.hmac) && user.isNew;
    var err := store.Save(user, fault);
    if err.None? {
      res := Response(200, Message(SignedUp));
    } else {
      res := Failure(err.value);
    }
  }

  /**
   * `userByID`: a failing lookup answers "Could not retrieve user", a
   * missing id "User not found"; a found user becomes the request's profile
   * and control passes on (`next`).
   */
  method UserByID(req: Request, store: Store, id: Id, fault: Option<DbError>)
    returns (res: Option<Response>, next: bool)
    modifies req
    ensures next <==> res.None?
    ensures fault.Some? ==> res == Some(Response(400, Error(NotRetrieved))) && req.profile == old(req.profile)
    ensures fault.None? && id !in store.users ==> res == Some(Response(400, Error(NotFound))) && req.profile == old(req.profile)
    ensures fault.None? && id in store.users ==>
              next && req.profile != null && fresh(req.profile) &&
              req.profile.Record() == store.users[id] && !req.profile.isNew && req.profile.password.None? &&
              req.profile.errors == [] && req.profile.hmac == store.hmac
  {
    if fault.Some? {
      return Some(Response(400, Error(NotRetrieved))), false;
    }
    var found := store.Find(id);
    if found.None? {
      return Some(Response(400, Error(NotFound))), false;
    }
    req.profile := new UserDocument.Load(store.hmac, found.value);
    res, next := None, true;
  }

  /** `read`: clears hash and salt on the profile itself and sends it. */
  method Read(req: Request) returns (res: Response)
    requires req.profile != null
    modifies req.profile`hashedPassword, req.profile`salt
    ensures req.profile.Record() == Sanitized(old(req.profile.Record()))
    ensures res == Response(200, Profile(Sanitized(old(req.profile.Record()))))
  {
    var user := req.profile;
    user.hashedPassword := None;
    user.salt := None;
    res := Response(200, Profile(user.Record()));
  }

  /** `list`: every stored user with only id, name, e-mail and timestamps, or 400 when the query fails. */
  method List(store: Store, fault: Option<DbError>) returns (res: Response)
    requires store.Valid()
    ensures fault.Some? ==> res == Response(400, Error(ErrorMessage(fault.value)))
    ensures fault.None? ==> res == Response(200, Users(Listing(store.users, store.order)))
    ensures fault.None? ==> res.status == 200 && res.payload.Users? && |res.payload.users| == |store.users|
    ensures fault.None? ==> forall u | u in res.payload.users ::
              u.hashedPassword.None? && u.salt.None? && u.id in store.users && u == Sanitized(store.users[u.id])
  {
    if fault.Some? {
      return Failure(fault.value);
    }
    res := Response(200, Users(store.List()));
  }

  /**
   * `update`: the body is merged into the profile in place, `updated` set
   * to now, and the profile saved. On success the store keeps the merged
   * record, hash and salt included, while the response and the profile
   * have both cleared; on failure the store is unchanged and the answer is
   * 400 with the error's message.
   */
  method Update(req: Request, store: Store, now: int, freshSalt: string, fault: Option<DbError>)
    returns (res: Response)
    requires req.profile != null && !req.profile.isNew && req.profile.id in store.users
    requires req.profile.hmac == store.hmac
    requires store.Valid()
    modifies store, req.profile
    ensures store.Valid() && store.order == old(store.order)
    ensures var u := Merged(old(req.profile.Record()), req.body, now, freshSalt, store.hmac);
            var password := if req.body.password.Some? then req.body.password else old(req.profile.password);
            var e := SaveOutcome(old(store.users), u, password, false, fault);
            (e.None? ==> store.users == old(store.users)[u.id := u] &&
                         res == Response(200, Profile(Sanitized(u))) &&
                         req.profile.Record() == Sanitized(u)) &&
            (e.Some? ==> store.users == old(store.users) && res == Failure(e.value))
  {
    var user := req.profile;
    MergeBody(user, req.body, now, freshSalt);
    res := SaveProfile(user, store, fault);
  }

  /** `extend(user, req.body)` followed by `user.updated = Date.now()`. */
  method MergeBody(user: UserDocument, body: Body, now: int, freshSalt: string)
    modifies user`name, user`email, user`hashedPassword, user`salt, user`updated, user`created, user`password
    ensures user.Record() == Merged(old(user.Record()), body, now, freshSalt, user.hmac)
    ensures user.password == if body.password.Some? then body.password else old(user.password)
  {
    user.Assign(body, freshSalt);
    user.updated := Some(now);
  }

  /** The save in `update` and the answer to it, hash and salt cleared on success. */
  method SaveProfile(user: UserDocument, store: Store, fault: Option<DbError>) returns (res: Response)
    requires !user.isNew && user.id in store.users && store.Valid()
    modifies store, user`errors, user`isNew, user`hashedPassword, user`salt
    ensures store.Valid() && store.order == old(store.order)
    ensures var e := SaveOutcome(old(store.users), old(user.Record()), user.password, false, fault);
            (e.None? ==> store.users == old(store.users)[user.id := old(user.Record())] &&
                         res == Response(200, Profile(Sanitized(old(user.Record())))) &&
                         user.Record() == Sanitized(old(user.Record()))) &&
            (e.Some? ==> store.users == old(store.users) && res == Failure(e.value))
  {
    var err := store.Save(user, fault);
    if err.None? {
      user.hashedPassword := None;
      user.salt := None;
      res := Response(200, Profile(user.Record()));
    } else {
      res := Failure(err.value);
    }
  }

  /**
   * `remove`: deletes the profile's user; on success the id is gone and
   * the deleted record is sent with hash and salt cleared.
   */
  method Remove(req: Request, store: Store, fault: Option<DbError>) returns (res: Response)
    requires req.profile != null && store.Valid()
    modifies store, req.profile`hashedPassword, req.profile`salt
    ensures store.Valid()
    ensures fault.None? ==> req.profile.id !in store.users &&
                            store.users == old(store.users) - {req.profile.id} &&
                            store.order == Without(old(store.order), req.profile.id) &&
                            res == Response(200, Profile(Sanitized(old(req.profile.Record()))))
    ensures fault.Some? ==> store.users == old(store.users) && store.order == old(store.order) && res == Failure(fault.value)
  {
    var user := req.profile;
    var err := store.Remove(user.id, fault);
    if err.None? {
      user.hashedPassword := None;
      user.salt := None;
      res := Response(200, Profile(user.Record()));
    } else {
      res := Failure(err.value);
    }
  }
}
