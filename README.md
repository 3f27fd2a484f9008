# User layer of a MERN skeleton, modelled in Dafny

This project models the user layer of a MERN skeleton application (an
Express/Mongoose server). It has three parts.

- **The error handler** (`DbErrorHandler`) turns a persistence error into
  the one message a client sees. Duplicate-key codes 11000 and 11001 name
  the offending field, taken from the index name in the database's message.
  Any other code gives "Something went wrong". A validation error gives the
  last non-empty message among its per-field errors.
- **The User entity** (`UserModel`) covers the schema rules and the
  `password` virtual. Setting the virtual re-derives `salt` and
  `hashed_password`. It also covers `encryptPassword`, `authenticate`, and
  the validate hook that writes password errors into the document's error
  map.
- **The user controller** (`UserController`) holds the handlers for
  sign-up, profile lookup, read, list, update and remove. They run over an
  abstract store (`UserStore`): a map from id to stored user, plus the
  collection's natural order. Each store operation can also fail.

`JsString` models the JavaScript string built-ins the code relies on:
`lastIndexOf`, `substring` (clamping and bound swapping), upper-casing the
first character, `trim`, and the e-mail pattern `/.+\@.+\..+/`.

A validation failure could plausibly be expected to report the *first*
non-empty field message, in field declaration order. The model follows the
code instead: the loop in `server/helpers/dbErrorHandler.js:53-55`
overwrites the message on every hit, so the *last* one wins. The order is the order in which the errors
were recorded. `DbErrorHandler.LastMessageWins` and
`UserStore.ShortPasswordReported` state this.

An address containing "_1", with no ".$" before that "_1" and neither
marker after it, is mis-reported on a duplicate key: the extraction stops
at the address's own "_1" instead of the index's
(`UserStore.UnderscoreOneAddressMisreported`).

## Model

| member | source | states |
|---|---|---|
| `JsString.LastIndexOf` | server/helpers/dbErrorHandler.js:24 | the result is -1 or an occurrence of the pattern, and no occurrence lies after it |
| `JsString.LastIndexOfMissing` | server/helpers/dbErrorHandler.js:24 | `lastIndexOf` gives -1 exactly when the pattern occurs nowhere |
| `JsString.Substring` | server/helpers/dbErrorHandler.js:24 | the result's length is the distance between the two clamped bounds; for bounds inside the string, in either order, it is the slice between them (the body clamps out-of-range bounds and swaps them when the start is larger) |
| `JsString.SubstringSymmetric` | server/helpers/dbErrorHandler.js:24 | swapping the two bounds of `substring` gives the same text |
| `JsString.ToUpperCase` | server/helpers/dbErrorHandler.js:25 | lower-case ASCII letters become upper case; every other character is unchanged |
| `JsString.CapitalizeFirst` | server/helpers/dbErrorHandler.js:25 | only the first character is upper-cased; the length and the rest are unchanged |
| `JsString.Trim` | server/models/user.model.js:8-17 | the result neither starts nor ends with white space |
| `JsString.TrimCutsWhiteSpace` | server/models/user.model.js:8-17 | the result is the slice between the two trim indices, and everything cut off on either side is white space |
| `JsString.TrimIdempotent` | server/models/user.model.js:10 | trimming a trimmed string changes nothing |
| `JsString.MatchesEmailPattern` | server/models/user.model.js:19 | the unanchored pattern `/.+\@.+\..+/` without the `s` flag: an '@' with a non-terminator before it, then a '.' reached over non-terminators and followed by one; a match has at least five characters |
| `JsString.EmailPatternShape` | server/models/user.model.js:19 | an accepted address has at least five characters and an '@' before a '.' that is not last |
| `DbErrorHandler.IsTruthy` | server/helpers/dbErrorHandler.js:43 | `if (err.code)`: falsy exactly for an absent code, 0 and ""; the duplicate-key codes are truthy |
| `DbErrorHandler.ExtractField` | server/helpers/dbErrorHandler.js:24 | defined as `substring` from past the last ".$" to the last "_1"; its contract bounds its length by the message's, and `ExtractsIndexField` gives its content |
| `DbErrorHandler.UniqueErrorMessage` | server/helpers/dbErrorHandler.js:21-31 | the fallback only when the message cannot be read; otherwise the capitalised extracted field followed by " already exists" |
| `DbErrorHandler.ExtractsIndexField` | server/helpers/dbErrorHandler.js:24 | in a message "…`.$`field`_1`…" with no later markers, the extraction returns exactly the field |
| `DbErrorHandler.LastSeparatorIsIndexStart` | server/helpers/dbErrorHandler.js:24 | when neither the field nor the tail holds ".$", the last ".$" is the one that opens the index name |
| `DbErrorHandler.LastSuffixIsIndexEnd` | server/helpers/dbErrorHandler.js:24 | when the tail holds no "_1", the last "_1" is the one that closes the index name |
| `DbErrorHandler.ExtractsEmail` | server/helpers/dbErrorHandler.js:24 | a message naming the `email_1` index with no later markers gives the field "email" |
| `DbErrorHandler.EmailAlreadyExists` | server/helpers/dbErrorHandler.js:24-25 | such a message gives "Email already exists" |
| `DbErrorHandler.NoMarkersGiveFirstCharacter` | server/helpers/dbErrorHandler.js:24-25 | with neither marker the bounds are 1 and 0 and swap, so the field is the first character; an empty message gives " already exists" |
| `DbErrorHandler.EmptyFieldIsNotFallback` | server/helpers/dbErrorHandler.js:23-28 | an empty extracted field gives " already exists", never the fallback |
| `DbErrorHandler.LastNonEmptyMessage` | server/helpers/dbErrorHandler.js:53-55 | the loop's result: a non-empty result is the message of one of the entries |
| `DbErrorHandler.LastNonEmptyMessageIsLast` | server/helpers/dbErrorHandler.js:53-55 | the scan gives "" exactly when no entry has a non-empty message; otherwise the message of an entry that no later message follows |
| `DbErrorHandler.LastMessageWins` | server/helpers/dbErrorHandler.js:53-55 | an entry with a non-empty message and none after it is the one reported |
| `DbErrorHandler.ErrorMessage` | server/helpers/dbErrorHandler.js:40-59 | codes 11000/11001 give the unique-field message; any other truthy code gives "Something went wrong"; without a code, "" when no entry has a message, otherwise the last non-empty one |
| `DbErrorHandler.GetErrorMessage` | server/helpers/dbErrorHandler.js:40-59 | the loop over `err.errors` computes `ErrorMessage` |
| `DbErrorHandler.TextCodeIsGeneric` | server/helpers/dbErrorHandler.js:43-50 | a string code such as "11000" is truthy but matches no case under `===`, so it gives "Something went wrong" |
| `UserModel.Encrypt` | server/models/user.model.js:95-104 | "" exactly for an empty password or when the digest call throws (no salt); otherwise the HMAC of the password under the salt |
| `UserModel.Invalidated` | server/models/user.model.js:65-72 | `invalidate` overwrites an existing path's entry in place and appends a new path last; paths stay unique |
| `UserModel.PasswordHook` | server/models/user.model.js:65-72 | a set password shorter than 6 gives the length error; a new document without a password gives "Password is required"; otherwise nothing changes |
| `UserModel.NameErrors` | server/models/user.model.js:8-12 | defined as `required` on the name: "Name is required" on `name` when it is unset or empty, nothing otherwise |
| `UserModel.EmailErrors` | server/models/user.model.js:15-21 | defined as `required`, then the pattern on a set address; an unset or empty address gives "Email is required" and never the pattern's message |
| `UserModel.HashErrors` | server/models/user.model.js:24-27 | defined as `required` on `hashed_password`, then the hook; the paths it records are unique |
| `UserModel.SchemaErrors` | server/models/user.model.js:6-72 | the errors of one validation run, in the recording order the model assumes: at most three, the last one with a non-empty message |
| `UserModel.RulesRecordAtMostOne` | server/models/user.model.js:6-27 | each path's rules record at most one error, and none exactly when the value passes them (for `hashed_password`: set, and the hook satisfied) |
| `UserModel.SchemaAccepts` | server/models/user.model.js:6-72 | validation records nothing exactly when every field rule and the hook hold |
| `UserModel.PasswordErrorIsLast` | server/models/user.model.js:65-72 | once a hash is set, a short password or a new document without one puts its password error last |
| `UserModel.Overwritten` | server/controllers/user.controller.js:91 | each plain body key overwrites its field (name and e-mail trimmed); other fields keep their values |
| `UserModel.Extend` | server/controllers/user.controller.js:91 | the plain keys overwrite their fields, then a password replaces salt and hash together with the digest under the fresh salt |
| `UserModel.ExtendRehashes` | server/models/user.model.js:50-54 | after a non-empty password is assigned, the record's hash is that password's non-empty digest under the record's own salt |
| `UserModel.ExtendEmptyBody` | server/controllers/user.controller.js:91 | an empty body changes nothing |
| `UserModel.UserDocument.constructor` | server/models/user.model.js:33-36 | a new document is blank except `created`, which defaults to now |
| `UserModel.UserDocument.Load` | server/controllers/user.controller.js:42 | a loaded document shows the stored record, is not new and holds no password |
| `UserModel.UserDocument.EncryptPassword` | server/models/user.model.js:95-104 | "" exactly when the password is empty or the document has no salt |
| `UserModel.UserDocument.Authenticate` | server/models/user.model.js:92-94 | a match means the stored hash is set; against a non-empty hash, it means a non-empty attempt whose digest under the salt is that hash |
| `UserModel.UserDocument.SetPassword` | server/models/user.model.js:50-57 | the setter stores the plain text for the getter, takes the fresh salt and the digest under it; afterwards a non-empty password authenticates |
| `UserModel.UserDocument.AssignKeys` | server/controllers/user.controller.js:91 | the setters for the plain keys leave the record `Overwritten` describes |
| `UserModel.UserDocument.Assign` | server/controllers/user.controller.js:12 | the setters for the body's keys leave the record `Extend` describes |
| `UserModel.UserDocument.Invalidate` | server/models/user.model.js:67 | the error map becomes `Invalidated` of the old one |
| `UserModel.UserDocument.CheckPassword` | server/models/user.model.js:65-72 | the hook's two checks leave the map `PasswordHook` describes |
| `UserModel.UserDocument.CheckName` | server/models/user.model.js:8-12 | the name validator appends the name rule's errors |
| `UserModel.UserDocument.CheckEmail` | server/models/user.model.js:15-21 | the e-mail validators append the e-mail rules' errors |
| `UserModel.UserDocument.CheckHashedPassword` | server/models/user.model.js:24-27 | the hash validators append "required" or the hook's errors |
| `UserModel.UserDocument.Validate` | server/models/user.model.js:6-37 | a run clears the map and records the schema's errors, path by path |
| `UserModel.EmptyAttemptFails` | server/models/user.model.js:92-96 | an empty attempt never matches a non-empty stored hash |
| `UserModel.NoSaltNoMatch` | server/models/user.model.js:97-104 | without a salt the digest call throws, so no attempt matches a non-empty stored hash |
| `UserStore.DuplicateKeyError` | server/models/user.model.js:18 | the unique index on `email` raises a duplicate-key code whose message names the `email_1` index right after the namespace |
| `UserStore.ValidationFailure` | server/helpers/dbErrorHandler.js:52-55 | a validation error has a falsy code and one entry per recorded path, in the order recorded, carrying that path's message |
| `UserStore.SaveOutcome` | server/controllers/user.controller.js:15 | the outcome of `save`: a database fault always fails it, and a write happens only when no other user has the address |
| `UserStore.SaveSucceedsIff` | server/controllers/user.controller.js:15 | a save goes through exactly when every rule holds, the database does not fail and no other user has the address |
| `UserStore.WriteKeepsEmailsUnique` | server/models/user.model.js:18 | writing a record whose address no other user has keeps every stored address unique |
| `UserStore.WriteKeepsConsistent` | server/controllers/user.controller.js:15 | writing such a record, a new id going last in the order, keeps the order, the ids and the unique addresses consistent |
| `UserStore.ValidationReportsLastError` | server/helpers/dbErrorHandler.js:53-55 | a failed validation reports the last recorded message |
| `UserStore.ShortPasswordReported` | server/models/user.model.js:66-68 | with the hook's error recorded after the field rules' errors, a short password is what gets reported, whatever else is wrong with the document |
| `UserStore.ShortPasswordAlone` | server/models/user.model.js:66-68 | with a valid name and address, a short password is the only error and is reported, whatever the recording order |
| `UserStore.DuplicateEmailMessage` | server/helpers/dbErrorHandler.js:24-25 | the index's duplicate-key error for any address containing neither "_1" nor ".$" reads "Email already exists" |
| `UserStore.UnderscoreOneAddressMisreported` | server/helpers/dbErrorHandler.js:24-25 | for an address `a` + "_1" + `b` (no ".$" in `a`, no marker in `b`) the field runs from "email" up to the address's own "_1"; the message is "Email_1", the quoted key's opening and `a`, then " already exists", never "Email already exists" |
| `UserStore.UnderscoreOneExample` | server/helpers/dbErrorHandler.js:24-25 | a duplicate "b_1@x.co" is not reported as "Email already exists" |
| `UserStore.TakenEmailReported` | server/models/user.model.js:18 | a valid document whose address, containing neither "_1" nor ".$", another user holds is rejected with "Email already exists" |
| `UserStore.Sanitized` | server/controllers/user.controller.js:62-63 | hash and salt are cleared; id, name, e-mail and timestamps are unchanged |
| `UserStore.Without` | server/controllers/user.controller.js:109 | removing an id from the collection order: the id is gone, every other id stays, nothing is added |
| `UserStore.Listing` | server/controllers/user.controller.js:73 | one entry per stored user, in collection order, each the user without hash and salt |
| `UserStore.ListingHasNoSecrets` | server/controllers/user.controller.js:73-74 | no listed user carries a hash or a salt |
| `UserStore.Store.Find` | server/controllers/user.controller.js:42 | a record is found exactly when the id is stored |
| `UserStore.Store.List` | server/controllers/user.controller.js:73 | the query's result is `Listing` of the store: every stored user once, in collection order, without hash and salt |
| `UserStore.Store.Save` | server/controllers/user.controller.js:15 | the outcome is validation, then a database fault, then the unique index; a success writes the record and the document stops being new; unique addresses are kept |
| `UserStore.Store.Remove` | server/controllers/user.controller.js:109 | unless the database fails, the id is gone and nothing else changes |
| `UserController.Failure` | server/controllers/user.controller.js:22-24 | a failure is a 400 whose error is the handler's message for that error |
| `UserController.Merged` | server/controllers/user.controller.js:90-92 | body keys overwrite, other fields stay, and `updated` is the current time |
| `UserController.Create` | server/controllers/user.controller.js:11-26 | a saved sign-up answers 200 "Successfully signed up!", stores the new record and appends its id to the collection order; any failure answers 400 with its message and leaves both the map and the order unchanged |
| `UserController.UserByID` | server/controllers/user.controller.js:40-54 | a failed lookup answers "Could not retrieve user"; a missing id answers "User not found"; neither sets the profile or calls `next`; a found user becomes the profile and `next` runs |
| `UserController.Read` | server/controllers/user.controller.js:61-65 | the profile and the response lose hash and salt, and nothing else changes |
| `UserController.List` | server/controllers/user.controller.js:71-80 | 200 with `Listing` of the store (every stored user once, in collection order, without hash and salt), or 400 with the query error's message |
| `UserController.Update` | server/controllers/user.controller.js:88-102 | the stored record becomes the merged, time-stamped profile with hash and salt, and the collection order is unchanged; the response and the profile have both cleared; a failure leaves map and order unchanged and answers 400 |
| `UserController.MergeBody` | server/controllers/user.controller.js:90-92 | the profile becomes the merged record, stamped with the current time |
| `UserController.SaveProfile` | server/controllers/user.controller.js:93-100 | a saved profile is stored with hash and salt, then answered and left with both cleared; the collection order never changes; a failure stores nothing and answers 400 |
| `UserController.Remove` | server/controllers/user.controller.js:106-118 | the id is gone from the store and from the collection order, the other ids keeping their order, and the deleted record comes back without hash and salt; a failure answers 400 and leaves map and order unchanged |

## Left out

- `makeSalt` (`server/models/user.model.js:106-108`) depends on the clock and `Math.random`. The fresh salt is a parameter of every operation that sets a password.
- HMAC-SHA1 is not modelled. It is a deterministic function that never returns "", fixed per store and document. `authenticate` therefore proves only that a match has the stored digest. Rejecting every other password would need collision resistance.
- `Date.now()` is a parameter (`now`). Dates are integers.
- The model does not include Mongoose or MongoDB. The store is a map plus the insertion order, and each failure of `save`, `findById`, `find` or `remove` is an `Option<DbError>` parameter. Of the unique index only the `email` check is modelled; `_id` indexing, cast errors and concurrent writers are not.
- The duplicate-key message follows the MongoDB 2.x wording, `…index: mernproject.users.$email_1 dup key: { : "x" }`. Newer servers word it differently, as `…collection: mernproject.users index: email_1 dup key: { email: "x" }`. That message has no ".$", so the extraction starts at index 1 and the handler answers "11000 duplicate key error collection: mernproject.users index: email already exists" rather than "Email already exists"; only the older wording is modelled. "Email already exists" is proved for every address that contains neither "_1" nor ".$". An address that contains either marker moves one end of the extracted field into the quoted key (`UserStore.UnderscoreOneAddressMisreported`).
- UserStore.ValidationFailure: the error's `message` is the fixed "User validation failed" and does not list the paths. The handler never reads it when there is no code.
- UserModel.UserDocument.Validate: the model assumes that errors are recorded in schema order (`name`, `email`, `hashed_password`, then the hook's `password`), with `required` first on each path and the first failing validator ending that path. Mongoose's source is not part of this model, so that order is an assumption, not something the repository shows. Which paths Mongoose chooses to validate is not modelled either. The hook runs only once the hash is set.
- UserStore.ShortPasswordReported rests on that assumed order: the error handler reports the last recorded message, and if Mongoose records the hook's `password` error before a failing `name` or `email` rule, that rule's message is reported instead. `UserStore.ShortPasswordAlone` states the order-independent case, with a valid name and address.
- UserStore.Store.Save: the document must be new exactly when its id is not yet stored. Saving a document whose record was deleted meanwhile is not modelled.
- Body keys are applied in the fixed order name, e-mail, `hashed_password`, `salt`, `updated`, `created`, then `password`. JavaScript applies them in the body's own key order. Only `password` interacts with other keys, and it goes last. A body's `_id` and unknown keys are not modelled, and non-string values are not cast.
- JsString.ToUpperCase upper-cases ASCII letters only. Lengths count characters, not UTF-16 code units.
- DbErrorHandler.ErrorEntry: an entry's `message` is modelled as a string or absent. A truthy `message` that is not a string, which the loop at `server/helpers/dbErrorHandler.js:54` would assign and return, is not modelled; Mongoose's validator messages are strings.
- `null` values are not modelled. Only set or undefined (`Option`) values are.
- `res.status('400')` passes the status as a string. The model uses the number 400.
- UserController.Read and UserController.Update ensure that hash and salt are cleared on the profile object itself. The JSON serialization of that object is modelled as the record.
- Sign-in, sign-out, JWT handling and the ownership check live in the auth controller, which is not part of this model. `server/express.js`, the route files and `config/config.js` are wiring and configuration and are also not part of this model.
