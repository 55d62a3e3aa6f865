# Task manager API: sessions, ownership and update rules

This project is a Dafny model of the core of a small Express/Mongoose REST
API for personal task lists. Users sign up, log in and receive bearer tokens.
Every other route needs the `auth` middleware, except the public avatar fetch
`GET /users/:id/avatar`. The middleware accepts a request only when
the presented token verifies to a user id and that user's stored token list
still holds the token. Tasks belong to the user who created them, and every
task lookup filters on the task id and the owner together. Updates pass an
allow-list before anything is written. `GET /tasks` turns its query string into
a match, a page and a sort descriptor.

The state is a `Store` with two collections, `users` and `tasks`, keyed by
document id. Its invariant `Valid` says that every user is filed under its own
id and that every task's owner exists. Route handlers are module-level methods
that take the `Store` and change it under a `modifies` clause. Each handler
behind the middleware receives the `Session` that the middleware produced,
which is a live token and its user's id. Sign-up, login and the avatar fetch
take no session.

Pure decisions are functions, with lemmas relating them:
- the middleware's accept/refuse decision;
- the password and age validators;
- the avatar file-name filter;
- the `toJSON` projection;
- the credential check;
- the parsing of `sortBy`.

The query translation of `GET /tasks` builds its options step by step, as the
source does, and is a method.

The `forEach` loops that copy a request body onto a document are `while` loops
with invariants, and each one is proved equal to a reference function that
overlays the body in one step.

The libraries are passed in as function parameters:
- jsonwebtoken: `sign`, `verify`;
- bcrypt: `hash`, `matches`;
- `validator.isEmail`: `isEmail`;
- sharp: `resize`.

The signer takes the user id and the issue time in seconds, the `iat` claim
that jsonwebtoken adds. The clock reading is a parameter `now` of the routes
that issue tokens. Two logins in different seconds may therefore get
different tokens, and two in the same second get the same one, as in the
source. Where a property needs the signer and the verifier to agree on a
token, the lemma says so in its `requires`. Fresh document ids are parameters
that are required to be unused. Two simplifications go beyond the source and
are listed under "## Left out": `hash` is a function, so it has no random
salt, and `resize` always succeeds.

Modules:
- Wrappers: `Option`, `Result`.
- Strings: the JavaScript string operations the core uses (`trim`, `toLowerCase`, `includes`, `replace` with a string pattern, `split` on one character), and the UTF-8 encoding that `Buffer.from` applies to a string.
- Records: documents, request values, errors and their HTTP status, and the allow-list test.
- Database: the store.
- UserModel: `src/models/user.js`.
- Auth: `src/middleware/auth.js`.
- TaskRouter: `src/routers/task.js`.
- UserRouter: `src/routers/user.js`.
- Guarantees: properties that span the middleware and the routes.

## Model

| member | source | states |
|---|---|---|
| Strings.Trim | src/models/user.js:10-20 | The trimming setter leaves no leading or trailing white space and never lengthens the value |
| Strings.TrimCuts | src/models/user.js:10-20 | The trimmed value is the stretch of the input between its leading and its trailing white space, with only white space cut on either side |
| Strings.TrimIdempotent | src/models/user.js:10-20 | Trimming an already trimmed value changes nothing |
| Strings.ToLower | src/models/user.js:44 | `toLowerCase` keeps the length and lowers each character in place |
| Strings.IndexOf | src/middleware/auth.js:6 | Finds the first occurrence of a pattern; `None` exactly when there is none |
| Strings.Includes | src/models/user.js:44 | `includes` holds exactly when the pattern occurs at some position |
| Strings.ReplaceFirst | src/middleware/auth.js:6 | `replace` with a string pattern rewrites only the first occurrence and leaves a string without one unchanged |
| Strings.ReplacePrefix | src/middleware/auth.js:6 | Replacing a pattern that the string starts with swaps just that prefix |
| Strings.Split | src/routers/task.js:28 | `split(":")` yields at least one part, none containing the separator |
| Strings.SplitFirst | src/routers/task.js:28-29 | The first part is the longest separator-free prefix; a second part exists exactly when a separator follows it |
| Strings.JoinSplit | src/routers/task.js:28 | Splitting loses nothing: joining the parts gives back the string |
| Strings.SplitJoin | src/routers/task.js:28 | Splitting the join of separator-free parts gives back those parts |
| Strings.Utf8Char | src/models/user.js:57-59 | The Buffer cast writes a character as one byte below 0x80 and otherwise as a lead byte followed by one to three continuation bytes in 0x80-0xBF |
| Strings.Utf8CharRoundTrip | src/models/user.js:57-59 | Decoding the bytes written for a character gives back its code point |
| Strings.Utf8 | src/models/user.js:57-59 | A string becomes between one and four bytes per character, and only the empty string becomes no bytes |
| Strings.Utf8Ascii | src/models/user.js:57-59 | An ASCII string becomes its character codes, one byte each |
| Records.Status | src/middleware/auth.js:20-24 | Authentication failures are 401, missing or foreign documents 404, bad input and bad credentials 400 |
| Database.Store.SaveUser | src/models/user.js:80 | Saving a user stores it under its own id, keeps the store valid and leaves the tasks alone |
| UserModel.ValidPasswordIff | src/models/user.js:38-47 | A password is valid exactly when it has at least 7 characters and no 8-character window reads "password" in any letter case |
| UserModel.Assign | src/routers/user.js:121 | One setter writes its path's normalized value and changes no other path, id, token or avatar |
| UserModel.OverlayWrites | src/routers/user.js:120-122 | Applying a body writes exactly the supplied paths, normalized, and keeps every other path, the id, the tokens and the avatar |
| UserModel.OverlayStep | src/routers/user.js:120-122 | Writing one more key equals applying the larger part of the body, so the copy loop may take keys in any order |
| UserModel.PreSave | src/models/user.js:115-124 | The pre-save hook hashes the password exactly when it was modified and touches nothing else |
| UserModel.Save | src/models/user.js:8-48 | A save succeeds exactly when every validated path passes, fails with a validation error otherwise, and then runs the pre-save hook |
| UserModel.ResaveKeepsHash | src/models/user.js:119-121 | Saving an unedited document validates nothing and leaves the stored hash as it is |
| UserModel.NewUser | src/routers/user.js:89-92 | A new user starts with its fresh id and no tokens, and a body carrying `tokens` is refused; its avatar is the cast of the body's `avatar` if any, and one that does not cast is refused; any failure is a validation error |
| UserModel.NewUserFields | src/models/user.js:8-48 | A created user has a non-empty trimmed name, a trimmed lower-cased accepted e-mail, a valid password stored only as the hash of its trimmed form, and the supplied age or 0, never negative |
| UserModel.NewUserAccepts | src/models/user.js:8-48 | Conversely, a body with a usable name, e-mail and password, and a non-negative age if any, is always accepted |
| UserModel.GenerateAuthToken | src/models/user.js:73-83 | The token, signed over the id and the issue time, is appended at the end of this user's list; earlier tokens, every other field and every other document are unchanged |
| UserModel.ToJSONHidesSecrets | src/models/user.js:86-95 | The public projection never shows password, tokens or avatar |
| UserModel.ToJSONKeepsProfile | src/models/user.js:86-95 | Two users serialize alike exactly when id, name, e-mail and age agree |
| UserModel.CredentialsCheck | src/models/user.js:98-112 | Login succeeds exactly for a found user whose stored hash matches; an unknown e-mail and a wrong password give the same error |
| UserModel.FindByCredentials | src/models/user.js:98-112 | A returned user is stored, has the given e-mail and a matching password; no user with that e-mail means the login error; otherwise the answer is the password check against one stored user with that e-mail, so a matching password logs in |
| UserModel.WithoutOwner | src/models/user.js:131 | `deleteMany({ owner })` drops exactly the owner's tasks and keeps the others unchanged |
| UserModel.Remove | src/models/user.js:127-134 | Removing a user deletes all of its tasks first, then the user, and the store stays valid |
| Auth.ExtractToken | src/middleware/auth.js:6 | A token exists exactly when the header does, and it is the header with the first "Bearer " removed |
| Auth.ExtractBearer | src/middleware/auth.js:6 | "Bearer " followed by a token yields that token |
| Auth.ExtractWithoutPrefix | src/middleware/auth.js:6 | A header without "Bearer " is used whole as the token |
| Auth.ExtractRemovesFirstOnly | src/middleware/auth.js:6 | Only the first "Bearer " is removed |
| Auth.Authorize | src/middleware/auth.js:6-15 | A request is accepted exactly for the session whose token is the extracted one, verifies to the id, and is still on that user's list; every refusal is the same 401 |
| Auth.Authenticate | src/middleware/auth.js:4-24 | The middleware sets the raw token and the matched user on success and leaves the request untouched on failure |
| TaskRouter.SortOf | src/routers/task.js:27-31 | The sort direction is always -1 or 1 |
| TaskRouter.SortFieldMeaning | src/routers/task.js:28-29 | The sort field is the text before the first colon, or the whole string when there is none |
| TaskRouter.SortDirectionMeaning | src/routers/task.js:28-29 | The direction is -1 exactly when the part after the first colon is the literal "desc", and 1 otherwise, including when there is no colon |
| TaskRouter.BuildListQuery | src/routers/task.js:8-31 | A non-empty `completed` becomes the match `completed == (value == "true")`; limit is copied; skip is (page-1)*limit when both are given and absent otherwise; a non-empty sortBy becomes its sort |
| TaskRouter.FindOwned | src/routers/task.js:50-55 | A task is found exactly when it exists and the caller owns it; otherwise 404 |
| TaskRouter.ForeignTaskLooksMissing | src/routers/task.js:50-55 | Another user's task answers exactly as a deleted one would |
| TaskRouter.NewTask | src/routers/task.js:65 | A created task is owned by the caller whatever `owner` the body carries, and keeps all other body keys |
| TaskRouter.CreateTask | src/routers/task.js:64-73 | The new task, owned by the caller, is stored under the fresh id it is given and nothing else changes |
| TaskRouter.OverwriteAttrs | src/routers/task.js:102-104 | The copy loop sets every supplied key and keeps every other attribute |
| TaskRouter.UpdateTask | src/routers/task.js:76-112 | A key outside {description, completed} is 400 before any lookup; a task not owned is 404; otherwise exactly the supplied keys of that task are overwritten and no other task changes |
| TaskRouter.DeleteTask | src/routers/task.js:115-131 | Deletes exactly the caller's task with that id, or answers 404 and changes nothing |
| UserRouter.WithoutToken | src/routers/user.js:163-165 | The logout filter removes every copy of the presented token and keeps every other token with its multiplicity |
| UserRouter.WithoutTokenConcat | src/routers/user.js:163-165 | The filter works piecewise, so the surviving tokens keep their order |
| UserRouter.WithoutTokenAbsent | src/routers/user.js:163-165 | Filtering a token that is not listed leaves the list unchanged |
| UserRouter.LogoutUndoesLogin | src/routers/user.js:163-165 | Logging out the token just issued restores the list as it was before login |
| UserRouter.Logout | src/routers/user.js:161-177 | Logout stores the filtered token list of the caller and changes nothing else |
| UserRouter.LogoutAll | src/routers/user.js:180-194 | Logout-all empties the caller's token list and changes nothing else |
| UserRouter.SaveWithToken | src/routers/user.js:92-95 | Saving a new user and issuing its token stores it with that one token appended |
| UserRouter.Signup | src/routers/user.js:88-100 | A rejected body is a validation error that stores nothing; an accepted one stores the new user with one token and answers its public profile and that token |
| UserRouter.Login | src/routers/user.js:145-158 | Bad e-mail and bad password both give the same 400 with no change; when a user with that e-mail exists, login succeeds exactly when the password matches that user's hash; success appends the token issued now to exactly that user |
| UserRouter.UserUpdatableIsProfile | src/routers/user.js:104-109 | The user allow-list admits exactly the four profile paths |
| UserRouter.AssignUserFields | src/routers/user.js:120-122 | The copy loop applies the whole body when every value has the right kind, and is a validation error otherwise |
| UserRouter.Patched | src/routers/user.js:118-124 | An update succeeds exactly when every path it changes passes its validator |
| UserRouter.PatchedWrites | src/routers/user.js:120-124 | A successful update overwrites exactly the supplied paths, keeps id, tokens, avatar and all other paths, and rehashes the password only when the supplied one differs from the stored one |
| UserRouter.PatchTwice | src/routers/user.js:120-124 | Repeating an update that carries no password changes nothing more |
| UserRouter.UpdateMe | src/routers/user.js:103-130 | A key outside the allow-list is 400 with nothing written; a body the schema rejects is a validation error (400) with nothing saved; an accepted one stores exactly the patched user and answers its public profile |
| UserRouter.DeleteMe | src/routers/user.js:133-142 | Removing one's account deletes the user and all its tasks, keeps every other document, and answers the removed profile |
| UserRouter.AvatarNameIff | src/routers/user.js:15 | A file name passes the filter exactly when it ends in ".png", ".jpg", ".jpeg" or ".JPG" |
| UserRouter.AvatarNameExamples | src/routers/user.js:15 | ".jpeg" and ".JPG" pass; ".PNG", ".gif" and a bare "png" do not |
| UserRouter.UploadAvatar | src/routers/user.js:24-48 | A refused file name is 400 and changes nothing; otherwise the resized image becomes the caller's avatar |
| UserRouter.DeleteAvatar | src/routers/user.js:51-59 | Deleting the avatar clears it and changes nothing else |
| UserRouter.AvatarOf | src/routers/user.js:62-80 | Fetching an avatar is 404 exactly when the user is missing or has none, and otherwise returns the stored bytes |
| UserRouter.AvatarLifecycle | src/routers/user.js:51-74 | After a delete the avatar is 404; after an upload it is the uploaded image |
| Guarantees.AuthorizeByLive | src/middleware/auth.js:8-15 | The middleware depends on the users only through which sessions are live for the presented token |
| Guarantees.IssuedTokenAccepted | src/models/user.js:76-79 | A freshly issued token that the verifier maps back to its user opens a session for that user |
| Guarantees.LogoutKeepsLaterLogin | src/routers/user.js:163-165 | Of two logins of one user with different tokens, logging out the first leaves the second accepted |
| Guarantees.LogoutRevokes | src/routers/user.js:163-165 | After logout the presented token is refused, although it still verifies |
| Guarantees.LogoutKeepsOthers | src/routers/user.js:163-165 | Logout changes the decision for no other token, of the same user or another |
| Guarantees.LogoutAllRevokes | src/routers/user.js:182 | After logout-all every session of that user is refused and every other decision is unchanged |
| Guarantees.RemovedUserRejected | src/routers/user.js:135 | After account removal every session of that user is refused and every other decision is unchanged |
| Guarantees.CascadeHidesTasks | src/models/user.js:131 | After account removal none of its tasks can be found by anyone, and every other user finds exactly what they found before |

## Left out

- Welcome and cancellation e-mails (`src/emails/account.js`), the server bootstrap (`src/index.js`) and the database connection (`mongodb.js`, `src/db/mongoose.js`) are I/O and are not modelled.
- Token signing and verification, password hashing and comparison, the e-mail validator and image resizing are function parameters. The clock that gives the signer its issue time is the parameter `now`.
- UserModel.PreSave: `bcrypt.hash(password, 8)` draws a random salt, so the source stores a different hash each time the same password is set. The model's `hash` is a function and gives the same hash for the same password. No property here depends on two hashes being different.
- UserRouter.UploadAvatar: `resize` is total. sharp rejects a buffer it cannot decode; the source's handler then stores nothing and sends no response. The model always stores `Some(resize(file))` for an accepted file name. A request with no file, which leaves `req.file` undefined so that the handler throws before storing anything, cannot be expressed either, because `file` is always some bytes.
- TaskRouter.CreateTask: the task is always filed under the fresh id `tid`. In the source, a body-supplied `_id` becomes the document's id, and a duplicate one makes the save fail with 400. The model keeps `"_id"` as an ordinary attribute instead. Ownership is unaffected.
- UserModel.NewUser: a body-supplied `_id` is not modelled, because ids are natural numbers chosen by the caller. `Value` has no null, array, object or fractional number. So a body cannot carry its own token list, a `null` avatar or a fractional age. Every `tokens` value the model can express fails to cast, and is refused.
- multer's 1,000,000-byte upload limit is the library's behaviour and is not modelled.
- `GET /tasks` is modelled up to the match and options it builds. `populate`, filtering by that match and the database's sort order are not modelled.
- BuildListQuery: `limit` and `page` are natural numbers. `parseInt` of non-numeric text is not modelled. `page` without `limit` gives NaN in the source; the model leaves skip absent in that case. `page=0` keeps the negative skip that the source computes.
- `GET /users/me` only serializes the user that the middleware attached: Auth.Authenticate and UserModel.ToJSON cover it, and it has no member of its own.
- The unique index on e-mail and the schema timestamps are not modelled. FindByCredentials returns some user with that e-mail when several exist.
- FindByCredentials compares the login e-mail with the stored one exactly. Any case folding or trimming of query values by Mongoose is not modelled.
- `src/models/task.js` is not part of this model. A task is an owner plus a map of attributes, with no schema casting, defaults or validation. So a task save never fails in the model: the 400 of create and the 500 of update do not arise.
- UserModel.Save: a request value of the wrong JSON kind for a user path (a number where a string is expected, or the reverse) is treated as a cast error, giving a validation failure. Mongoose's own cross-kind casts, such as the string "30" for age, are not modelled.
- UserModel.Save: only the profile paths a save modified are validated. Mongoose also re-validates the paths it loaded from the database, so the source's token, avatar and profile saves also run the validators of the stored name, e-mail, age and password. This is a simplification. It agrees with the source when the stored values pass their validators. The stored name, e-mail and age passed them when they were saved. For the stored password, the model assumes the bcrypt hash passes: it is 60 characters long, and the model does not check that it contains no "password" in any letter case.
- Strings.ToLower: only ASCII letters are lowered. No non-ASCII letter lowers to a letter of "password", so the password rule is exact. Other JavaScript case mapping is not modelled.
- Strings.Trim and the password length count Unicode scalar values, while JavaScript counts UTF-16 code units. The two differ only for characters outside the Basic Multilingual Plane.
- Ids are natural numbers. A malformed ObjectId, which makes the source answer 500, cannot be written.
- Database failures (the 500 answers of the source) and concurrent read-modify-write races between requests on one token list are not modelled.
